/**
 * IPv4 addresses as `ipaddress.IPv4Address` sees them: four octets, the
 * 32-bit big-endian integer they pack into, and the strict dotted-quad text.
 */
module Addresses {
  import opened Options
  import opened Text
  import opened Numerals

  type Octet = x: int | 0 <= x < 256

  datatype Address = Address(o0: Octet, o1: Octet, o2: Octet, o3: Octet) {
    /** The octets in network order, as the list `[int(x) for x in ip_str.split('.')]`. */
    function Octets(): (os: seq<Octet>)
      ensures |os| == 4
    {
      [o0, o1, o2, o3]
    }
  }

  const Two32: nat := 0x1_0000_0000

  /** `int(ip)`: the octets packed big-endian into a 32-bit unsigned value. */
  function ToInt(a: Address): (n: nat)
    ensures n < Two32
  {
    ((a.o0 * 256 + a.o1) * 256 + a.o2) * 256 + a.o3
  }

  /** `ipaddress.IPv4Address(n)` for an integer in range: the address whose
      packed value is `n`. */
  function FromInt(n: nat): (a: Address)
    requires n < Two32
    ensures ToInt(a) == n
  {
    var q3 := n / 256;
    var q2 := q3 / 256;
    ByteSplit(n);
    ByteSplit(q3);
    ByteSplit(q2);
    Address(q2 / 256, q2 % 256, q3 % 256, n % 256)
  }

  /** A number is its quotient by 256 followed by its last byte. */
  lemma ByteSplit(n: nat)
    ensures n == n / 256 * 256 + n % 256
  {
  }

  /** Dividing by 256 drops the last byte. */
  lemma ByteDrop(v: nat, d: nat)
    requires d < 256
    ensures (v * 256 + d) / 256 == v && (v * 256 + d) % 256 == d
  {
  }

  /** Packing is injective: unpacking the packed value gives the octets back. */
  lemma FromIntToInt(a: Address)
    ensures FromInt(ToInt(a)) == a
  {
    var v1 := a.o0 * 256 + a.o1;
    var v2 := v1 * 256 + a.o2;
    ByteDrop(a.o0, a.o1);
    ByteDrop(v1, a.o2);
    ByteDrop(v2, a.o3);
  }

  /** The decimal text of each octet. */
  function DecimalTexts(os: seq<Octet>): (ts: seq<string>)
    ensures |ts| == |os|
  {
    seq(|os|, i requires 0 <= i < |os| => Decimal(os[i]))
  }

  /** `str(ip)`: the octets in decimal, joined by dots. */
  function Dotted(a: Address): string {
    Join(DecimalTexts(a.Octets()))
  }

  /** The single assumption made about `ipaddress.IPv4Address(str)`: each of
      the four groups is 1 to 3 ASCII digits, has no leading zero unless it is
      "0" itself, and is at most 255. This is the behaviour of CPython 3.9.5
      and later, which refuse leading zeros. */
  predicate StrictOctetText(g: string) {
    1 <= |g| <= 3 && IsDigitsIn(g, 10) && IsCanonical(g) && ValueIn(g, 10) <= 255
  }

  /** `ipaddress.IPv4Address(s)`: the address `s` denotes, or `None` where the
      constructor raises `AddressValueError`. */
  function ParseAddress(s: string): Option<Address> {
    var g := Split(s);
    if |g| == 4 && forall k :: 0 <= k < 4 ==> StrictOctetText(g[k]) then
      Some(Address(ValueIn(g[0], 10), ValueIn(g[1], 10), ValueIn(g[2], 10), ValueIn(g[3], 10)))
    else
      None
  }

  /** The decimal text of an octet passes the strict check and reads back as the octet. */
  lemma OctetText(x: Octet)
    ensures StrictOctetText(Decimal(x)) && ValueIn(Decimal(x), 10) == x
    ensures 1 <= |Decimal(x)| <= 3 && IsNumeral(Decimal(x))
  {
    assert Pow(10, 3) == 1000;
    RenderLength(x, 10, 3);
    ValueOfRender(x, 10);
  }

  /** The dot-separated pieces of `str(ip)` are the octets' decimal texts. */
  lemma SplitDotted(a: Address)
    ensures Split(Dotted(a)) == DecimalTexts(a.Octets())
  {
    var ts := DecimalTexts(a.Octets());
    SplitJoin(ts);
  }

  /** `ipaddress.IPv4Address` accepts a text exactly when it is `str()` of an
      address, and then yields that address. */
  lemma ParseAddressIff(s: string, a: Address)
    ensures ParseAddress(s) == Some(a) <==> s == Dotted(a)
  {
    if s == Dotted(a) {
      DottedParses(a);
    }
    if ParseAddress(s) == Some(a) {
      ParsedIsDotted(s);
    }
  }

  /** `str(ip)` is accepted and yields `ip`. */
  lemma DottedParses(a: Address)
    ensures ParseAddress(Dotted(a)) == Some(a)
  {
    SplitDotted(a);
    assert DecimalTexts(a.Octets()) == [Decimal(a.o0), Decimal(a.o1), Decimal(a.o2), Decimal(a.o3)];
    DecimalTextsParse(Dotted(a), a.o0, a.o1, a.o2, a.o3);
  }

  /** Four octets' decimal texts between dots are accepted as those octets. */
  lemma DecimalTextsParse(s: string, x0: Octet, x1: Octet, x2: Octet, x3: Octet)
    requires Split(s) == [Decimal(x0), Decimal(x1), Decimal(x2), Decimal(x3)]
    ensures ParseAddress(s) == Some(Address(x0, x1, x2, x3))
  {
    OctetText(x0);
    OctetText(x1);
    OctetText(x2);
    OctetText(x3);
  }

  /** An accepted text is `str()` of the address it yields. */
  lemma ParsedIsDotted(s: string)
    requires ParseAddress(s).Some?
    ensures s == Dotted(ParseAddress(s).value)
  {
    var g := Split(s);
    forall k | 0 <= k < 4
      ensures Decimal(ValueIn(g[k], 10)) == g[k]
    {
      assert IsLowerHex(g[k]) by {
        DecimalDigits(g[k]);
      }
      RenderOfValue(g[k], 10);
    }
    assert DecimalTexts(ParseAddress(s).value.Octets()) == g;
  }

  /** Distinct addresses have distinct texts. */
  lemma DottedInjective(a: Address, b: Address)
    requires Dotted(a) == Dotted(b)
    ensures a == b
  {
    ParseAddressIff(Dotted(a), a);
    ParseAddressIff(Dotted(a), b);
  }
}
