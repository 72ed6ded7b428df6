/**
 * `convert_ipv4`: validate a dotted quad and derive its alternate texts
 * (32-bit decimal, 32-bit hexadecimal, IPv6-mapped, truncated, integer
 * overflow, octal). The printed lines become returned labelled strings.
 */
module Converter {
  import opened Options
  import opened Text
  import opened Numerals
  import opened Addresses

  /** The texts printed for a valid address; the truncated and the overflow
      text are printed only under their conditions. */
  datatype Representations = Representations(
    standard: string,
    decimal: string,
    hex: string,
    mapped: string,
    truncated: Option<string>,
    overflow: Option<string>,
    octal: string)

  /** Either all the representations, or the AddressValueError that
      `convert_ipv4` catches and reports, naming the offending text. */
  datatype Conversion = Converted(reps: Representations) | InvalidAddress(text: string)

  /** `all(x == 0 for x in os)`. */
  predicate AllZero(os: seq<Octet>) {
    forall j :: 0 <= j < |os| ==> os[j] == 0
  }

  /** The number of octets the truncated display keeps: the shortest
      non-empty prefix after which every octet is zero. */
  function TruncLen(os: seq<Octet>): (k: nat)
    requires |os| >= 1
    ensures 1 <= k <= |os|
    ensures AllZero(os[k..])
    ensures forall j :: 1 <= j < k ==> !AllZero(os[j..])
    decreases |os|
  {
    if |os| == 1 then 1
    else if os[|os| - 1] == 0 then
      var k := TruncLen(os[..|os| - 1]);
      assert os[k..] == os[..|os| - 1][k..] + [0];
      assert forall j :: 1 <= j < k ==> os[j..] == os[..|os| - 1][j..] + [0];
      k
    else |os|
  }

  /** The truncated display: the decimal texts of the kept octets, joined by dots. */
  function TruncatedText(os: seq<Octet>): string
    requires |os| >= 1
  {
    Join(DecimalTexts(os[..TruncLen(os)]))
  }

  /** The truncation loop as written: append each octet's text and stop at the
      first position after which only zero octets remain. */
  method TruncatedDisplay(octets: seq<Octet>) returns (t: string)
    requires |octets| >= 1
    ensures t == TruncatedText(octets)
  {
    var truncatedParts: seq<string> := [];
    var i := 0;
    while i < |octets|
      invariant 0 <= i < |octets|
      invariant truncatedParts == DecimalTexts(octets[..i])
      invariant forall j :: 1 <= j <= i ==> !AllZero(octets[j..])
    {
      truncatedParts := truncatedParts + [Decimal(octets[i])];
      if AllZero(octets[i + 1..]) {
        break;
      }
      i := i + 1;
    }
    assert truncatedParts == DecimalTexts(octets[..i + 1]);
    t := Join(truncatedParts);
  }

  /** One octet in the octal display: a '0' in front exactly of the octets
      that need more than one octal digit, and the octal value is the octet. */
  function OctalText(x: Octet): (r: string)
    ensures IsNumeral(r) && NoDot(r) && IsDigitsIn(r, 8) && ValueIn(r, 8) == x
    ensures (|r| > 1 && r[0] == '0') <==> x >= 8
  {
    var digits := Render(x, 8);
    ValueOfRender(x, 8);
    assert IsDigits(digits) by {
      assert forall i :: 0 <= i < |digits| ==> DigitValue(digits[i]) < 10;
    }
    if x >= 8 then
      ValueZeroPrefix("0", digits, 8);
      "0" + digits
    else
      digits
  }

  /** The octal text of each octet. */
  function OctalTexts(os: seq<Octet>): (ts: seq<string>)
    ensures |ts| == |os|
  {
    seq(|os|, i requires 0 <= i < |os| => OctalText(os[i]))
  }

  /** The "Integer overflow" text: the first two octets, then the last two
      combined as `o2 * 256 + o3`; printed only when that combined value is
      not zero. */
  function OverflowText(a: Address): Option<string> {
    if a.o2 >= 1 || a.o3 >= 1 then
      Some(Decimal(a.o0) + "." + Decimal(a.o1) + "." + Decimal(a.o2 * 256 + a.o3))
    else
      None
  }

  /** Everything `convert_ipv4` prints for the address `a` it parsed from
      `ipStr`. Line 70 prints `str(ip)`, the other lines use `ip_str`. */
  function Derive(a: Address, ipStr: string): Representations {
    var n := ToInt(a);
    var truncated := TruncatedText(a.Octets());
    Representations(
      ipStr,
      Decimal(n),
      "0x" + Hex8(n),
      "::ffff:" + Dotted(a),
      if truncated != ipStr then Some(truncated) else None,
      OverflowText(a),
      Join(OctalTexts(a.Octets())))
  }

  /** `convert_ipv4(ip_str)`. */
  function Convert(ipStr: string): Conversion {
    match ParseAddress(ipStr)
    case None => InvalidAddress(ipStr)
    case Some(a) => Converted(Derive(a, ipStr))
  }

  /** `convert_ipv4` as a procedure, with the truncation loop. */
  method ConvertIPv4(ipStr: string) returns (r: Conversion)
    ensures r == Convert(ipStr)
  {
    var parsed := ParseAddress(ipStr);
    if parsed.None? {
      return InvalidAddress(ipStr);
    }
    var a := parsed.value;
    var n := ToInt(a);
    var truncated := TruncatedDisplay(a.Octets());
    r := Converted(Representations(
      ipStr,
      Decimal(n),
      "0x" + Hex8(n),
      "::ffff:" + Dotted(a),
      if truncated != ipStr then Some(truncated) else None,
      OverflowText(a),
      Join(OctalTexts(a.Octets()))));
  }

  /** The lines `convert_ipv4` prints, label and text, in their fixed order. */
  function Report(c: Conversion): (lines: seq<string>)
    ensures c.InvalidAddress? ==> lines == ["Error: Invalid IPv4 address '" + c.text + "'"]
    ensures c.Converted? ==>
              |lines| == 5 + (if c.reps.truncated.Some? then 1 else 0) + (if c.reps.overflow.Some? then 1 else 0) &&
              lines[0] == "Standard IPv4: " + c.reps.standard &&
              lines[1] == "32-bit decimal: " + c.reps.decimal &&
              lines[2] == "32-bit hex: " + c.reps.hex &&
              lines[3] == "IPv6 mapped: " + c.reps.mapped &&
              (c.reps.truncated.Some? ==> lines[4] == "Truncated: " + c.reps.truncated.value) &&
              (c.reps.overflow.Some? ==> lines[|lines| - 2] == "Integer overflow: " + c.reps.overflow.value) &&
              lines[|lines| - 1] == "Octal: " + c.reps.octal
  {
    match c
    case InvalidAddress(s) => ["Error: Invalid IPv4 address '" + s + "'"]
    case Converted(r) =>
      ["Standard IPv4: " + r.standard,
       "32-bit decimal: " + r.decimal,
       "32-bit hex: " + r.hex,
       "IPv6 mapped: " + r.mapped]
      + (if r.truncated.Some? then ["Truncated: " + r.truncated.value] else [])
      + (if r.overflow.Some? then ["Integer overflow: " + r.overflow.value] else [])
      + ["Octal: " + r.octal]
  }
}
