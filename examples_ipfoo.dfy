/**
 * What `parse_input` and `convert_ipv4` make of particular inputs, each
 * derived from the general rule lemmas.
 */
module Examples {
  import opened Options
  import opened Text
  import opened Numerals
  import opened Addresses
  import opened Parser
  import opened ParserRules
  import opened Converter
  import opened RoundTrips

  /** Four digit groups joined by dots split back into themselves and are
      left alone by `strip()`. */
  lemma DigitGroupsFour(s: string, p0: string, p1: string, p2: string, p3: string)
    requires s == p0 + "." + p1 + "." + p2 + "." + p3
    requires IsDigits(p0) && IsDigits(p1) && IsDigits(p2) && IsDigits(p3)
    requires NoDot(p0) && NoDot(p1) && NoDot(p2) && NoDot(p3)
    ensures Split(s) == [p0, p1, p2, p3] && Strip(s) == s && DigitsAndDots(s)
  {
    var g := [p0, p1, p2, p3];
    JoinFour(g);
    SplitJoin(g);
    assert forall k :: 0 <= k < 4 ==> IsDigits(g[k]);
    JoinDigits(g);
    StripDigitsAndDots(s);
  }

  /** Rule 1 on a stripped text of four short digit groups. */
  lemma ShortGroupsPassThrough(s: string, p0: string, p1: string, p2: string, p3: string)
    requires Split(s) == [p0, p1, p2, p3] && Strip(s) == s
    requires ShortDigits(p0) && ShortDigits(p1) && ShortDigits(p2) && ShortDigits(p3)
    ensures Parse(s) == Ok(s)
  {
    ShortShape(s, p0, p1, p2, p3);
    StandardPassThrough(s);
  }

  lemma ShortShape(s: string, p0: string, p1: string, p2: string, p3: string)
    requires Split(s) == [p0, p1, p2, p3]
    requires ShortDigits(p0) && ShortDigits(p1) && ShortDigits(p2) && ShortDigits(p3)
    ensures StandardShape(s)
  {
    var g := [p0, p1, p2, p3];
    forall k | 0 <= k < 4
      ensures ShortDigits(g[k])
    {
    }
  }

  /** One to three digits, as rule 1 takes them. */
  predicate ShortDigits(p: string) {
    1 <= |p| <= 3 && IsDigits(p)
  }

  /** The address 10.0.0.1, as a 32-bit value and as text. */
  lemma TenZeroZeroOne()
    ensures Dotted(FromInt(167772161)) == "10.0.0.1"
  {
    assert FromInt(167772161) == Address(10, 0, 0, 1);
    DottedText(Address(10, 0, 0, 1));
  }

  lemma Split999(s: string)
    requires s == "999.1.1.1"
    ensures Split(s) == ["999", "1", "1", "1"] && Strip(s) == s
  {
    assert s == "999" + "." + "1" + "." + "1" + "." + "1";
    DigitGroupsFour(s, "999", "1", "1", "1");
  }

  /** An out-of-range group passes rule 1 unchanged ... */
  lemma OutOfRangePassThrough(s: string)
    requires s == "999.1.1.1"
    ensures Parse(s) == Ok(s)
  {
    Split999(s);
    ShortGroupsPassThrough(s, "999", "1", "1", "1");
  }

  /** ... and is then rejected by `convert_ipv4`. */
  lemma OutOfRangeRejected(s: string)
    requires s == "999.1.1.1"
    ensures Convert(s) == InvalidAddress(s)
  {
    Split999(s);
    NotAnOctet(Split(s)[0]);
    ConvertRejectsOutOfRange(s);
  }

  /** "999" exceeds 255. */
  lemma NotAnOctet(g: string)
    requires g == "999"
    ensures !StrictOctetText(g)
  {
    var one, two := g[..1], g[..2];
    assert one[..0] == [] && ValueIn(one, 10) == 9;
    assert two[..1] == one && ValueIn(two, 10) == 99;
    assert ValueIn(g, 10) == 999;
  }

  /** A leading-zero group of at most three digits passes rule 1 unchanged;
      the octal rule never sees it. */
  lemma LeadingZeroPassThrough(s: string)
    requires s == "010.2.3.4"
    ensures Parse(s) == Ok(s)
  {
    assert s == "010" + "." + "2" + "." + "3" + "." + "4";
    DigitGroupsFour(s, "010", "2", "3", "4");
    ShortGroupsPassThrough(s, "010", "2", "3", "4");
  }

  /** Rule 2 on the decimal text of a number. */
  lemma NumeralReading(n: nat)
    ensures Parse(Decimal(n)) == FromInteger(n)
  {
    StripDigitsAndDots(Decimal(n));
    NumeralRule(Decimal(n));
    IntOfDecimal(n);
  }

  lemma Literal167772161(s: string)
    requires s == "167772161"
    ensures s == Decimal(167772161)
  {
  }

  /** Rule 2: "167772161" is 10.0.0.1. */
  lemma DecimalExample(s: string)
    requires s == "167772161"
    ensures Parse(s) == Ok("10.0.0.1")
  {
    var n := 167772161;
    Literal167772161(s);
    NumeralReading(n);
    TenZeroZeroOne();
  }

  lemma LiteralHex(s: string)
    requires s == "0x0a000001"
    ensures s == "0x" + Hex8(167772161)
  {
    assert Render(167772161, 16) == "a000001";
  }

  /** Rule 3: "0x0a000001" is 10.0.0.1. */
  lemma HexExample(s: string)
    requires s == "0x0a000001"
    ensures Parse(s) == Ok("10.0.0.1")
  {
    var n := 167772161;
    LiteralHex(s);
    HexTextParses(n);
    TenZeroZeroOne();
  }

  lemma LiteralOverflow(s: string)
    requires s == "10.0.256"
    ensures s == Decimal(10) + "." + Decimal(0) + "." + Decimal(256)
    ensures "10.0.1.0" == Decimal(10) + "." + Decimal(0) + "." + Decimal(1) + "." + Decimal(0)
  {
  }

  /** Rule 5: "10.0.256" is 10.0.1.0. */
  lemma OverflowExample(s: string)
    requires s == "10.0.256"
    ensures Parse(s) == Ok("10.0.1.0")
  {
    LiteralOverflow(s);
    OverflowBySplit(10, 0, 256);
  }

  lemma LiteralTwoGroups(s: string)
    requires s == "10.5"
    ensures s == Decimal(10) + "." + Decimal(5)
    ensures Dotted(Address(10, 0, 0, 5)) == "10.0.0.5"
  {
    DottedText(Address(10, 0, 0, 5));
  }

  /** Rule 6: "10.5" is 10.0.0.5. */
  lemma TwoGroupExample(s: string)
    requires s == "10.5"
    ensures Parse(s) == Ok("10.0.0.5")
  {
    LiteralTwoGroups(s);
    TwoGroupReading(10, 5);
  }

  lemma LiteralThreeGroups(s: string)
    requires s == "10.5.3"
    ensures s == Decimal(10) + "." + Decimal(5) + "." + Decimal(3)
    ensures Dotted(Address(10, 5, 0, 3)) == "10.5.0.3"
  {
    DottedText(Address(10, 5, 0, 3));
  }

  /** Rule 6: "10.5.3" is 10.5.0.3. */
  lemma ThreeGroupExample(s: string)
    requires s == "10.5.3"
    ensures Parse(s) == Ok("10.5.0.3")
  {
    LiteralThreeGroups(s);
    ThreeGroupReading(10, 5, 3);
  }

  /** Two decimal texts the padding rule refuses are left unchanged by the
      octal rule. */
  lemma TwoGroupFallThrough(x: nat, y: nat)
    requires x > 255 || y > 255
    ensures Parse(Decimal(x) + "." + Decimal(y)) == Ok(Decimal(x) + "." + Decimal(y))
  {
    IntOfDecimal(x);
    IntOfDecimal(y);
    NumeralsFallThrough(Decimal(x), Decimal(y));
  }

  /** Two numerals without leading zeros, one of them above 255, come back
      unchanged from the octal rule. */
  lemma NumeralsFallThrough(p: string, q: string)
    requires IsNumeral(p) && IsNumeral(q) && NoDot(p) && NoDot(q)
    requires !LeadingZero(p) && !LeadingZero(q)
    requires IntOf(p) > 255 || IntOf(q) > 255
    ensures Parse(p + "." + q) == Ok(p + "." + q)
  {
    var g := [p, q];
    NumeralsTwo(p, q);
    PaddingTwoGroups(p + "." + q);
    assert OctalGroups(g).value == g;
    JoinTwo(g);
  }

  lemma LiteralTenDot256(s: string)
    requires s == "10.256"
    ensures s == Decimal(10) + "." + Decimal(256)
  {
  }

  /** Rule 6 does not expand "10.256": the octal rule takes it and, finding
      no leading zero, returns it unchanged, for `convert_ipv4` to reject. */
  lemma TwoGroupOutOfRange(s: string)
    requires s == "10.256"
    ensures Parse(s) == Ok(s)
  {
    LiteralTenDot256(s);
    TwoGroupFallThrough(10, 256);
  }

  lemma Split0010(s: string)
    requires s == "0010.2.3.4"
    ensures Split(s) == ["0010", "2", "3", "4"] && Strip(s) == s && DigitsAndDots(s)
  {
    assert s == "0010" + "." + "2" + "." + "3" + "." + "4";
    DigitGroupsFour(s, "0010", "2", "3", "4");
  }

  lemma Octal0010()
    ensures OctalGroups(["0010", "2", "3", "4"]) == Some(["8", "2", "3", "4"])
    ensures Join(["8", "2", "3", "4"]) == "8.2.3.4"
  {
    var g := ["0010", "2", "3", "4"];
    var out := ["8", "2", "3", "4"];
    forall k | 0 <= k < 4
      ensures OctalGroup(g[k]) == Some(out[k])
    {
      if k == 0 {
        EightFrom0010(g[0]);
      }
    }
    assert OctalGroups(g).value == out;
    JoinFour(out);
  }

  /** The octal group "0010" is the decimal text "8". */
  lemma EightFrom0010(p: string)
    requires p == "0010"
    ensures OctalGroup(p) == Some("8")
  {
    var digits := "10";
    assert ValueIn(digits, 8) == 8 by {
      assert digits[..1] == "1" && digits[..1][..0] == "";
    }
    ValueZeroPrefix("00", digits, 8);
    assert "00" + digits == p;
    assert Decimal(8) == "8";
  }

  /** Rule 7 on a group too long for rule 1: "0010.2.3.4" is 8.2.3.4. */
  lemma OctalExample(s: string)
    requires s == "0010.2.3.4"
    ensures Parse(s) == Ok("8.2.3.4")
  {
    Split0010(s);
    assert !StandardShape(s) by {
      assert |Split(s)[0]| == 4;
    }
    OctalRuleReached(s);
    Octal0010();
  }

  /** Rule 7 finds nothing in "0009.1.1.1": its leading-zero group holds a 9. */
  lemma OctalNoMatch(s: string)
    requires s == "0009.1.1.1"
    ensures Parse(s) == NoMatch
  {
    var g := ["0009", "1", "1", "1"];
    assert s == "0009" + "." + "1" + "." + "1" + "." + "1";
    DigitGroupsFour(s, "0009", "1", "1", "1");
    assert !StandardShape(s) by {
      assert |g[0]| == 4;
    }
    OctalRuleReached(s);
    assert LeadingZero(g[0]) && !IsDigitsIn(g[0], 8) by {
      assert DigitValue(g[0][3]) == 9;
    }
    OctalRuleFails(g);
  }
}
