/**
 * What `convert_ipv4` promises about the texts it derives, and what
 * `parse_input` makes of each of them again.
 */
module RoundTrips {
  import opened Options
  import opened Text
  import opened Numerals
  import opened Addresses
  import opened Parser
  import opened ParserRules
  import opened Converter

  /** A text of digits and dots is left alone by `strip()`. */
  lemma StripDigitsAndDots(s: string)
    requires DigitsAndDots(s)
    ensures Strip(s) == s
  {
    if |s| > 0 {
      assert !IsSpace(s[0]) && !IsSpace(s[|s| - 1]);
    }
  }

  lemma DecimalZero()
    ensures Decimal(0) == "0"
  {
    assert Render(0, 10) == [DigitChar(0)];
  }

  /** For an octet, `int(str(x)) == x`. */
  lemma IntOfDecimal(x: nat)
    ensures IntOf(Decimal(x)) == x
  {
    ValueOfRender(x, 10);
  }

  /** `str(ip)` written out. */
  lemma DottedText(a: Address)
    ensures Dotted(a) == Decimal(a.o0) + "." + Decimal(a.o1) + "." + Decimal(a.o2) + "." + Decimal(a.o3)
  {
    JoinFour(DecimalTexts(a.Octets()));
  }

  /** `str(ip)` splits back into its four decimal texts and is left alone by
      `strip()`. */
  lemma DottedFacts(a: Address)
    ensures Split(Dotted(a)) == DecimalTexts(a.Octets())
    ensures DigitsAndDots(Dotted(a)) && Strip(Dotted(a)) == Dotted(a)
  {
    SplitDotted(a);
    var ts := DecimalTexts(a.Octets());
    assert forall k :: 0 <= k < 4 ==> IsDigits(ts[k]);
    JoinDigits(ts);
    var s := Dotted(a);
    DottedText(a);
    assert s[0] == Decimal(a.o0)[0] && IsDigit(s[0]) && IsDigit(s[|s| - 1]);
    StripDigitsAndDots(s);
  }

  /** Three numerals joined by dots form three digit groups. */
  lemma NumeralsThree(p: string, q: string, r: string)
    requires IsNumeral(p) && IsNumeral(q) && IsNumeral(r)
    requires NoDot(p) && NoDot(q) && NoDot(r)
    ensures var t := p + "." + q + "." + r;
            Split(t) == [p, q, r] && DigitGroups(t, 3) && Strip(t) == t
  {
    var ts, t := [p, q, r], p + "." + q + "." + r;
    JoinThree(ts);
    SplitJoin(ts);
    assert Split(t) == ts;
    JoinDigits(ts);
    StripDigitsAndDots(t);
    assert DigitGroups(t, 3) by {
      assert forall k :: 0 <= k < 3 ==> IsNumeral(ts[k]);
    }
  }

  /** Three decimal texts joined by dots form three digit groups. */
  lemma ThreeGroups(x: nat, y: nat, z: nat)
    ensures var t := Decimal(x) + "." + Decimal(y) + "." + Decimal(z);
            Split(t) == [Decimal(x), Decimal(y), Decimal(z)] &&
            DigitGroups(t, 3) && Strip(t) == t
  {
    NumeralsThree(Decimal(x), Decimal(y), Decimal(z));
  }

  /** Two decimal texts joined by a dot form two digit groups. */
  lemma TwoGroups(x: nat, y: nat)
    ensures var t := Decimal(x) + "." + Decimal(y);
            Split(t) == [Decimal(x), Decimal(y)] && DigitGroups(t, 2) && Strip(t) == t
  {
    NumeralsTwo(Decimal(x), Decimal(y));
  }

  /** Two numerals joined by a dot form two digit groups. */
  lemma NumeralsTwo(p: string, q: string)
    requires IsNumeral(p) && IsNumeral(q) && NoDot(p) && NoDot(q)
    ensures var t := p + "." + q;
            Split(t) == [p, q] && DigitGroups(t, 2) && Strip(t) == t
  {
    var ts, t := [p, q], p + "." + q;
    JoinTwo(ts);
    SplitJoin(ts);
    assert Split(t) == ts;
    JoinDigits(ts);
    StripDigitsAndDots(t);
    assert DigitGroups(t, 2) by {
      assert forall k :: 0 <= k < 2 ==> IsNumeral(ts[k]);
    }
  }

  /** `convert_ipv4` reports an error, naming its input, exactly when the
      input is not `str()` of any IPv4 address; nothing else is emitted then. */
  lemma ConvertAccepts(s: string)
    ensures Convert(s).Converted? <==> exists a :: s == Dotted(a)
    ensures Convert(s).InvalidAddress? ==> Convert(s) == InvalidAddress(s)
  {
    match ParseAddress(s)
    case Some(a) =>
      ParseAddressIff(s, a);
    case None =>
      if exists a :: s == Dotted(a) {
        var a :| s == Dotted(a);
        ParseAddressIff(s, a);
      }
  }

  /** A valid address's text converts to the representations of that address. */
  lemma ConvertValid(a: Address)
    ensures Convert(Dotted(a)) == Converted(Derive(a, Dotted(a)))
  {
    ParseAddressIff(Dotted(a), a);
  }

  /** Out-of-range and leading-zero groups passed through by rule 1 are
      rejected at conversion, not wrapped around. */
  lemma ConvertRejectsOutOfRange(s: string)
    requires var g := Split(s); |g| == 4 && exists k :: 0 <= k < 4 && !StrictOctetText(g[k])
    ensures Convert(s) == InvalidAddress(s)
  {
  }

  /** The standard, decimal, hexadecimal and IPv6-mapped texts of a valid
      address: the input itself, the big-endian 32-bit value in decimal, the
      same value as "0x" and eight lower-case hexadecimal digits, and the
      input behind "::ffff:". */
  lemma ConvertFields(a: Address)
    ensures Convert(Dotted(a)).Converted?
    ensures var r := Convert(Dotted(a)).reps;
            r.standard == Dotted(a) &&
            IsNumeral(r.decimal) && IsCanonical(r.decimal) &&
            IntOf(r.decimal) == a.o0 * 0x100_0000 + a.o1 * 0x1_0000 + a.o2 * 0x100 + a.o3 &&
            IntOf(r.decimal) < Two32 &&
            |r.hex| == 10 && r.hex[..2] == "0x" && IsLowerHex(r.hex[2..]) &&
            IsDigitsIn(r.hex[2..], 16) && ValueIn(r.hex[2..], 16) == IntOf(r.decimal) &&
            r.mapped == "::ffff:" + Dotted(a)
  {
    ConvertValid(a);
    var n := ToInt(a);
    IntOfDecimal(n);
    var r := Derive(a, Dotted(a));
    assert r.hex[2..] == Hex8(n);
  }

  /** The truncated text is printed exactly when the last octet is zero, and
      then it is the decimal texts of the octets up to the last non-zero one
      (at least one octet), joined by dots. */
  lemma TruncatedShown(a: Address)
    ensures Convert(Dotted(a)).Converted?
    ensures var r := Convert(Dotted(a)).reps;
            (r.truncated.Some? <==> a.o3 == 0) &&
            (r.truncated.Some? ==> r.truncated.value == TruncatedText(a.Octets()))
  {
    ConvertValid(a);
    TruncatedDiffers(a);
  }

  /** The truncated display differs from the standard text exactly when the
      last octet is zero. */
  lemma TruncatedDiffers(a: Address)
    ensures TruncatedText(a.Octets()) != Dotted(a) <==> a.o3 == 0
  {
    var os := a.Octets();
    var k := TruncLen(os);
    var prefix := DecimalTexts(os[..k]);
    if a.o3 != 0 {
      assert k == 4;
      assert os[..k] == os;
    } else {
      assert k < 4 by {
        assert AllZero(os[3..]);
      }
      forall j | 0 <= j < |prefix|
        ensures NoDot(prefix[j])
      {
      }
      SplitJoin(prefix);
      SplitDotted(a);
      assert |Split(TruncatedText(os))| == k;
    }
  }

  /** "0.0.0.0" truncates to the single octet "0". */
  lemma TruncatedAllZero()
    ensures Convert("0.0.0.0").Converted?
    ensures Convert("0.0.0.0").reps.truncated == Some("0")
  {
    var a := Address(0, 0, 0, 0);
    AllZeroText();
    TruncatedShown(a);
    TruncLenOfFour(a.Octets());
    TruncatedTextOfFour(a.Octets());
    DecimalZero();
  }

  /** The text of the all-zero address. */
  lemma AllZeroText()
    ensures Dotted(Address(0, 0, 0, 0)) == "0.0.0.0"
  {
    DecimalZero();
    DottedText(Address(0, 0, 0, 0));
  }

  /** The integer overflow text is printed exactly when the last two octets
      are not both zero, and it names the first two octets and the combined
      value `o2 * 256 + o3`. */
  lemma OverflowShown(a: Address)
    ensures Convert(Dotted(a)).Converted?
    ensures var r := Convert(Dotted(a)).reps;
            (r.overflow.Some? <==> a.o2 >= 1 || a.o3 >= 1) &&
            (r.overflow.Some? ==>
               Split(r.overflow.value) == [Decimal(a.o0), Decimal(a.o1), Decimal(a.o2 * 256 + a.o3)])
  {
    ConvertValid(a);
    ThreeGroups(a.o0, a.o1, a.o2 * 256 + a.o3);
  }

  /** The report of a valid address has the five fixed lines, a truncated
      line exactly when the last octet is zero, and an overflow line exactly
      when the last two octets are not both zero; the report of any other
      text is the single error line. */
  lemma ReportLines(s: string)
    ensures Convert(s).InvalidAddress? ==> Report(Convert(s)) == ["Error: Invalid IPv4 address '" + s + "'"]
    ensures forall a :: s == Dotted(a) ==>
              |Report(Convert(s))| == 5 + (if a.o3 == 0 then 1 else 0) + (if a.o2 >= 1 || a.o3 >= 1 then 1 else 0)
  {
    ConvertAccepts(s);
    forall a | s == Dotted(a)
      ensures |Report(Convert(s))| == 5 + (if a.o3 == 0 then 1 else 0) + (if a.o2 >= 1 || a.o3 >= 1 then 1 else 0)
    {
      TruncatedShown(a);
      OverflowShown(a);
    }
  }

  /** Rule 1 gives back the standard text of a valid address unchanged. */
  lemma StandardRoundTrip(a: Address)
    ensures Convert(Dotted(a)).Converted?
    ensures Parse(Convert(Dotted(a)).reps.standard) == Ok(Dotted(a))
  {
    ConvertFields(a);
    DottedFacts(a);
    OctetText(a.o0);
    OctetText(a.o1);
    OctetText(a.o2);
    OctetText(a.o3);
    assert StandardShape(Dotted(a));
  }

  /** Rule 2 reads the 32-bit decimal text back to the same address. */
  lemma DecimalRoundTrip(a: Address)
    ensures Convert(Dotted(a)).Converted?
    ensures Parse(Convert(Dotted(a)).reps.decimal) == Ok(Dotted(a))
  {
    ConvertFields(a);
    var d := Convert(Dotted(a)).reps.decimal;
    assert DigitsAndDots(d);
    StripDigitsAndDots(d);
    NumeralRule(d);
    FromIntToInt(a);
  }

  /** Rule 3 reads the "0x" text back to the same address. */
  lemma HexRoundTrip(a: Address)
    ensures Convert(Dotted(a)).Converted?
    ensures Parse(Convert(Dotted(a)).reps.hex) == Ok(Dotted(a))
  {
    ConvertValid(a);
    HexTextParses(ToInt(a));
    FromIntToInt(a);
  }

  /** Rule 3 on "0x" and the eight hexadecimal digits of a 32-bit value. */
  lemma HexTextParses(n: nat)
    requires n < Two32
    ensures Parse("0x" + Hex8(n)) == Ok(Dotted(FromInt(n)))
  {
    var digits := Hex8(n);
    var h := "0x" + digits;
    assert !IsSpace(h[|h| - 1]) by {
      assert h[|h| - 1] == digits[7];
    }
    assert Strip(h) == h;
    assert StartsWith(h, "0x") && h[2..] == digits;
    HexRuleResult(h);
  }

  /** Rule 4 strips "::ffff:" from the IPv6-mapped text and gives back the
      standard text. */
  lemma MappedRoundTrip(a: Address)
    ensures Convert(Dotted(a)).Converted?
    ensures Parse(Convert(Dotted(a)).reps.mapped) == Ok(Dotted(a))
  {
    ConvertValid(a);
    DottedFacts(a);
    MappedTextParses(Dotted(a));
  }

  /** Rule 4 on "::ffff:" in front of a text of digits and dots. */
  lemma MappedTextParses(s: string)
    requires DigitsAndDots(s)
    ensures Parse("::ffff:" + s) == Ok(s)
  {
    var m := "::ffff:" + s;
    assert !IsSpace(m[0]) && !IsSpace(m[|m| - 1]);
    assert Strip(m) == m;
    assert StartsWith(m, "::ffff:") by {
      assert m[..7] == "::ffff:";
    }
    MappedRule(m);
    assert m[7..] == s;
  }

  /** The integer overflow text parses back to the same address: through
      rule 5 when the third octet is not zero, through rule 6 when it is. */
  lemma OverflowRoundTrip(a: Address)
    requires a.o2 >= 1 || a.o3 >= 1
    ensures Convert(Dotted(a)).Converted?
    ensures Convert(Dotted(a)).reps.overflow.Some?
    ensures Parse(Convert(Dotted(a)).reps.overflow.value) == Ok(Dotted(a))
  {
    ConvertValid(a);
    OverflowTextParses(a);
  }

  lemma OverflowTextParses(a: Address)
    requires a.o2 >= 1 || a.o3 >= 1
    ensures OverflowText(a).Some? && Parse(OverflowText(a).value) == Ok(Dotted(a))
  {
    var c := a.o2 * 256 + a.o3;
    var t := Decimal(a.o0) + "." + Decimal(a.o1) + "." + Decimal(c);
    assert OverflowText(a) == Some(t);
    DottedText(a);
    if a.o2 >= 1 {
      OverflowBySplit(a.o0, a.o1, c);
      assert c / 256 == a.o2 && c % 256 == a.o3;
      assert Parse(t) == Ok(Decimal(a.o0) + "." + Decimal(a.o1) + "." + Decimal(a.o2) + "." + Decimal(a.o3));
    } else {
      OverflowByPadding(a.o0, a.o1, a.o3);
      assert c == a.o3;
      assert Parse(t) == Ok(Decimal(a.o0) + "." + Decimal(a.o1) + "." + Decimal(a.o2) + "." + Decimal(a.o3));
    }
  }

  /** Rule 5 on three decimal texts whose last value exceeds 255. */
  lemma OverflowBySplit(x: nat, y: nat, c: nat)
    requires c > 255
    ensures var t := Decimal(x) + "." + Decimal(y) + "." + Decimal(c);
            Parse(t) == Ok(Decimal(x) + "." + Decimal(y) + "." + Decimal(c / 256) + "." + Decimal(c % 256))
  {
    ThreeGroups(x, y, c);
    IntOfDecimal(x);
    IntOfDecimal(y);
    IntOfDecimal(c);
    OverflowRule(Decimal(x) + "." + Decimal(y) + "." + Decimal(c));
  }

  /** Rule 6 on three decimal texts of octets. */
  lemma OverflowByPadding(x: Octet, y: Octet, z: Octet)
    ensures var t := Decimal(x) + "." + Decimal(y) + "." + Decimal(z);
            Parse(t) == Ok(Decimal(x) + "." + Decimal(y) + "." + Decimal(0) + "." + Decimal(z))
  {
    var p, q, r := Decimal(x), Decimal(y), Decimal(z);
    IntOfDecimal(x);
    IntOfDecimal(y);
    IntOfDecimal(z);
    PaddedThree(p, q, r);
    DecimalZero();
    ZeroGroup(p, q, r);
  }

  /** Rule 6 on three numerals of at most 255. */
  lemma PaddedThree(p: string, q: string, r: string)
    requires IsNumeral(p) && IsNumeral(q) && IsNumeral(r)
    requires NoDot(p) && NoDot(q) && NoDot(r)
    requires IntOf(p) <= 255 && IntOf(q) <= 255 && IntOf(r) <= 255
    ensures Parse(p + "." + q + "." + r) == Ok(p + "." + q + ".0." + r)
  {
    NumeralsThree(p, q, r);
    PaddingThreeGroups(p + "." + q + "." + r);
  }

  lemma ZeroGroup(p: string, q: string, r: string)
    ensures p + "." + q + "." + "0" + "." + r == p + "." + q + ".0." + r
  {
  }

  /** The octal text of an octet below 8 is its decimal text. */
  lemma SmallOctalIsDecimal(x: Octet)
    requires x < 8
    ensures OctalText(x) == Decimal(x)
  {
  }

  /** The length of an octet's octal text: one digit below 8, a '0' and two
      digits below 64, a '0' and three digits from 64 on. */
  lemma OctalTextLength(x: Octet)
    ensures x < 8 ==> |OctalText(x)| == 1
    ensures 8 <= x < 64 ==> |OctalText(x)| == 3
    ensures 64 <= x ==> |OctalText(x)| == 4
  {
    assert Pow(8, 1) == 8 && Pow(8, 2) == 64 && Pow(8, 3) == 512;
    RenderLength(x, 8, 1);
    RenderLength(x, 8, 2);
    RenderLength(x, 8, 3);
  }

  /** The octal display has one group per octet; a group carries a leading
      '0' exactly when its octet is 8 or more, and reads back in base 8 as the
      octet. */
  lemma OctalShape(a: Address)
    ensures Convert(Dotted(a)).Converted?
    ensures var g := Split(Convert(Dotted(a)).reps.octal);
            |g| == 4 &&
            forall k :: 0 <= k < 4 ==>
              (LeadingZero(g[k]) <==> a.Octets()[k] >= 8) &&
              IsDigitsIn(g[k], 8) && ValueIn(g[k], 8) == a.Octets()[k]
  {
    ConvertValid(a);
    OctalGroupsShape(a.Octets());
  }

  /** The octal texts of four octets, joined and split again. */
  lemma OctalGroupsShape(os: seq<Octet>)
    requires |os| == 4
    ensures var g := Split(Join(OctalTexts(os)));
            |g| == 4 &&
            forall k :: 0 <= k < 4 ==>
              (LeadingZero(g[k]) <==> os[k] >= 8) &&
              IsDigitsIn(g[k], 8) && ValueIn(g[k], 8) == os[k]
  {
    OctalSplit(os);
  }

  /** The octal texts joined by dots split back into themselves. */
  lemma OctalSplit(os: seq<Octet>)
    requires |os| >= 1
    ensures Split(Join(OctalTexts(os))) == OctalTexts(os)
  {
    var ts := OctalTexts(os);
    forall k | 0 <= k < |ts|
      ensures NoDot(ts[k])
    {
    }
    SplitJoin(ts);
  }

  /** The octal display equals the standard text exactly when every octet is
      below 8. */
  lemma OctalEqualsStandard(a: Address)
    ensures Convert(Dotted(a)).Converted?
    ensures Convert(Dotted(a)).reps.octal == Dotted(a) <==>
            forall k :: 0 <= k < 4 ==> a.Octets()[k] < 8
  {
    ConvertValid(a);
    OctalJoinIsDecimal(a.Octets());
  }

  /** The octal texts and the decimal texts, each joined by dots, agree
      exactly when every octet is below 8. */
  lemma OctalJoinIsDecimal(os: seq<Octet>)
    requires |os| >= 1
    ensures Join(OctalTexts(os)) == Join(DecimalTexts(os)) <==>
            forall k :: 0 <= k < |os| ==> os[k] < 8
  {
    var ot := OctalTexts(os);
    var dt := DecimalTexts(os);
    if forall k :: 0 <= k < |os| ==> os[k] < 8 {
      forall k | 0 <= k < |os|
        ensures ot[k] == dt[k]
      {
        SmallOctalIsDecimal(os[k]);
      }
      assert ot == dt;
    } else {
      var k :| 0 <= k < |os| && os[k] >= 8;
      assert LeadingZero(ot[k]);
      assert !LeadingZero(dt[k]);
      OctalSplit(os);
      forall j | 0 <= j < |dt|
        ensures NoDot(dt[j])
      {
      }
      SplitJoin(dt);
      assert ot != dt;
    }
  }

  /** Rule 7 turns an octet's octal text into its decimal text. */
  lemma OctalGroupOfOctalText(x: Octet)
    ensures OctalGroup(OctalText(x)) == Some(Decimal(x))
  {
    if x < 8 {
      SmallOctalIsDecimal(x);
      assert !LeadingZero(Decimal(x));
    }
  }

  /** Rule 7's rewrite turns every octal text back into the decimal text. */
  lemma OctalGroupsOfOctalTexts(os: seq<Octet>)
    ensures OctalGroups(OctalTexts(os)) == Some(DecimalTexts(os))
  {
    var ot := OctalTexts(os);
    forall k | 0 <= k < |os|
      ensures OctalGroup(ot[k]) == Some(DecimalTexts(os)[k])
    {
      OctalGroupOfOctalText(os[k]);
    }
    assert OctalGroups(ot).Some?;
    assert OctalGroups(ot).value == DecimalTexts(os);
  }

  /** The octal display parses back only through rule 7, and rule 7 is
      reached only when some octet is 64 or more: then its text has a
      four-character group and the octal rewrite gives back the address;
      otherwise every group has at most three digits and rule 1 returns the
      octal display verbatim. */
  lemma OctalRoundTrip(a: Address)
    ensures Convert(Dotted(a)).Converted?
    ensures var t := Convert(Dotted(a)).reps.octal;
            Parse(t) == if exists k :: 0 <= k < 4 && a.Octets()[k] >= 64 then Ok(Dotted(a)) else Ok(t)
  {
    ConvertValid(a);
    var os := a.Octets();
    if exists k :: 0 <= k < 4 && os[k] >= 64 {
      var k :| 0 <= k < 4 && os[k] >= 64;
      OctalRewrite(os, k);
    } else {
      OctalPassThrough(os);
    }
  }

  /** The octal texts joined by dots are digits and dots. */
  lemma OctalDigitsAndDots(os: seq<Octet>)
    ensures DigitsAndDots(Join(OctalTexts(os)))
    ensures Strip(Join(OctalTexts(os))) == Join(OctalTexts(os))
  {
    var ot := OctalTexts(os);
    assert forall k :: 0 <= k < |ot| ==> IsDigits(ot[k]);
    JoinDigits(ot);
    StripDigitsAndDots(Join(ot));
  }

  /** Four octal texts with a four-character group reach rule 7, which
      rewrites them into the decimal texts. */
  lemma OctalRewrite(os: seq<Octet>, k: nat)
    requires |os| == 4 && k < 4 && os[k] >= 64
    ensures Parse(Join(OctalTexts(os))) == Ok(Join(DecimalTexts(os)))
  {
    var ot := OctalTexts(os);
    var t := Join(ot);
    OctalSplit(os);
    OctalDigitsAndDots(os);
    OctalTextLength(os[k]);
    assert !StandardShape(t) by {
      assert |Split(t)[k]| == 4;
    }
    if IsNumeral(t) {
      NumeralIsOneGroup(t);
    }
    OctalRuleReached(t);
    OctalGroupsOfOctalTexts(os);
  }

  /** Four octal texts with no group longer than three digits are taken by
      rule 1 as they are. */
  lemma OctalPassThrough(os: seq<Octet>)
    requires |os| == 4 && forall k :: 0 <= k < 4 ==> os[k] < 64
    ensures Parse(Join(OctalTexts(os))) == Ok(Join(OctalTexts(os)))
  {
    var ot := OctalTexts(os);
    OctalSplit(os);
    OctalDigitsAndDots(os);
    forall k | 0 <= k < 4
      ensures 1 <= |ot[k]| <= 3
    {
      OctalTextLength(os[k]);
    }
    StandardPassThrough(Join(ot));
  }

  /** The truncated display does not parse back: rules 2 and 6 read "o0",
      "o0.o1" and "o0.o1.o2" as 0.0.0.o0, o0.0.0.o1 and o0.o1.0.o2, in the
      manner of inet_aton, so only 0.0.0.0 (truncated to "0") survives the
      round trip. */
  lemma TruncatedRoundTrip(a: Address)
    requires a.o3 == 0
    ensures Convert(Dotted(a)).Converted?
    ensures Convert(Dotted(a)).reps.truncated.Some?
    ensures var t := Convert(Dotted(a)).reps.truncated.value;
            Parse(t).Ok? && (Parse(t) == Ok(Dotted(a)) <==> a == Address(0, 0, 0, 0))
  {
    TruncatedShown(a);
    var os := a.Octets();
    var b := TruncatedReading(os);
    TruncatedReads(os);
    TruncatedReadingSame(os);
    if Dotted(b) == Dotted(a) {
      DottedInjective(a, b);
    }
  }

  /** The address `parse_input` reads from the truncated display of `os`:
      the kept octets, with zeros inserted before the last kept one. */
  function TruncatedReading(os: seq<Octet>): Address
    requires |os| == 4
  {
    if os[1] == 0 && os[2] == 0 then Address(0, 0, 0, os[0])
    else if os[2] == 0 then Address(os[0], 0, 0, os[1])
    else Address(os[0], os[1], 0, os[2])
  }

  /** Rules 2 and 6 read the truncated display as `TruncatedReading`. */
  lemma TruncatedReads(os: seq<Octet>)
    requires |os| == 4 && os[3] == 0
    ensures Parse(TruncatedText(os)) == Ok(Dotted(TruncatedReading(os)))
  {
    TruncLenOfFour(os);
    var k := TruncLen(os);
    if k == 1 {
      TruncatedReadingOne(os);
    } else if k == 2 {
      TruncatedReadingTwo(os);
    } else {
      TruncatedReadingThree(os);
    }
  }

  /** The reading gives back the octets only when all of them are zero. */
  lemma TruncatedReadingSame(os: seq<Octet>)
    requires |os| == 4 && os[3] == 0
    ensures TruncatedReading(os) == Address(os[0], os[1], os[2], os[3]) <==> AllZero(os)
  {
    if AllZero(os) {
      assert os[0] == 0 && os[1] == 0 && os[2] == 0;
    }
  }

  lemma TruncatedReadingOne(os: seq<Octet>)
    requires |os| == 4 && os[3] == 0 && TruncLen(os) == 1
    ensures Parse(TruncatedText(os)) == Ok(Dotted(Address(0, 0, 0, os[0])))
  {
    TruncatedTextOfFour(os);
    OneGroupReading(os[0]);
  }

  lemma TruncatedReadingTwo(os: seq<Octet>)
    requires |os| == 4 && os[3] == 0 && TruncLen(os) == 2
    ensures Parse(TruncatedText(os)) == Ok(Dotted(Address(os[0], 0, 0, os[1])))
  {
    TruncatedTextOfFour(os);
    TwoGroupReading(os[0], os[1]);
  }

  lemma TruncatedReadingThree(os: seq<Octet>)
    requires |os| == 4 && os[3] == 0 && TruncLen(os) == 3
    ensures Parse(TruncatedText(os)) == Ok(Dotted(Address(os[0], os[1], 0, os[2])))
  {
    TruncatedTextOfFour(os);
    ThreeGroupReading(os[0], os[1], os[2]);
  }

  /** The truncated display of four octets, written out for each length. */
  lemma TruncatedTextOfFour(os: seq<Octet>)
    requires |os| == 4 && os[3] == 0
    ensures TruncLen(os) == 1 ==> TruncatedText(os) == Decimal(os[0])
    ensures TruncLen(os) == 2 ==> TruncatedText(os) == Decimal(os[0]) + "." + Decimal(os[1])
    ensures TruncLen(os) == 3 ==>
              TruncatedText(os) == Decimal(os[0]) + "." + Decimal(os[1]) + "." + Decimal(os[2])
    ensures TruncLen(os) != 4
  {
    var k := TruncLen(os);
    assert AllZero(os[3..]);
    if k == 1 {
      assert DecimalTexts(os[..1]) == [Decimal(os[0])];
    } else if k == 2 {
      JoinTwo(DecimalTexts(os[..2]));
    } else {
      JoinThree(DecimalTexts(os[..3]));
    }
  }

  /** Which octets the truncated display of four octets keeps. */
  lemma TruncLenOfFour(os: seq<Octet>)
    requires |os| == 4 && os[3] == 0
    ensures TruncLen(os) == 1 <==> os[1] == 0 && os[2] == 0
    ensures TruncLen(os) == 2 <==> os[1] != 0 && os[2] == 0
    ensures TruncLen(os) == 3 <==> os[2] != 0
  {
    var k := TruncLen(os);
    assert os[1..] == [os[1], os[2], os[3]];
    assert os[2..] == [os[2], os[3]];
    assert os[3..] == [os[3]];
    if k >= 2 {
      assert !AllZero(os[1..]);
    }
    if k == 3 {
      assert !AllZero(os[2..]);
    }
  }

  /** Rule 2 reads a lone octet as the last octet of an address. */
  lemma OneGroupReading(x: Octet)
    ensures Parse(Decimal(x)) == Ok(Dotted(Address(0, 0, 0, x)))
  {
    var t := Decimal(x);
    StripDigitsAndDots(t);
    NumeralRule(t);
    IntOfDecimal(x);
    assert FromInt(x) == Address(0, 0, 0, x);
  }

  /** Rule 6 reads two octets as the first and the last octet. */
  lemma TwoGroupReading(x: Octet, y: Octet)
    ensures Parse(Decimal(x) + "." + Decimal(y)) == Ok(Dotted(Address(x, 0, 0, y)))
  {
    var t := Decimal(x) + "." + Decimal(y);
    TwoGroups(x, y);
    IntOfDecimal(x);
    IntOfDecimal(y);
    PaddingTwoGroups(t);
    assert Parse(t) == Ok(Decimal(x) + ".0.0." + Decimal(y));
    DecimalZero();
    DottedText(Address(x, 0, 0, y));
    ZeroGroups(Decimal(x), Decimal(y));
  }

  lemma ZeroGroups(p: string, q: string)
    ensures p + "." + "0" + "." + "0" + "." + q == p + ".0.0." + q
  {
  }

  /** Rule 6 reads three octets as the first, second and last octet. */
  lemma ThreeGroupReading(x: Octet, y: Octet, z: Octet)
    ensures Parse(Decimal(x) + "." + Decimal(y) + "." + Decimal(z)) == Ok(Dotted(Address(x, y, 0, z)))
  {
    OverflowByPadding(x, y, z);
    DottedText(Address(x, y, 0, z));
  }
}
