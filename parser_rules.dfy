/**
 * What each rule of `parse_input` does to the inputs it claims, with the
 * precedence between rules made explicit.
 */
module ParserRules {
  import opened Options
  import opened Text
  import opened Numerals
  import opened Addresses
  import opened Parser

  /** Texts claimed by the dotted rules consist of digits and dots only, so
      neither the "0x" nor the "::ffff:" rule can see them. */
  lemma DottedShapesAreDigits(s: string)
    requires StandardShape(s) || DigitGroups(s, 2) || DigitGroups(s, 3)
    ensures DigitsAndDots(s)
    ensures !StartsWith(s, "0x") && !StartsWith(s, "::ffff:")
  {
    var g := Split(s);
    assert forall k :: 0 <= k < |g| ==> IsDigits(g[k]);
    JoinDigits(g);
    DigitsAndDotsPrefixes(s);
  }

  /** A digit string is one group, so no dotted rule claims it. */
  lemma NumeralIsOneGroup(s: string)
    requires IsNumeral(s)
    ensures Split(s) == [s]
    ensures !StandardShape(s) && !DigitGroups(s, 2) && !DigitGroups(s, 3)
  {
    SplitNoDot(s);
  }

  /** Rule 1: four groups of one to three digits come back unchanged, whatever
      their values and leading zeros; no later rule, the octal one included,
      ever sees them. */
  lemma StandardPassThrough(raw: string)
    requires StandardShape(Strip(raw))
    ensures Parse(raw) == Ok(Strip(raw))
    ensures DigitsAndDots(Strip(raw))
  {
    DottedShapesAreDigits(Strip(raw));
  }

  /** Rule 2: an all-digit input is read as a 32-bit integer and yields its
      big-endian dotted quad; a value of 2^32 or more raises instead of
      falling through. */
  lemma NumeralRule(raw: string)
    requires IsNumeral(Strip(raw))
    ensures var n := IntOf(Strip(raw));
            Parse(raw) == if n < Two32 then Ok(Dotted(FromInt(n))) else Error(OutOfRange)
  {
    NumeralIsOneGroup(Strip(raw));
  }

  /** Rule 3: after "0x", a non-empty run of hexadecimal digits is read as a
      32-bit integer; a remainder that is not hexadecimal, and a value of 2^32
      or more, raise instead of falling through. */
  lemma HexRuleResult(raw: string)
    requires StartsWith(Strip(raw), "0x")
    ensures var d := Strip(raw)[2..];
            Parse(raw) ==
              if |d| > 0 && IsDigitsIn(d, 16) then
                if ValueIn(d, 16) < Two32 then Ok(Dotted(FromInt(ValueIn(d, 16)))) else Error(OutOfRange)
              else Error(MalformedNumeral)
  {
    var s := Strip(raw);
    if StandardShape(s) {
      DottedShapesAreDigits(s);
    }
    assert s[1] == 'x' by {
      assert s[..2][1] == s[1];
    }
  }

  /** Rule 4: the "::ffff:" prefix of an IPv4-mapped IPv6 address (section
      2.5.5.2 of RFC 4291) is stripped and the rest passed on unchecked. */
  lemma MappedRule(raw: string)
    requires StartsWith(Strip(raw), "::ffff:")
    ensures Parse(raw) == Ok(Strip(raw)[7..])
  {
    var s := Strip(raw);
    if StandardShape(s) {
      DottedShapesAreDigits(s);
    }
    assert s[0] == ':' by {
      assert s[..7][0] == s[0];
    }
  }

  /** Rule 5: three digit groups whose last exceeds 255 become four, the last
      group split by `divmod(c, 256)` and the first two rewritten as integers. */
  lemma OverflowRule(raw: string)
    requires DigitGroups(Strip(raw), 3)
    requires IntOf(Split(Strip(raw))[2]) > 255
    ensures var g := Split(Strip(raw));
            var c := IntOf(g[2]);
            Parse(raw) == Ok(Decimal(IntOf(g[0])) + "." + Decimal(IntOf(g[1])) + "." +
                             Decimal(c / 256) + "." + Decimal(c % 256))
  {
    var s := Strip(raw);
    var g := Split(s);
    DottedShapesAreDigits(s);
    var c := IntOf(g[2]);
    JoinFour([Decimal(IntOf(g[0])), Decimal(IntOf(g[1])), Decimal(c / 256), Decimal(c % 256)]);
  }

  /** Rule 6, two groups: "g1.g2" with both at most 255 becomes "g1.0.0.g2",
      the group texts copied as they are; otherwise the input is left to the
      octal rule and no group is split. */
  lemma PaddingTwoGroups(raw: string)
    requires DigitGroups(Strip(raw), 2)
    ensures var g := Split(Strip(raw));
            Parse(raw) ==
              if IntOf(g[0]) <= 255 && IntOf(g[1]) <= 255 then Ok(g[0] + ".0.0." + g[1])
              else OctalRule(g)
  {
    DottedShapesAreDigits(Strip(raw));
  }

  /** Rule 6, three groups (rule 5 having passed over them): "g1.g2.g3" with
      all at most 255 becomes "g1.g2.0.g3", the texts copied as they are;
      otherwise the input is left to the octal rule. */
  lemma PaddingThreeGroups(raw: string)
    requires DigitGroups(Strip(raw), 3)
    requires IntOf(Split(Strip(raw))[2]) <= 255
    ensures var g := Split(Strip(raw));
            Parse(raw) ==
              if IntOf(g[0]) <= 255 && IntOf(g[1]) <= 255 then Ok(g[0] + "." + g[1] + ".0." + g[2])
              else OctalRule(g)
  {
    DottedShapesAreDigits(Strip(raw));
  }

  /** Rule 7 is reached by every digits-and-dots input no earlier rule claims. */
  lemma OctalRuleReached(raw: string)
    requires DigitsAndDots(Strip(raw))
    requires !StandardShape(Strip(raw)) && !IsNumeral(Strip(raw))
    requires !DigitGroups(Strip(raw), 2) && !DigitGroups(Strip(raw), 3)
    ensures Parse(raw) == OctalRule(Split(Strip(raw)))
  {
    DigitsAndDotsPrefixes(Strip(raw));
  }

  /** Rule 7 finds nothing exactly when some leading-zero group is not an
      octal numeral (for digit groups: contains an 8 or a 9). */
  lemma OctalRuleFails(parts: seq<string>)
    ensures OctalRule(parts).NoMatch? <==>
            exists k :: 0 <= k < |parts| && LeadingZero(parts[k]) && !IsDigitsIn(parts[k], 8)
    ensures !OctalRule(parts).Error?
  {
    if OctalRule(parts).NoMatch? {
      var k :| 0 <= k < |parts| && OctalGroup(parts[k]).None?;
      assert LeadingZero(parts[k]) && !IsDigitsIn(parts[k], 8);
    }
  }

  /** Rule 7's text has as many dot-separated groups as its input; each
      leading-zero group is replaced by the decimal text of its octal value and
      every other group is kept. */
  lemma {:induction false} OctalRuleGroups(parts: seq<string>)
    requires |parts| >= 1
    requires forall k :: 0 <= k < |parts| ==> NoDot(parts[k])
    requires OctalRule(parts).Ok?
    ensures var out := Split(OctalRule(parts).text);
            |out| == |parts| &&
            forall k :: 0 <= k < |parts| ==>
              out[k] == if LeadingZero(parts[k]) then Decimal(ValueIn(parts[k], 8)) else parts[k]
  {
    var groups := OctalGroups(parts).value;
    forall k | 0 <= k < |groups|
      ensures NoDot(groups[k])
    {
      assert groups[k] == OctalGroup(parts[k]).value;
    }
    SplitJoin(groups);
  }
}
