/**
 * `parse_input`: an ordered list of rules, the first that applies decides,
 * turning the stripped input into a candidate dotted-quad text. The candidate
 * is not validated here; `convert_ipv4` does that.
 */
module Parser {
  import opened Options
  import opened Text
  import opened Numerals
  import opened Addresses

  /** An exception that escapes `parse_input`. */
  datatype Failure =
    | MalformedNumeral  // `int(input_str, 16)` raises ValueError
    | OutOfRange        // `ipaddress.IPv4Address(n)` raises AddressValueError for n >= 2^32

  /** A candidate text, no rule applied (`None`), or an uncaught exception. */
  datatype ParseResult = Ok(text: string) | NoMatch | Error(failure: Failure)

  /** `int(s)` for a decimal digit string. */
  function IntOf(s: string): nat
    requires IsDigits(s)
  {
    DecimalDigits(s);
    ValueIn(s, 10)
  }

  /** Rule 1's pattern `^\d{1,3}\.\d{1,3}\.\d{1,3}\.\d{1,3}$`: four groups of
      one to three digits. */
  predicate StandardShape(s: string) {
    var g := Split(s);
    |g| == 4 && forall k :: 0 <= k < 4 ==> 1 <= |g[k]| <= 3 && IsDigits(g[k])
  }

  /** Exactly `n` dot-separated groups of one or more digits: the pattern
      `^\d+\.\d+\.\d+$` of rule 5 for `n == 3`, and the pattern
      `^\d+(\.\d+){1,2}$` of rule 6 for `n` of 2 or 3. */
  predicate DigitGroups(s: string, n: nat) {
    var g := Split(s);
    |g| == n && forall k :: 0 <= k < n ==> IsNumeral(g[k])
  }

  /** `str(ipaddress.IPv4Address(n))`: the dotted quad of a 32-bit integer,
      or the exception the constructor raises for a larger one. */
  function FromInteger(n: nat): ParseResult {
    if n < Two32 then Ok(Dotted(FromInt(n))) else Error(OutOfRange)
  }

  /** Rule 3: `int(s, 16)` on a text that starts with "0x"; the text after the
      prefix must be a non-empty run of hexadecimal digits of either case. */
  function HexRule(s: string): ParseResult
    requires StartsWith(s, "0x")
  {
    var digits := s[2..];
    if |digits| > 0 && IsDigitsIn(digits, 16) then FromInteger(ValueIn(digits, 16))
    else Error(MalformedNumeral)
  }

  /** Rule 5's result `f"{a}.{b}.{c}.{d}"` with `c, d = divmod(combined, 256)`. */
  function OverflowSplit(a: nat, b: nat, combined: nat): string {
    Join([Decimal(a), Decimal(b), Decimal(combined / 256), Decimal(combined % 256)])
  }

  /** The octal loop's test `part.startswith('0') and len(part) > 1`. */
  predicate LeadingZero(part: string) {
    |part| > 1 && part[0] == '0'
  }

  /** One step of the octal loop: a leading-zero group becomes
      `str(int(part, 8))`, `None` where `int` raises ValueError; any other
      group is kept. */
  function OctalGroup(part: string): Option<string> {
    if LeadingZero(part) then
      if IsDigitsIn(part, 8) then Some(Decimal(ValueIn(part, 8))) else None
    else
      Some(part)
  }

  /** The whole octal loop: every group rewritten on its own, the count of
      groups kept, and no result at all when any group fails. */
  function OctalGroups(parts: seq<string>): (r: Option<seq<string>>)
    ensures r.Some? <==> forall k :: 0 <= k < |parts| ==> OctalGroup(parts[k]).Some?
    ensures r.Some? ==> |r.value| == |parts|
    ensures r.Some? ==> forall k :: 0 <= k < |parts| ==> r.value[k] == OctalGroup(parts[k]).value
    decreases |parts|
  {
    if |parts| == 0 then Some([])
    else
      match (OctalGroup(parts[0]), OctalGroups(parts[1..]))
      case (Some(first), Some(rest)) => Some([first] + rest)
      case _ => None
  }

  /** Rule 7's outcome once its test passed: the rewritten groups joined by
      dots, or no match when the ValueError was caught. */
  function OctalRule(parts: seq<string>): ParseResult {
    match OctalGroups(parts)
    case Some(groups) => Ok(Join(groups))
    case None => NoMatch
  }

  /** `parse_input(raw)`. */
  function Parse(raw: string): ParseResult {
    var s := Strip(raw);
    var g := Split(s);
    if StandardShape(s) then Ok(s)
    else if IsNumeral(s) then FromInteger(IntOf(s))
    else if StartsWith(s, "0x") then HexRule(s)
    else if StartsWith(s, "::ffff:") then Ok(s[7..])
    else if DigitGroups(s, 3) && IntOf(g[2]) > 255 then
      Ok(OverflowSplit(IntOf(g[0]), IntOf(g[1]), IntOf(g[2])))
    else if DigitGroups(s, 2) && IntOf(g[0]) <= 255 && IntOf(g[1]) <= 255 then
      Ok(g[0] + ".0.0." + g[1])
    else if DigitGroups(s, 3) && IntOf(g[0]) <= 255 && IntOf(g[1]) <= 255 && IntOf(g[2]) <= 255 then
      Ok(g[0] + "." + g[1] + ".0." + g[2])
    else if DigitsAndDots(s) then OctalRule(g)
    else NoMatch
  }

  /** The octal loop as written: walk the groups, append each converted group,
      and give up on the first group that `int(part, 8)` refuses. */
  method RewriteOctalGroups(parts: seq<string>) returns (r: Option<seq<string>>)
    ensures r == OctalGroups(parts)
  {
    var decimalParts: seq<string> := [];
    var i := 0;
    while i < |parts|
      invariant 0 <= i <= |parts|
      invariant |decimalParts| == i
      invariant forall k :: 0 <= k < i ==> OctalGroup(parts[k]).Some? && decimalParts[k] == OctalGroup(parts[k]).value
    {
      var part := parts[i];
      if |part| > 1 && part[0] == '0' {
        if !IsDigitsIn(part, 8) {
          return None;
        }
        decimalParts := decimalParts + [Decimal(ValueIn(part, 8))];
      } else {
        decimalParts := decimalParts + [part];
      }
      i := i + 1;
    }
    assert OctalGroups(parts).Some?;
    assert decimalParts == OctalGroups(parts).value;
    r := Some(decimalParts);
  }

  /** `parse_input` as a procedure: the same rule order, with rule 7 run as
      the loop above. */
  method ParseInput(raw: string) returns (r: ParseResult)
    ensures r == Parse(raw)
  {
    var s := Strip(raw);
    var g := Split(s);
    if StandardShape(s) {
      return Ok(s);
    }
    if IsNumeral(s) {
      return FromInteger(IntOf(s));
    }
    if StartsWith(s, "0x") {
      return HexRule(s);
    }
    if StartsWith(s, "::ffff:") {
      return Ok(s[7..]);
    }
    if DigitGroups(s, 3) && IntOf(g[2]) > 255 {
      return Ok(OverflowSplit(IntOf(g[0]), IntOf(g[1]), IntOf(g[2])));
    }
    if DigitGroups(s, 2) || DigitGroups(s, 3) {
      if |g| == 2 && IntOf(g[0]) <= 255 && IntOf(g[1]) <= 255 {
        return Ok(g[0] + ".0.0." + g[1]);
      } else if |g| == 3 && IntOf(g[0]) <= 255 && IntOf(g[1]) <= 255 && IntOf(g[2]) <= 255 {
        return Ok(g[0] + "." + g[1] + ".0." + g[2]);
      }
    }
    if DigitsAndDots(s) {
      var groups := RewriteOctalGroups(g);
      if groups.Some? {
        return Ok(Join(groups.value));
      }
    }
    return NoMatch;
  }
}
