/**
 * The command line's use of the two functions: parse the argument, and on a
 * non-empty result convert it. An empty result counts as "could not parse",
 * because the empty string is false in Python.
 */
module Pipeline {
  import opened Options
  import opened Text
  import opened Addresses
  import opened Parser
  import opened ParserRules
  import opened Converter
  import opened RoundTrips

  /** How a run ends: the "could not parse" message, an exception escaping
      `parse_input`, or the parsed text and what `convert_ipv4` made of it. */
  datatype Outcome =
    | Unparsed(input: string)
    | Raised(failure: Failure)
    | Parsed(text: string, conversion: Conversion)

  /** `parse_input` and then, when its result is a non-empty text,
      `convert_ipv4` on that text. */
  function Run(input: string): (o: Outcome)
    ensures o.Parsed? ==> o.text != "" && Parse(input) == Ok(o.text)
    ensures Parse(input).Ok? && Parse(input).text != "" ==>
              o == Parsed(Parse(input).text, Convert(Parse(input).text))
    ensures Parse(input).Error? ==> o == Raised(Parse(input).failure)
    ensures Parse(input).NoMatch? || Parse(input) == Ok("") ==> o == Unparsed(input)
  {
    match Parse(input)
    case Ok(t) => if t != "" then Parsed(t, Convert(t)) else Unparsed(input)
    case NoMatch => Unparsed(input)
    case Error(f) => Raised(f)
  }

  /** A blank argument gets through every rule up to the octal one, which
      returns the empty text; the caller then reports that it could not
      parse it. */
  lemma BlankUnparsed(input: string)
    requires forall i :: 0 <= i < |input| ==> IsSpace(input[i])
    ensures Parse(input) == Ok("")
    ensures Run(input) == Unparsed(input)
  {
    StripBlank(input);
    assert Split("") == [""] by {
      SplitNoDot("");
    }
    var r := OctalGroups([""]);
    assert OctalGroup([""][0]) == Some("");
    assert r.Some? && |r.value| == 1 && r.value[0] == "";
    assert r.value == [""];
  }

  /** A valid dotted quad is parsed as itself and converted. */
  lemma ValidRuns(a: Address)
    ensures Run(Dotted(a)) == Parsed(Dotted(a), Converted(Derive(a, Dotted(a))))
  {
    StandardRoundTrip(a);
    ConvertValid(a);
    DottedText(a);
  }

  /** Whatever rule 2 accepts, `convert_ipv4` accepts too: a 32-bit decimal
      argument always reaches the full report. */
  lemma NumeralRuns(input: string)
    requires IsNumeral(Strip(input)) && IntOf(Strip(input)) < Two32
    ensures Run(input).Parsed? && Run(input).conversion.Converted?
  {
    var a := FromInt(IntOf(Strip(input)));
    NumeralRule(input);
    ConvertValid(a);
    DottedText(a);
  }
}
