# ipfoo in Dafny

A verified model of `ipfoo.py`, a small IPv4 address converter. It has two
parts:

- `parse_input` reads an address written in one of several loose notations
  and turns it into a candidate dotted quad. The notations are a dotted quad,
  a 32-bit decimal number, a `0x` hexadecimal number, an IPv4-mapped IPv6
  address (section 2.5.5.2 of RFC 4291), an "overflow" form whose third group
  exceeds 255, a truncated form with two or three groups, and an octal form.
- `convert_ipv4` validates a dotted quad and derives its other notations:
  32-bit decimal, 8-digit hexadecimal, IPv6-mapped, truncated, integer
  overflow and octal.

The lines the program prints become returned values. `parse_input` returns
`Ok(text)`, `NoMatch` (Python's `None`) or `Error(failure)`, where `Error` is
an exception that escapes it. `convert_ipv4` returns the representations or
`InvalidAddress(text)`.

Modules, one per concern:

- `Text` models `str.strip()`, `str.split('.')`, `'.'.join(...)` and
  `startswith`, all on ASCII.
- `Numerals` models `int(s, base)`, `str(n)`, `f"{n:o}"` and `f"{n:08x}"`.
- `Addresses` models `ipaddress.IPv4Address`. It covers the 32-bit
  big-endian packing and, in the single predicate `StrictOctetText`, the
  strict text check (no leading zeros, as in CPython 3.9.5 and later).
- `Parser` models `parse_input`. It has the function `Parse` and the method
  `ParseInput`. `ParseInput` runs the octal loop as `RewriteOctalGroups`.
- `ParserRules` states what each rule does to the inputs it claims, and
  which rules take precedence.
- `Converter` models `convert_ipv4`. It has the function `Convert` and the
  method `ConvertIPv4`. `ConvertIPv4` runs the truncation loop as
  `TruncatedDisplay`.
- `RoundTrips` relates `convert_ipv4`'s texts to the address and to what
  `parse_input` makes of them again.
- `Examples` covers sample inputs for each rule.
- `Pipeline` models the caller. It treats an empty parse result as "could
  not parse".

Some behaviours of the code are easy to misread. The proved lemmas pin
them down:

- "010.2.3.4" is four groups of at most three digits, so rule 1 returns it
  unchanged. The octal rule never sees it, so it is not read as 8.2.3.4
  (`Examples.LeadingZeroPassThrough`). `convert_ipv4` then rejects it for
  its leading zero.
- A two-group input with a group above 255 is not split into the last three
  octets. It falls through to the octal rule. When no group has a leading
  zero, that rule returns it unchanged (`Examples.TwoGroupFallThrough`,
  `Examples.TwoGroupOutOfRange`). A leading-zero group is still read in
  base 8.
- The integer overflow display always has three groups, also when `o1` is 0
  (`RoundTrips.OverflowShown`).
- The truncated display does not parse back to the address it came from.
  Rules 2 and 6 put the last kept group at the end of the address. Only
  0.0.0.0 survives (`RoundTrips.TruncatedRoundTrip`).
- The octal display parses back through the octal rule only when some octet
  is 64 or more. Otherwise each group has at most three digits, and rule 1
  returns the octal text unchanged (`RoundTrips.OctalRoundTrip`).

## Model

| member | source | states |
|---|---|---|
| Text.Strip | ipfoo.py:8 | the stripped text is a slice `s[i..j]` of the input with only whitespace outside it, it neither starts nor ends with whitespace, and a text with no whitespace at either end is unchanged |
| Text.StripBlank | ipfoo.py:8 | stripping gives the empty text exactly when the input is all whitespace |
| Text.Split | ipfoo.py:30 | `split('.')` gives at least one piece, no piece holds a dot, and joining the pieces with dots gives the text back |
| Text.SplitJoin | ipfoo.py:47-54 | splitting a dotted join of dot-free pieces gives the pieces back |
| Text.JoinDigits | ipfoo.py:45 | joining digit strings gives a text of digits and dots only |
| Text.SplitDigits | ipfoo.py:45-47 | every piece of a digits-and-dots text is a digit string |
| Numerals.Render | ipfoo.py:88 | a number written in base 8, 10 or 16 uses only digits of that base, in lower case, with no superfluous leading zero |
| Numerals.Decimal | ipfoo.py:75 | `str(n)` is a non-empty, canonical, dot-free decimal numeral |
| Numerals.ValueOfRender | ipfoo.py:51 | reading a written number back in the same base gives the number |
| Numerals.RenderOfValue | ipfoo.py:63 | writing back the value of a canonical lower-case numeral gives the numeral |
| Numerals.RenderLength | ipfoo.py:69 | a number has at most k digits in a base exactly when it is below base^k |
| Numerals.ValueZeroPrefix | ipfoo.py:51 | leading zeros do not change the value `int(part, base)` reads |
| Numerals.Hex8 | ipfoo.py:69 | `f"{n:08x}"` of a 32-bit value is exactly eight lower-case hexadecimal digits whose value is n |
| Addresses.ToInt | ipfoo.py:64 | the packed big-endian value of four octets is below 2^32 |
| Addresses.FromInt | ipfoo.py:17 | the address built from a 32-bit integer packs back into that integer |
| Addresses.FromIntToInt | ipfoo.py:17 | unpacking the packed value of an address gives the address back, so packing is injective |
| Addresses.OctetText | ipfoo.py:63 | the decimal text of an octet passes the strict octet check and reads back as the octet |
| Addresses.SplitDotted | ipfoo.py:65 | `str(ip)` splits into the decimal texts of its four octets |
| Addresses.ParseAddressIff | ipfoo.py:63 | `IPv4Address(s)` accepts s as address a exactly when s is `str(a)` |
| Addresses.DottedInjective | ipfoo.py:70 | two addresses with the same text are the same address |
| Parser.OctalGroups | ipfoo.py:47-54 | the octal rewrite succeeds exactly when every group does, keeps the number of groups, and rewrites each group on its own |
| Parser.RewriteOctalGroups | ipfoo.py:47-56 | the loop over the groups returns the rewrite of every group, or nothing at the first group `int(part, 8)` refuses |
| Parser.ParseInput | ipfoo.py:6-58 | `parse_input` run as statements, with the octal loop, gives the rule-by-rule result `Parse` |
| ParserRules.DottedShapesAreDigits | ipfoo.py:11-26 | texts of the dotted rules are digits and dots, so neither the "0x" nor the "::ffff:" rule can claim them |
| ParserRules.NumeralIsOneGroup | ipfoo.py:15 | an all-digit text is a single group, so no dotted rule claims it |
| ParserRules.StandardPassThrough | ipfoo.py:10-12 | four groups of one to three digits come back unchanged, whatever their values and leading zeros |
| ParserRules.NumeralRule | ipfoo.py:14-17 | an all-digit input below 2^32 gives the big-endian dotted quad of its value; from 2^32 on it is an error, not a non-match |
| ParserRules.HexRuleResult | ipfoo.py:19-22 | after "0x", hexadecimal digits below 2^32 give the dotted quad of their value; a larger value or a remainder that is not hexadecimal is an error |
| ParserRules.MappedRule | ipfoo.py:24-26 | the "::ffff:" prefix is removed and the rest returned unchecked |
| ParserRules.OverflowRule | ipfoo.py:28-34 | three digit groups with the third above 255 give a.b.(c div 256).(c mod 256), with a and b rewritten as integers |
| ParserRules.PaddingTwoGroups | ipfoo.py:36-40 | two groups both at most 255 become g1.0.0.g2 with the texts copied; otherwise the octal rule decides |
| ParserRules.PaddingThreeGroups | ipfoo.py:36-42 | three groups all at most 255 become g1.g2.0.g3 with the texts copied; otherwise the octal rule decides |
| ParserRules.OctalRuleReached | ipfoo.py:44-45 | every digits-and-dots input that no earlier rule claims reaches the octal rule |
| ParserRules.OctalRuleFails | ipfoo.py:44-58 | the octal rule finds nothing exactly when some leading-zero group is not octal, and it never raises |
| ParserRules.OctalRuleGroups | ipfoo.py:47-54 | the octal rule's text has as many groups as its input; each leading-zero group becomes the decimal text of its octal value and every other group is kept |
| Converter.TruncLen | ipfoo.py:74-77 | the kept prefix has at least one octet, every octet after it is zero, and no shorter non-empty prefix has that property |
| Converter.TruncatedDisplay | ipfoo.py:72-78 | the loop that appends octet texts and stops once only zeros remain gives the dotted shortest prefix |
| Converter.OctalText | ipfoo.py:88 | an octet's octal text reads back in base 8 as the octet and starts with a '0' in front of more digits exactly when the octet is 8 or more |
| Converter.ConvertIPv4 | ipfoo.py:60-92 | `convert_ipv4` run as statements, with the truncation loop, gives `Convert` |
| Converter.Report | ipfoo.py:67-92 | an invalid address prints only `Error: Invalid IPv4 address '<text>'`; a valid one prints, in order, the standard, 32-bit decimal, 32-bit hex and IPv6 mapped lines, then the truncated line when there is one, then the overflow line when there is one, and the octal line last, each with its label and value |
| RoundTrips.ReportLines | ipfoo.py:67-92 | the report of a text that is not an address is the single error line naming it; the report of a valid address has five lines plus one when the last octet is zero plus one when the last two octets are not both zero |
| RoundTrips.ConvertAccepts | ipfoo.py:62-92 | the conversion succeeds exactly when the input is the text of some address; otherwise the error names the input and nothing else is produced |
| RoundTrips.ConvertValid | ipfoo.py:62-89 | the text of an address converts to the representations of that address |
| RoundTrips.ConvertRejectsOutOfRange | ipfoo.py:62-63 | four groups with one out of range or with a leading zero are rejected |
| RoundTrips.ConvertFields | ipfoo.py:64-70 | standard text is the input; decimal is o0·2^24+o1·2^16+o2·2^8+o3 below 2^32; hex is "0x" and eight lower-case digits of that value; mapped is "::ffff:" and the text |
| RoundTrips.TruncatedShown | ipfoo.py:72-80 | the truncated text is printed exactly when the last octet is zero, and it is then the shortest dotted prefix |
| RoundTrips.TruncatedDiffers | ipfoo.py:78-79 | the truncated display differs from the address text exactly when the last octet is zero |
| RoundTrips.TruncatedAllZero | ipfoo.py:72-80 | "0.0.0.0" is truncated to "0" |
| RoundTrips.OverflowShown | ipfoo.py:82-85 | the overflow text is printed exactly when o2 or o3 is not zero, and it is always three groups: o0, o1 and o2·256+o3 |
| RoundTrips.StandardRoundTrip | ipfoo.py:10-12 | the standard text of an address parses back to itself |
| RoundTrips.DecimalRoundTrip | ipfoo.py:14-17 | the decimal text of an address parses back to the address |
| RoundTrips.HexRoundTrip | ipfoo.py:19-22 | the hexadecimal text of an address parses back to the address |
| RoundTrips.HexTextParses | ipfoo.py:19-22 | "0x" and the eight hexadecimal digits of a 32-bit value parse to the dotted quad of that value |
| RoundTrips.MappedRoundTrip | ipfoo.py:24-26 | the IPv6-mapped text of an address parses back to the address |
| RoundTrips.OverflowRoundTrip | ipfoo.py:28-42 | the overflow text parses back to the address: through rule 5 when o2 is not zero, through rule 6 when it is |
| RoundTrips.OverflowBySplit | ipfoo.py:28-34 | three decimal texts whose last value exceeds 255 are split by rule 5 |
| RoundTrips.OverflowByPadding | ipfoo.py:36-42 | three octet texts are padded by rule 6 to x.y.0.z |
| RoundTrips.OctalTextLength | ipfoo.py:88 | an octet's octal text has one character below 8, three below 64 and four from 64 on |
| RoundTrips.OctalShape | ipfoo.py:87-89 | the octal display has four groups; a group has a leading '0' exactly when its octet is 8 or more, and reads back in base 8 as the octet |
| RoundTrips.OctalEqualsStandard | ipfoo.py:88 | the octal display equals the standard text exactly when every octet is below 8 |
| RoundTrips.OctalGroupsOfOctalTexts | ipfoo.py:47-54 | the octal rewrite turns the octal texts of octets into their decimal texts |
| RoundTrips.OctalRoundTrip | ipfoo.py:44-54 | the octal display parses back to the address when some octet is 64 or more; otherwise rule 1 returns it unchanged |
| RoundTrips.OctalRewrite | ipfoo.py:44-54 | four octal texts with a four-character group reach the octal rule, which gives the decimal texts |
| RoundTrips.OctalPassThrough | ipfoo.py:10-12 | four octal texts of octets below 64 are returned unchanged by rule 1 |
| RoundTrips.TruncatedRoundTrip | ipfoo.py:72-80 | the truncated display always parses, and parses back to the address only for 0.0.0.0 |
| RoundTrips.TruncatedReads | ipfoo.py:14-42 | one, two and three kept octets are read as 0.0.0.o0, o0.0.0.o1 and o0.o1.0.o2 |
| RoundTrips.TruncatedReadingSame | ipfoo.py:36-42 | that reading gives back the octets exactly when all of them are zero |
| RoundTrips.TruncLenOfFour | ipfoo.py:74-77 | with a zero last octet, one octet is kept iff o1 and o2 are zero, two iff only o2 is zero, three iff o2 is not zero |
| RoundTrips.OneGroupReading | ipfoo.py:14-17 | a lone octet text is read as the last octet of an address |
| RoundTrips.TwoGroupReading | ipfoo.py:36-40 | two octet texts are read as the first and the last octet |
| RoundTrips.ThreeGroupReading | ipfoo.py:41-42 | three octet texts are read as the first, second and last octet |
| Examples.OutOfRangePassThrough | ipfoo.py:10-12 | "999.1.1.1" is returned unchanged |
| Examples.OutOfRangeRejected | ipfoo.py:62-63 | "999.1.1.1" is then rejected as an invalid address |
| Examples.LeadingZeroPassThrough | ipfoo.py:10-12 | "010.2.3.4" is returned unchanged, not read as octal |
| Examples.NumeralReading | ipfoo.py:14-17 | the decimal text of any number parses as `IPv4Address(n)` would |
| Examples.DecimalExample | ipfoo.py:14-17 | "167772161" parses to "10.0.0.1" |
| Examples.HexExample | ipfoo.py:19-22 | "0x0a000001" parses to "10.0.0.1" |
| Examples.OverflowExample | ipfoo.py:28-34 | "10.0.256" parses to "10.0.1.0" |
| Examples.TwoGroupExample | ipfoo.py:36-40 | "10.5" parses to "10.0.0.5" |
| Examples.ThreeGroupExample | ipfoo.py:41-42 | "10.5.3" parses to "10.5.0.3" |
| Examples.TwoGroupFallThrough | ipfoo.py:36-54 | two decimal texts with one above 255 are not padded and come back unchanged from the octal rule |
| Examples.TwoGroupOutOfRange | ipfoo.py:36-54 | "10.256" is returned unchanged |
| Examples.OctalExample | ipfoo.py:44-54 | "0010.2.3.4" parses to "8.2.3.4" |
| Examples.OctalNoMatch | ipfoo.py:44-58 | "0009.1.1.1" matches no rule |
| Pipeline.Run | ipfoo.py:102-109 | a run converts exactly when parsing gives a non-empty text, and then converts that text; a parse error is raised; no match or an empty text leaves the input unparsed |
| Pipeline.BlankUnparsed | ipfoo.py:102-109 | a blank argument parses to the empty text, and the run reports it as unparsed |
| Pipeline.ValidRuns | ipfoo.py:102-107 | the text of a valid address is parsed as itself and fully converted |
| Pipeline.NumeralRuns | ipfoo.py:102-107 | a 32-bit decimal argument always reaches the full report |

## Left out

- Printing is not modelled. The printed lines become returned values, and `Converter.Report` gives the line texts.
- The command line is not modelled: the argument-count check, the usage message and `sys.exit` (ipfoo.py:94-99). `Pipeline.Run` models only the use of the two functions (ipfoo.py:102-109).
- Python's `re`, `int()` and `ipaddress` are modelled as explicit ASCII predicates and functions. Unicode digits matched by `\d` and `isdigit()` and Unicode whitespace removed by `strip()` are not modelled.
- Underscores that `int(s, 16)` accepts after the "0x" prefix ("0x_ff") are not modelled. Such input is a `MalformedNumeral` error in the model.
- The limit on conversions between `int` and decimal text of more than 4300 digits is not modelled. It exists in Python 3.11 and later and in some earlier security releases, such as 3.10.7 and 3.9.14. Under it, `int()` on a very long group raises a `ValueError` that escapes from rule 2, 5 or 6. `str()` of a huge octal value also raises, inside rule 7, where the error is caught, so the source returns `None` where the model gives a text.
- Older CPython versions accepted leading zeros in `IPv4Address`. The model fixes the current behaviour and rejects them, in the single predicate `Addresses.StrictOctetText`.
- Converter.ConvertIPv4: the list `octets` (ipfoo.py:65) is computed from the validated address rather than by splitting the text again. The two agree on every text `IPv4Address` accepts (`Addresses.ParseAddressIff`, `Addresses.SplitDotted`).
