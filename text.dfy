/** Optional values, for results that may be absent. */
module Options {
  datatype Option<+T> = None | Some(value: T)
}

/**
 * The string primitives the converter leans on: Python's `str.strip()`,
 * `str.split('.')`, `'.'.join(...)` and `str.startswith`, restricted to ASCII.
 */
module Text {

  /** A character `str.strip()` removes: the ASCII characters for which
      Python's `str.isspace()` holds (tab to carriage return, the four
      separator controls 0x1C..0x1F, and the space). */
  predicate IsSpace(c: char) {
    c == ' ' || ('\t' <= c <= '\r') || ('\U{1C}' <= c <= '\U{1F}')
  }

  predicate IsDigit(c: char) {
    '0' <= c <= '9'
  }

  /** Every character is an ASCII decimal digit (the empty string included). */
  predicate IsDigits(s: string) {
    forall i :: 0 <= i < |s| ==> IsDigit(s[i])
  }

  /** `s.isdigit()` on ASCII text, and the regular expression `\d+`. */
  predicate IsNumeral(s: string) {
    |s| > 0 && IsDigits(s)
  }

  /** Every character is a digit or a dot (the empty string included). */
  predicate DigitsAndDots(s: string) {
    forall i :: 0 <= i < |s| ==> IsDigit(s[i]) || s[i] == '.'
  }

  predicate NoDot(s: string) {
    forall i :: 0 <= i < |s| ==> s[i] != '.'
  }

  predicate StartsWith(s: string, prefix: string) {
    |prefix| <= |s| && s[..|prefix|] == prefix
  }

  /** Number of whitespace characters at the front of `s`. */
  function LeadingSpaces(s: string): (n: nat)
    ensures n <= |s|
    ensures forall i :: 0 <= i < n ==> IsSpace(s[i])
    ensures n < |s| ==> !IsSpace(s[n])
  {
    if |s| > 0 && IsSpace(s[0]) then 1 + LeadingSpaces(s[1..]) else 0
  }

  /** Number of whitespace characters at the back of `s`. */
  function TrailingSpaces(s: string): (n: nat)
    ensures n <= |s|
    ensures forall i :: |s| - n <= i < |s| ==> IsSpace(s[i])
    ensures n < |s| ==> !IsSpace(s[|s| - n - 1])
  {
    if |s| > 0 && IsSpace(s[|s| - 1]) then 1 + TrailingSpaces(s[..|s| - 1]) else 0
  }

  /** `s.strip()`: the longest middle slice that neither starts nor ends
      with whitespace; only whitespace is removed. */
  function Strip(s: string): (r: string)
    ensures |r| > 0 ==> !IsSpace(r[0]) && !IsSpace(r[|r| - 1])
    ensures |s| == 0 || (!IsSpace(s[0]) && !IsSpace(s[|s| - 1])) ==> r == s
    ensures exists i, j :: 0 <= i <= j <= |s| && r == s[i..j] &&
              (forall k :: 0 <= k < i ==> IsSpace(s[k])) &&
              (forall k :: j <= k < |s| ==> IsSpace(s[k]))
  {
    var n := LeadingSpaces(s);
    var t := s[n..];
    var m := TrailingSpaces(t);
    var r := t[..|t| - m];
    assert r == s[n..|s| - m];
    assert forall k :: |s| - m <= k < |s| ==> IsSpace(s[k]) by {
      forall k | |s| - m <= k < |s|
        ensures IsSpace(s[k])
      {
        assert s[k] == t[k - n];
      }
    }
    r
  }

  /** `s.strip()` is empty exactly when `s` is all whitespace. */
  lemma StripBlank(s: string)
    ensures Strip(s) == [] <==> forall i :: 0 <= i < |s| ==> IsSpace(s[i])
  {
    if forall i :: 0 <= i < |s| ==> IsSpace(s[i]) {
      LeadingBlank(s);
    } else {
      var i :| 0 <= i < |s| && !IsSpace(s[i]);
      var n := LeadingSpaces(s);
      var t := s[n..];
      assert n <= i && t[i - n] == s[i];
      assert TrailingSpaces(t) < |t| - (i - n);
    }
  }

  lemma {:induction false} LeadingBlank(s: string)
    requires forall i :: 0 <= i < |s| ==> IsSpace(s[i])
    ensures LeadingSpaces(s) == |s|
    decreases |s|
  {
    if |s| > 0 {
      LeadingBlank(s[1..]);
    }
  }

  /** Index of the first '.' in `s`, or `|s|` when there is none. */
  function DotIndex(s: string): (i: nat)
    ensures i <= |s|
    ensures forall j :: 0 <= j < i ==> s[j] != '.'
    ensures i < |s| ==> s[i] == '.'
  {
    if |s| == 0 || s[0] == '.' then 0 else 1 + DotIndex(s[1..])
  }

  /** `'.'.join(parts)`. */
  function Join(parts: seq<string>): string {
    if |parts| == 0 then ""
    else if |parts| == 1 then parts[0]
    else parts[0] + "." + Join(parts[1..])
  }

  /** `s.split('.')`: the dot-free pieces between the dots, never empty as a
      list, and joining them back gives `s`. */
  function Split(s: string): (parts: seq<string>)
    ensures |parts| >= 1
    ensures forall k :: 0 <= k < |parts| ==> NoDot(parts[k])
    ensures Join(parts) == s
    decreases |s|
  {
    var i := DotIndex(s);
    if i == |s| then [s] else [s[..i]] + Split(s[i + 1..])
  }

  /** Splitting undoes joining, for pieces that hold no dot. */
  lemma {:induction false} SplitJoin(parts: seq<string>)
    requires |parts| >= 1
    requires forall k :: 0 <= k < |parts| ==> NoDot(parts[k])
    ensures Split(Join(parts)) == parts
  {
    var p := parts[0];
    if |parts| == 1 {
      assert DotIndex(p) == |p|;
    } else {
      var rest := Join(parts[1..]);
      var s := p + "." + rest;
      assert s[|p|] == '.';
      assert DotIndex(s) == |p|;
      assert s[..|p|] == p && s[|p| + 1..] == rest;
      SplitJoin(parts[1..]);
    }
  }

  /** A string without dots splits into itself. */
  lemma SplitNoDot(s: string)
    requires NoDot(s)
    ensures Split(s) == [s]
  {
    SplitJoin([s]);
  }

  /** Joining digit strings yields only digits and dots. */
  lemma {:induction false} JoinDigits(parts: seq<string>)
    requires forall k :: 0 <= k < |parts| ==> IsDigits(parts[k])
    ensures DigitsAndDots(Join(parts))
  {
    if |parts| > 1 {
      JoinDigits(parts[1..]);
      var s := Join(parts);
      assert s == parts[0] + "." + Join(parts[1..]);
      forall i | 0 <= i < |s| ensures IsDigit(s[i]) || s[i] == '.' {
        if i > |parts[0]| {
          assert s[i] == Join(parts[1..])[i - |parts[0]| - 1];
        }
      }
    }
  }

  /** The pieces of a digits-and-dots string are digit strings. */
  lemma SplitDigits(s: string)
    requires DigitsAndDots(s)
    ensures forall k :: 0 <= k < |Split(s)| ==> IsDigits(Split(s)[k])
    decreases |s|
  {
    var i := DotIndex(s);
    if i < |s| {
      SplitDigits(s[i + 1..]);
    }
  }

  /** The pieces of a string made of digits and dots carry no other character,
      so such a string starts neither with "0x" nor with "::ffff:". */
  lemma DigitsAndDotsPrefixes(s: string)
    requires DigitsAndDots(s)
    ensures !StartsWith(s, "0x") && !StartsWith(s, "::ffff:")
  {
    if |s| >= 2 {
      assert s[..2][1] == s[1] != 'x';
    }
    if |s| >= 7 {
      assert s[..7][0] == s[0] != ':';
    }
  }

  /** The join of four pieces, written out. */
  lemma JoinFour(p: seq<string>)
    requires |p| == 4
    ensures Join(p) == p[0] + "." + p[1] + "." + p[2] + "." + p[3]
  {
    assert Join(p[2..]) == p[2] + "." + p[3] by { assert p[2..][1..] == [p[3]]; }
    assert Join(p[1..]) == p[1] + "." + Join(p[2..]) by { assert p[1..][1..] == p[2..]; }
  }

  lemma JoinThree(p: seq<string>)
    requires |p| == 3
    ensures Join(p) == p[0] + "." + p[1] + "." + p[2]
  {
    assert Join(p[1..]) == p[1] + "." + p[2] by { assert p[1..][1..] == [p[2]]; }
  }

  lemma JoinTwo(p: seq<string>)
    requires |p| == 2
    ensures Join(p) == p[0] + "." + p[1]
  {
    assert p[1..] == [p[1]];
  }
}
