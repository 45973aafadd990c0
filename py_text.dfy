/**
  The pieces of Python's built-in string behaviour that the comparison code
  relies on: what counts as whitespace for `str.split()` and `str.strip()`,
  `str.strip()` itself, and slicing, which clamps its bounds to the string.
 */
module PyText {

  /** The characters for which Python's `str.isspace()` holds (the whitespace
      bidirectional classes and the space separators), as inclusive ranges:
      the set that `str.split()` and `str.strip()` break and trim on when
      given no argument. */
  const WhitespaceRanges: seq<(char, char)> := [
    ('\t', '\r'), ('\U{1C}', '\U{1F}'), (' ', ' '), ('\U{85}', '\U{85}'), ('\U{A0}', '\U{A0}'),
    ('\U{1680}', '\U{1680}'), ('\U{2000}', '\U{200A}'), ('\U{2028}', '\U{2029}'),
    ('\U{202F}', '\U{202F}'), ('\U{205F}', '\U{205F}'), ('\U{3000}', '\U{3000}')
  ]

  /** Whether `c` lies in one of the inclusive ranges `rs`. */
  predicate InRanges(c: char, rs: seq<(char, char)>)
  {
    rs != [] && (rs[0].0 <= c <= rs[0].1 || InRanges(c, rs[1..]))
  }

  /** A character outside every one of the ranges is in none of them. */
  lemma {:induction false} NotInRanges(c: char, rs: seq<(char, char)>)
    requires forall i :: 0 <= i < |rs| ==> !(rs[i].0 <= c <= rs[i].1)
    ensures !InRanges(c, rs)
  {
    if rs != [] {
      NotInRanges(c, rs[1..]);
    }
  }

  predicate IsSpace(c: char)
  {
    InRanges(c, WhitespaceRanges)
  }

  /** How many whitespace characters `s` starts with. */
  function LeadingSpaces(s: string): (k: nat)
    ensures k <= |s|
    ensures forall i :: 0 <= i < k ==> IsSpace(s[i])
    ensures k == |s| || !IsSpace(s[k])
  {
    if s != [] && IsSpace(s[0]) then 1 + LeadingSpaces(s[1..]) else 0
  }

  /** How many whitespace characters `s` ends with. */
  function TrailingSpaces(s: string): (k: nat)
    ensures k <= |s|
    ensures forall i :: |s| - k <= i < |s| ==> IsSpace(s[i])
    ensures k == |s| || !IsSpace(s[|s| - 1 - k])
  {
    if s != [] && IsSpace(s[|s| - 1]) then 1 + TrailingSpaces(s[..|s| - 1]) else 0
  }

  /** Python's `s.strip()`: what is left of `s` once its leading and trailing
      whitespace is cut off. */
  function Strip(s: string): (r: string)
    ensures |r| <= |s|
    ensures r == [] || (!IsSpace(r[0]) && !IsSpace(r[|r| - 1]))
    ensures r == [] <==> forall i :: 0 <= i < |s| ==> IsSpace(s[i])
  {
    var lead := LeadingSpaces(s);
    if lead == |s| then [] else s[lead..|s| - TrailingSpaces(s)]
  }

  /** `strip()` removes whitespace and nothing else: its result is the infix
      of `s` that starts after the leading whitespace, and every character of
      `s` outside that infix is whitespace. */
  lemma StripInfix(s: string)
    ensures LeadingSpaces(s) + |Strip(s)| <= |s|
    ensures Strip(s) == s[LeadingSpaces(s)..LeadingSpaces(s) + |Strip(s)|]
    ensures forall i :: 0 <= i < |s| && !(LeadingSpaces(s) <= i < LeadingSpaces(s) + |Strip(s)|) ==> IsSpace(s[i])
  {
  }

  /** Python's slice `s[lo:hi]` for non-negative bounds: each bound is clamped
      to the length of `s`, and an empty string results when `lo >= hi`. */
  function Slice(s: string, lo: nat, hi: nat): (r: string)
    ensures |r| <= |s| && (lo <= hi ==> |r| <= hi - lo)
    ensures lo < |s| && lo <= hi ==> r == s[lo..if hi <= |s| then hi else |s|]
    ensures |s| <= lo ==> r == []
  {
    var a := if lo <= |s| then lo else |s|;
    var b := if hi <= |s| then hi else |s|;
    if a <= b then s[a..b] else []
  }
}
