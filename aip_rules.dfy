/**
  The aviation "signal" comparison of the AIP rules: pulling minima, visibility,
  approach category, course, DME and remark values out of the text of a chart
  page, and comparing the values found on an old and a new page key by key.

  The regular expressions of the pattern table are not modelled: the model
  receives them as `finditer`, which gives, for a table key and a page text,
  the ordered matches of that key's pattern. Everything the source does with
  those matches is modelled. `numeric_delta` is likewise a parameter.
 */
module AipRules {
  import opened Wrappers
  import opened PyText
  import opened Padded

  /** One match object of a pattern: the offset just past the match
      (`m.end()`), the whole matched text (`m.group(0)`) and, when the pattern
      has capture groups, the first one (`m.group(1)`). */
  datatype Match = Match(end: nat, whole: string, group1: Option<string>)

  /** The regular-expression engine applied to the table: the key of a pattern
      and a text give that pattern's matches in order. */
  type Finditer = (string, string) -> seq<Match>

  /** `numeric_delta`, which formats the difference of two numbers. */
  type NumericDelta = (string, string) -> string

  /** One line of a minima panel: a tag ("OLD" or "NEW") and the text shown. */
  datatype Line = Line(tag: string, text: string)

  /** The keys of the pattern table, in its order. */
  const PatternKeys: seq<string> :=
    ["MDA", "DA", "OCA", "OCH", "RVR", "VIS", "CAT", "COURSE", "DME", "REMARKS"]

  /** The key whose matches start free-text remark blocks. */
  const Remarks: string := "REMARKS"

  /** How many characters after a remark heading make up its block. */
  const RemarksWindow: nat := 400

  /** The keys a minima panel compares, in order; remarks are not compared. */
  const MinimaKeys: seq<string> := ["MDA", "DA", "OCA", "OCH", "RVR", "VIS", "CAT", "COURSE", "DME"]

  /** What a panel shows for a missing or empty value (an em dash). */
  const Missing: string := "\U{2014}"

  const OldTag: string := "OLD"
  const NewTag: string := "NEW"

  // ---------------------------------------------------------------------------
  // _findall and extract_signals

  /** The value `_findall` keeps for one match. */
  function Captured(m: Match): string
  {
    match m.group1
    case Some(g) => g
    case None => m.whole
  }

  /** One value per match, in match order: `[f(m) for m in matches]`. */
  function MapMatches(ms: seq<Match>, f: Match -> string): (r: seq<string>)
    ensures |r| == |ms|
    ensures forall i {:trigger r[i]} :: 0 <= i < |ms| ==> r[i] == f(ms[i])
  {
    if ms == [] then [] else MapMatches(ms[..|ms| - 1], f) + [f(ms[|ms| - 1])]
  }

  /** One more match: the values of `ms[..j+1]` are those of `ms[..j]` and
      the value of `ms[j]`. */
  lemma MapMatchesStep(ms: seq<Match>, j: nat, f: Match -> string)
    requires j < |ms|
    ensures MapMatches(ms[..j + 1], f) == MapMatches(ms[..j], f) + [f(ms[j])]
  {
    assert ms[..j + 1][..j] == ms[..j];
  }

  /** `_findall`: one value per match, in match order; the first capture
      group when the pattern has groups, else the whole match. */
  function FindAll(ms: seq<Match>): (r: seq<string>)
    ensures |r| == |ms|
    ensures forall i {:trigger r[i]} :: 0 <= i < |ms| ==> r[i] == Captured(ms[i])
  {
    MapMatches(ms, Captured)
  }

  /** The stripped window of text that follows a remark heading ending at `end`. */
  function RemarkBlock(text: string, end: nat): (r: string)
    ensures |r| <= RemarksWindow
    ensures |text| <= end ==> r == []
  {
    Strip(Slice(text, end, end + RemarksWindow))
  }

  /** The remark blocks of `extract_signals`, one per heading match, in order. */
  function RemarkBlocks(text: string, ms: seq<Match>): (r: seq<string>)
    ensures |r| == |ms|
    ensures forall i {:trigger r[i]} :: 0 <= i < |ms| ==> r[i] == RemarkBlock(text, ms[i].end)
  {
    MapMatches(ms, (m: Match) => RemarkBlock(text, m.end))
  }

  /** The values `extract_signals` collects for one key of the table. */
  function SignalValues(key: string, text: string, finditer: Finditer): seq<string>
  {
    if key == Remarks then RemarkBlocks(text, finditer(key, text))
    else FindAll(finditer(key, text))
  }

  /** A dictionary filled by visiting `keys` in order and storing `values(k)`
      under `k` only when it is non-empty: how `extract_signals` and
      `compare_signals` both fill their result. */
  function KeepNonEmpty<T>(keys: seq<string>, values: string -> seq<T>): map<string, seq<T>>
  {
    if keys == [] then map[]
    else
      var found := KeepNonEmpty(keys[..|keys| - 1], values);
      var k := keys[|keys| - 1];
      if |values(k)| > 0 then found[k := values(k)] else found
  }

  /** A key is in the dictionary exactly when it was visited and its values
      are non-empty; it then holds those values. */
  lemma {:induction false} KeepNonEmptyEntry<T>(keys: seq<string>, values: string -> seq<T>, k: string)
    ensures k in KeepNonEmpty(keys, values) <==> k in keys && |values(k)| > 0
    ensures k in KeepNonEmpty(keys, values) ==> KeepNonEmpty(keys, values)[k] == values(k)
  {
    if keys != [] {
      var init, last := keys[..|keys| - 1], keys[|keys| - 1];
      KeepNonEmptyEntry(init, values, k);
      assert keys == init + [last];
      assert k in keys <==> k in init || k == last;
    }
  }

  /** One more visited key: the dictionary after `keys[..i+1]` is the one after
      `keys[..i]`, with `keys[i]` stored when its values are non-empty. */
  lemma KeepNonEmptyStep<T>(keys: seq<string>, values: string -> seq<T>, i: nat)
    requires i < |keys|
    ensures KeepNonEmpty(keys[..i + 1], values)
            == if |values(keys[i])| > 0 then KeepNonEmpty(keys[..i], values)[keys[i] := values(keys[i])]
               else KeepNonEmpty(keys[..i], values)
  {
    assert keys[..i + 1][..i] == keys[..i];
  }

  /** The values of every table key, as `extract_signals` computes them. */
  function SignalValuesOf(text: string, finditer: Finditer): string -> seq<string>
  {
    k => SignalValues(k, text, finditer)
  }

  /** `extract_signals` over the full pattern table. */
  function ExtractedSignals(text: string, finditer: Finditer): map<string, seq<string>>
  {
    KeepNonEmpty(PatternKeys, SignalValuesOf(text, finditer))
  }

  /** What `extract_signals` promises: only table keys, only non-empty lists,
      a key absent exactly when its pattern found nothing; a value key holds
      `_findall` of its matches, REMARKS one block of at most 400 characters
      per heading match. */
  lemma ExtractedSignalsShape(text: string, finditer: Finditer, k: string)
    ensures k in ExtractedSignals(text, finditer) ==> k in PatternKeys && ExtractedSignals(text, finditer)[k] != []
    ensures k in PatternKeys ==> (k in ExtractedSignals(text, finditer) <==> finditer(k, text) != [])
    ensures k in ExtractedSignals(text, finditer) && k != Remarks ==>
              ExtractedSignals(text, finditer)[k] == FindAll(finditer(k, text))
    ensures Remarks in ExtractedSignals(text, finditer) ==>
              var blocks := ExtractedSignals(text, finditer)[Remarks];
              var ms := finditer(Remarks, text);
              |blocks| == |ms| &&
              forall i :: 0 <= i < |ms| ==> blocks[i] == RemarkBlock(text, ms[i].end) && |blocks[i]| <= RemarksWindow
  {
    KeepNonEmptyEntry(PatternKeys, SignalValuesOf(text, finditer), k);
    KeepNonEmptyEntry(PatternKeys, SignalValuesOf(text, finditer), Remarks);
  }

  /** The REMARKS branch of `extract_signals`: one stripped window per
      heading match, collected in match order. */
  method CollectRemarks(text: string, ms: seq<Match>) returns (blocks: seq<string>)
    ensures blocks == RemarkBlocks(text, ms)
  {
    blocks := [];
    var j := 0;
    while j < |ms|
      invariant 0 <= j <= |ms|
      invariant blocks == MapMatches(ms[..j], (m: Match) => RemarkBlock(text, m.end))
    {
      var start := ms[j].end;
      var block := Slice(text, start, start + RemarksWindow);
      blocks := blocks + [Strip(block)];
      MapMatchesStep(ms, j, (m: Match) => RemarkBlock(text, m.end));
      j := j + 1;
    }
    assert ms[..j] == ms;
  }

  /** The values `extract_signals` collects for one key: the remark blocks
      for REMARKS, `_findall` of the matches for any other key. */
  method KeySignals(k: string, text: string, finditer: Finditer) returns (vals: seq<string>)
    ensures vals == SignalValuesOf(text, finditer)(k)
  {
    if k == Remarks {
      vals := CollectRemarks(text, finditer(k, text));
    } else {
      vals := FindAll(finditer(k, text));
    }
  }

  /** The loop of `extract_signals` over the given table keys. */
  method CollectSignals(keys: seq<string>, text: string, finditer: Finditer) returns (found: map<string, seq<string>>)
    ensures found == KeepNonEmpty(keys, SignalValuesOf(text, finditer))
  {
    found := map[];
    var i := 0;
    while i < |keys|
      invariant 0 <= i <= |keys|
      invariant found == KeepNonEmpty(keys[..i], SignalValuesOf(text, finditer))
    {
      var k := keys[i];
      KeepNonEmptyStep(keys, SignalValuesOf(text, finditer), i);
      var vals := KeySignals(k, text, finditer);
      if vals != [] {
        found := found[k := vals];
      }
      i := i + 1;
    }
    assert keys[..i] == keys;
  }

  /** `extract_signals`: the loop over the whole pattern table. */
  method ExtractSignals(text: string, finditer: Finditer) returns (found: map<string, seq<string>>)
    ensures found == ExtractedSignals(text, finditer)
  {
    found := CollectSignals(PatternKeys, text, finditer);
  }

  // ---------------------------------------------------------------------------
  // The numeric token of compare_signals: the regular expression \d+(?:\.\d+)?

  /** A decimal digit as `\d` matches it (ASCII digits only in this model). */
  predicate IsDigit(c: char)
  {
    '0' <= c <= '9'
  }

  /** The length of the run of digits `s` starts with. */
  function DigitRun(s: string): (k: nat)
    ensures k <= |s|
    ensures forall i :: 0 <= i < k ==> IsDigit(s[i])
    ensures k == |s| || !IsDigit(s[k])
  {
    if s != [] && IsDigit(s[0]) then 1 + DigitRun(s[1..]) else 0
  }

  /** A text that `\d+(?:\.\d+)?` matches whole: digits with at most one '.',
      starting and ending with a digit (so a '.' has digits on both sides). */
  predicate IsNumberToken(t: string)
  {
    t != [] && IsDigit(t[0]) && IsDigit(t[|t| - 1]) &&
    (forall i :: 0 <= i < |t| ==> IsDigit(t[i]) || t[i] == '.') &&
    (forall i, j {:trigger t[i], t[j]} :: 0 <= i < j < |t| && t[i] == '.' ==> t[j] != '.')
  }

  /** `\d+(?:\.\d+)?` read piece by piece: a run of digits that is the whole
      text, or a run of digits, one '.', and a run of digits to the end. */
  predicate IsDecimal(t: string)
  {
    var d := DigitRun(t);
    0 < d && (d == |t| || (d + 1 < |t| && t[d] == '.' && DigitRun(t[d + 1..]) == |t| - d - 1))
  }

  /** `IsNumberToken` is exactly the regular expression read piece by piece. */
  lemma NumberTokenShape(t: string)
    ensures IsNumberToken(t) <==> IsDecimal(t)
  {
    if IsNumberToken(t) {
      NumberTokenIsDecimal(t);
    }
    if IsDecimal(t) {
      DecimalIsNumberToken(t, DigitRun(t));
    }
  }

  /** A number token that is not all digits has its '.' right after the
      leading digits, and only digits after that '.'. */
  lemma NumberTokenIsDecimal(t: string)
    requires IsNumberToken(t)
    ensures IsDecimal(t)
  {
    var d := DigitRun(t);
    if d < |t| {
      assert t[d] == '.';
      DigitsAfterDot(t, d);
      DigitRunToEnd(t, d + 1);
    }
  }

  /** In a number token, only digits follow a '.'. */
  lemma DigitsAfterDot(t: string, d: nat)
    requires IsNumberToken(t) && d < |t| && t[d] == '.'
    ensures d + 1 < |t|
    ensures forall i :: d < i < |t| ==> IsDigit(t[i])
  {
  }

  /** When only digits follow position `e`, the text from `e` is one run of digits. */
  lemma DigitRunToEnd(t: string, e: nat)
    requires e <= |t| && forall i :: e <= i < |t| ==> IsDigit(t[i])
    ensures DigitRun(t[e..]) == |t| - e
  {
    var r := t[e..];
    assert forall i :: 0 <= i < |r| ==> r[i] == t[e + i];
  }

  /** Digits, one '.', and digits to the end make a number token. */
  lemma DecimalIsNumberToken(t: string, d: nat)
    requires d == |t| || (d + 1 < |t| && t[d] == '.' && DigitRun(t[d + 1..]) == |t| - d - 1)
    requires 0 < d <= |t| && forall i :: 0 <= i < d ==> IsDigit(t[i])
    ensures IsNumberToken(t)
  {
    if d < |t| {
      var r := t[d + 1..];
      forall i | d < i < |t| ensures IsDigit(t[i]) {
        assert t[i] == r[i - d - 1];
      }
    }
  }

  /** A few tokens: a decimal, and two texts with more than one '.'. */
  lemma NumberTokenExamples()
    ensures IsNumberToken("12.5") && IsNumberToken("7")
    ensures !IsNumberToken("1..2") && !IsNumberToken("1.2.3") && !IsNumberToken("3.")
  {
    var t, u := "1..2", "1.2.3";
    assert t[1] == '.' && t[2] == '.';
    assert u[1] == '.' && u[3] == '.';
  }

  /** The longest match of `\d+(?:\.\d+)?` at the start of `s`. */
  function NumberAt(s: string): (t: string)
    requires s != [] && IsDigit(s[0])
    ensures |t| <= |s| && t == s[..|t|]
    ensures IsNumberToken(t)
    ensures |t| == |s| || !IsDigit(s[|t|])
  {
    var d := DigitRun(s);
    if d + 1 < |s| && s[d] == '.' && IsDigit(s[d + 1]) then
      var frac := DigitRun(s[d + 1..]);
      s[..d + 1 + frac]
    else s[..d]
  }

  /** The match of `\d+(?:\.\d+)?` is greedy: no longer prefix of `s` is a
      number token. */
  lemma NumberAtLongest(s: string, k: nat)
    requires s != [] && IsDigit(s[0]) && |NumberAt(s)| < k <= |s|
    ensures !IsNumberToken(s[..k])
  {
    var u, d, e := s[..k], DigitRun(s), |NumberAt(s)|;
    assert u[d] == s[d] && !IsDigit(s[d]);
    if e == d {
      if s[d] == '.' {
        if k == d + 1 {
          assert u[|u| - 1] == '.';
        } else {
          assert u[d + 1] == s[d + 1] && !IsDigit(s[d + 1]);
        }
      }
    } else {
      assert s[d] == '.';
      assert u[e] == s[e] && s[e] == s[d + 1..][e - d - 1];
    }
  }

  /** The position of the first digit of `s`, or `|s|` when it has none. */
  function FirstDigit(s: string): (k: nat)
    ensures k <= |s|
    ensures forall i :: 0 <= i < k ==> !IsDigit(s[i])
    ensures k < |s| ==> IsDigit(s[k])
  {
    if s == [] || IsDigit(s[0]) then 0 else 1 + FirstDigit(s[1..])
  }

  /** The first token that `re.findall(r"\d+(?:\.\d+)?", s)` returns, if any:
      the longest number token starting at the first digit of `s`. */
  function FirstNumber(s: string): (r: Option<string>)
    ensures r.None? <==> forall i :: 0 <= i < |s| ==> !IsDigit(s[i])
    ensures r.Some? ==> IsNumberToken(r.value)
    ensures r.Some? ==> FirstDigit(s) + |r.value| <= |s| && r.value == s[FirstDigit(s)..FirstDigit(s) + |r.value|]
    ensures r.Some? ==> FirstDigit(s) + |r.value| == |s| || !IsDigit(s[FirstDigit(s) + |r.value|])
  {
    var d := FirstDigit(s);
    if d == |s| then None
    else
      var t := NumberAt(s[d..]);
      assert s[d..][..|t|] == s[d..d + |t|];
      Some(t)
  }

  /** The token `FirstNumber` picks is the one `re.findall` lists first: no
      number token starts before the first digit, and the one starting there
      is the longest. */
  lemma FirstNumberLeftmostLongest(s: string)
    ensures forall j, k :: 0 <= j < FirstDigit(s) && j <= k <= |s| ==> !IsNumberToken(s[j..k])
    ensures FirstNumber(s).Some? ==>
              forall k :: FirstDigit(s) + |FirstNumber(s).value| < k <= |s| ==> !IsNumberToken(s[FirstDigit(s)..k])
  {
    NoNumberBeforeFirstDigit(s);
    if FirstNumber(s).Some? {
      FirstNumberLongest(s);
    }
  }

  /** No number token starts before the first digit. */
  lemma NoNumberBeforeFirstDigit(s: string)
    ensures forall j, k :: 0 <= j < FirstDigit(s) && j <= k <= |s| ==> !IsNumberToken(s[j..k])
  {
    var d := FirstDigit(s);
    forall j, k | 0 <= j < d && j <= k <= |s|
      ensures !IsNumberToken(s[j..k])
    {
      if k > j {
        assert s[j..k][0] == s[j];
      }
    }
  }

  /** No number token starting at the first digit is longer than `FirstNumber`'s. */
  lemma FirstNumberLongest(s: string)
    requires FirstNumber(s).Some?
    ensures forall k :: FirstDigit(s) + |FirstNumber(s).value| < k <= |s| ==> !IsNumberToken(s[FirstDigit(s)..k])
  {
    var d := FirstDigit(s);
    var t := NumberAt(s[d..]);
    assert FirstNumber(s).value == t;
    forall k | d + |t| < k <= |s|
      ensures !IsNumberToken(s[d..k])
    {
      NumberAtLongestFrom(s, d, k);
    }
  }

  /** `NumberAtLongest` for the number starting at position `d` of `s`. */
  lemma NumberAtLongestFrom(s: string, d: nat, k: nat)
    requires d < |s| && IsDigit(s[d]) && d + |NumberAt(s[d..])| < k <= |s|
    ensures !IsNumberToken(s[d..k])
  {
    assert s[d..][..k - d] == s[d..k];
    NumberAtLongest(s[d..], k - d);
  }

  // ---------------------------------------------------------------------------
  // compare_signals

  /** `d.get(k, [])`. */
  function Get(d: map<string, seq<string>>, k: string): seq<string>
  {
    if k in d then d[k] else []
  }

  /** Python truthiness of a value that may be missing. */
  predicate Truthy(v: Option<string>)
  {
    v.Some? && v.value != []
  }

  /** `v or "—"`. */
  function Shown(v: Option<string>): (r: string)
    ensures r == (if Truthy(v) then v.value else Missing)
  {
    match v
    case Some(s) => if s != [] then s else Missing
    case None => Missing
  }

  /** The suffix appended to a NEW value: a numeric delta of the first numeric
      tokens, only when both values are present, non-empty and hold a number. */
  function Delta(a: Option<string>, b: Option<string>, numericDelta: NumericDelta): (r: string)
    ensures r != [] ==> Truthy(a) && Truthy(b)
                        && FirstNumber(a.value).Some? && FirstNumber(b.value).Some?
                        && r == numericDelta(FirstNumber(a.value).value, FirstNumber(b.value).value)
    ensures Truthy(a) && Truthy(b) && FirstNumber(a.value).Some? && FirstNumber(b.value).Some? ==>
              r == numericDelta(FirstNumber(a.value).value, FirstNumber(b.value).value)
  {
    if Truthy(a) && Truthy(b) then
      match (FirstNumber(a.value), FirstNumber(b.value))
      case (Some(na), Some(nb)) => numericDelta(na, nb)
      case _ => ""
    else ""
  }

  /** What follows the NEW value on its line, as a function of the old and new values. */
  type Suffix = (Option<string>, Option<string>) -> string

  /** The suffix rule of `compare_signals`: the numeric delta. */
  function DeltaSuffix(numericDelta: NumericDelta): Suffix
  {
    (a, b) => Delta(a, b, numericDelta)
  }

  /** The two lines a differing position contributes. */
  function Entry(a: Option<string>, b: Option<string>, suffix: Suffix): seq<Line>
  {
    [Line(OldTag, Shown(a)), Line(NewTag, Shown(b) + suffix(a, b))]
  }

  /** The panel lines for one key after comparing positions `0 .. n-1`. */
  function KeyLines(ov: seq<string>, nv: seq<string>, suffix: Suffix, n: nat): seq<Line>
  {
    if n == 0 then []
    else
      var a, b := At(ov, n - 1), At(nv, n - 1);
      KeyLines(ov, nv, suffix, n - 1) + (if a != b then Entry(a, b, suffix) else [])
  }

  /** One more position compared. */
  lemma KeyLinesStep(ov: seq<string>, nv: seq<string>, suffix: Suffix, n: nat)
    ensures KeyLines(ov, nv, suffix, n + 1)
            == KeyLines(ov, nv, suffix, n)
               + if At(ov, n) != At(nv, n) then Entry(At(ov, n), At(nv, n), suffix) else []
  {
  }

  /** `front` is where `whole` starts. */
  ghost predicate IsPrefix<T>(front: seq<T>, whole: seq<T>)
  {
    |front| <= |whole| && whole[..|front|] == front
  }

  /** A sequence is a prefix of itself with anything appended. */
  lemma PrefixOfAppend<T>(front: seq<T>, back: seq<T>)
    ensures IsPrefix(front, front + back)
  {
    assert (front + back)[..|front|] == front;
  }

  lemma PrefixTransitive<T>(a: seq<T>, b: seq<T>, c: seq<T>)
    requires IsPrefix(a, b) && IsPrefix(b, c)
    ensures IsPrefix(a, c)
  {
    assert c[..|a|] == c[..|b|][..|a|];
  }

  /** A sequence that starts with `front + pair` holds the pair right after `front`. */
  lemma PairAt<T>(all: seq<T>, front: seq<T>, pair: seq<T>)
    requires |pair| == 2 && IsPrefix(front + pair, all)
    ensures all[|front|] == pair[0] && all[|front| + 1] == pair[1]
  {
    assert all[|front|] == all[..|front| + 2][|front|];
    assert all[|front| + 1] == all[..|front| + 2][|front| + 1];
  }

  /** How many of the positions `0 .. n-1` differ. */
  function DiffCount(ov: seq<string>, nv: seq<string>, n: nat): nat
  {
    if n == 0 then 0
    else DiffCount(ov, nv, n - 1) + (if At(ov, n - 1) != At(nv, n - 1) then 1 else 0)
  }

  /** Every differing position gives exactly two lines. */
  lemma {:induction false} KeyLinesLength(ov: seq<string>, nv: seq<string>, suffix: Suffix, n: nat)
    ensures |KeyLines(ov, nv, suffix, n)| == 2 * DiffCount(ov, nv, n)
  {
    if n > 0 {
      KeyLinesLength(ov, nv, suffix, n - 1);
    }
  }

  /** Comparing one more position only appends lines. */
  lemma KeyLinesGrow(ov: seq<string>, nv: seq<string>, suffix: Suffix, n: nat)
    ensures IsPrefix(KeyLines(ov, nv, suffix, n), KeyLines(ov, nv, suffix, n + 1))
  {
    var a, b := At(ov, n), At(nv, n);
    PrefixOfAppend(KeyLines(ov, nv, suffix, n), if a != b then Entry(a, b, suffix) else []);
  }

  /** The lines after comparing fewer positions are a prefix of the lines
      after comparing more: lines are only ever appended. */
  lemma {:induction false} KeyLinesPrefix(ov: seq<string>, nv: seq<string>, suffix: Suffix, m: nat, n: nat)
    requires m <= n
    ensures IsPrefix(KeyLines(ov, nv, suffix, m), KeyLines(ov, nv, suffix, n))
  {
    if m < n {
      var short, mid, long := KeyLines(ov, nv, suffix, m), KeyLines(ov, nv, suffix, n - 1), KeyLines(ov, nv, suffix, n);
      assert IsPrefix(short, mid) by {
        KeyLinesPrefix(ov, nv, suffix, m, n - 1);
      }
      assert IsPrefix(mid, long) by {
        KeyLinesGrow(ov, nv, suffix, n - 1);
      }
      PrefixTransitive(short, mid, long);
    }
  }

  /** The lines for a differing position `i` sit at `2 * DiffCount(i)`, after
      those of every earlier differing position, so lines follow position order. */
  lemma KeyLinesAt(ov: seq<string>, nv: seq<string>, suffix: Suffix, n: nat, i: nat)
    requires i < n && At(ov, i) != At(nv, i)
    ensures DiffCount(ov, nv, i) < DiffCount(ov, nv, n)
    ensures 2 * DiffCount(ov, nv, i) + 1 < |KeyLines(ov, nv, suffix, n)|
    ensures KeyLines(ov, nv, suffix, n)[2 * DiffCount(ov, nv, i)] == Line(OldTag, Shown(At(ov, i)))
    ensures KeyLines(ov, nv, suffix, n)[2 * DiffCount(ov, nv, i) + 1]
            == Line(NewTag, Shown(At(nv, i)) + suffix(At(ov, i), At(nv, i)))
  {
    var before, all := KeyLines(ov, nv, suffix, i), KeyLines(ov, nv, suffix, n);
    var entry := Entry(At(ov, i), At(nv, i), suffix);
    assert IsPrefix(before + entry, all) by {
      KeyLinesStep(ov, nv, suffix, i);
      KeyLinesPrefix(ov, nv, suffix, i + 1, n);
    }
    assert |before| == 2 * DiffCount(ov, nv, i) && |all| == 2 * DiffCount(ov, nv, n) by {
      KeyLinesLength(ov, nv, suffix, i);
      KeyLinesLength(ov, nv, suffix, n);
    }
    PairAt(all, before, entry);
  }

  /** Some position below `n` differs exactly when the count is positive. */
  lemma {:induction false} DiffCountPositive(ov: seq<string>, nv: seq<string>, n: nat)
    ensures DiffCount(ov, nv, n) > 0 <==> exists i :: 0 <= i < n && At(ov, i) != At(nv, i)
  {
    if n > 0 {
      DiffCountPositive(ov, nv, n - 1);
    }
  }

  /** The panel lines `compare_signals` keeps for key `k`: empty when nothing changed. */
  function KeyPanel(k: string, oldSignals: map<string, seq<string>>, newSignals: map<string, seq<string>>,
                    numericDelta: NumericDelta): seq<Line>
  {
    var ov, nv := Get(oldSignals, k), Get(newSignals, k);
    KeyLines(ov, nv, DeltaSuffix(numericDelta), Width(ov, nv))
  }

  /** The panel lines of a key are empty exactly when its old and new lists
      (absent counting as empty) are equal. */
  lemma KeyPanelEmpty(k: string, oldSignals: map<string, seq<string>>, newSignals: map<string, seq<string>>,
                      numericDelta: NumericDelta)
    ensures KeyPanel(k, oldSignals, newSignals, numericDelta) == [] <==> Get(oldSignals, k) == Get(newSignals, k)
  {
    var ov, nv := Get(oldSignals, k), Get(newSignals, k);
    KeyLinesLength(ov, nv, DeltaSuffix(numericDelta), Width(ov, nv));
    DiffCountPositive(ov, nv, Width(ov, nv));
    PaddedEqual(ov, nv);
  }

  /** The panel lines of every key, as `compare_signals` computes them. */
  function KeyPanelOf(oldSignals: map<string, seq<string>>, newSignals: map<string, seq<string>>,
                      numericDelta: NumericDelta): string -> seq<Line>
  {
    k => KeyPanel(k, oldSignals, newSignals, numericDelta)
  }

  /** `compare_signals` over the nine minima keys. */
  function ComparedSignals(oldSignals: map<string, seq<string>>, newSignals: map<string, seq<string>>,
                           numericDelta: NumericDelta): map<string, seq<Line>>
  {
    KeepNonEmpty(MinimaKeys, KeyPanelOf(oldSignals, newSignals, numericDelta))
  }

  /** Remarks are never compared. */
  lemma RemarksNotCompared(oldSignals: map<string, seq<string>>, newSignals: map<string, seq<string>>,
                           numericDelta: NumericDelta)
    ensures Remarks !in ComparedSignals(oldSignals, newSignals, numericDelta)
  {
    assert forall j :: 0 <= j < |MinimaKeys| ==> |MinimaKeys[j]| < |Remarks|;
    KeepNonEmptyEntry(MinimaKeys, KeyPanelOf(oldSignals, newSignals, numericDelta), Remarks);
  }

  /** What `compare_signals` promises: only minima keys appear; a minima key
      appears exactly when its old and new lists differ; its lines are two per
      differing position, in position order. */
  lemma ComparedSignalsShape(oldSignals: map<string, seq<string>>, newSignals: map<string, seq<string>>,
                             numericDelta: NumericDelta, k: string)
    ensures k in ComparedSignals(oldSignals, newSignals, numericDelta) <==>
            k in MinimaKeys && Get(oldSignals, k) != Get(newSignals, k)
    ensures k in ComparedSignals(oldSignals, newSignals, numericDelta) ==>
            ComparedSignals(oldSignals, newSignals, numericDelta)[k]
            == KeyLines(Get(oldSignals, k), Get(newSignals, k), DeltaSuffix(numericDelta),
                        Width(Get(oldSignals, k), Get(newSignals, k)))
  {
    KeepNonEmptyEntry(MinimaKeys, KeyPanelOf(oldSignals, newSignals, numericDelta), k);
    KeyPanelEmpty(k, oldSignals, newSignals, numericDelta);
  }

  /** The body of `compare_signals` for one key: walk the padded positions,
      emit an OLD/NEW pair at each one that differs, and note whether any did.
      The text after a NEW value is given by `suffix`. */
  method CompareKey(ov: seq<string>, nv: seq<string>, suffix: Suffix) returns (changed: bool, lines: seq<Line>)
    ensures lines == KeyLines(ov, nv, suffix, Width(ov, nv))
    ensures changed <==> lines != []
  {
    var n := if |ov| < |nv| then |nv| else |ov|;
    lines := [];
    changed := false;
    var i := 0;
    while i < n
      invariant 0 <= i <= n
      invariant lines == KeyLines(ov, nv, suffix, i)
      invariant changed <==> DiffCount(ov, nv, i) > 0
    {
      var a := if i < |ov| then Some(ov[i]) else None;
      var b := if i < |nv| then Some(nv[i]) else None;
      if a != b {
        changed := true;
        lines := lines + [Line(OldTag, Shown(a))];
        lines := lines + [Line(NewTag, Shown(b) + suffix(a, b))];
      }
      i := i + 1;
    }
    KeyLinesLength(ov, nv, suffix, n);
  }

  /** One turn of the loop of `compare_signals`: a key absent (or empty) on
      both sides is skipped, any other key is compared position by position. */
  method ComparePanel(k: string, oldSignals: map<string, seq<string>>, newSignals: map<string, seq<string>>,
                      numericDelta: NumericDelta) returns (changed: bool, lines: seq<Line>)
    ensures lines == KeyPanel(k, oldSignals, newSignals, numericDelta)
    ensures changed <==> lines != []
  {
    var ov := Get(oldSignals, k);
    var nv := Get(newSignals, k);
    if ov == [] && nv == [] {
      return false, [];
    }
    changed, lines := CompareKey(ov, nv, DeltaSuffix(numericDelta));
  }

  /** The loop of `compare_signals` over the given keys. */
  method ComparePanels(keys: seq<string>, oldSignals: map<string, seq<string>>, newSignals: map<string, seq<string>>,
                       numericDelta: NumericDelta) returns (out: map<string, seq<Line>>)
    ensures out == KeepNonEmpty(keys, KeyPanelOf(oldSignals, newSignals, numericDelta))
  {
    ghost var panels := KeyPanelOf(oldSignals, newSignals, numericDelta);
    out := map[];
    var x := 0;
    while x < |keys|
      invariant 0 <= x <= |keys|
      invariant out == KeepNonEmpty(keys[..x], panels)
    {
      var k := keys[x];
      KeepNonEmptyStep(keys, panels, x);
      var changed, lines := ComparePanel(k, oldSignals, newSignals, numericDelta);
      assert lines == panels(k);
      if changed && lines != [] {
        out := out[k := lines];
      }
      x := x + 1;
    }
    assert keys[..x] == keys;
  }

  /** `compare_signals`: the loop over the nine minima keys. */
  method CompareSignals(oldSignals: map<string, seq<string>>, newSignals: map<string, seq<string>>,
                        numericDelta: NumericDelta) returns (out: map<string, seq<Line>>)
    ensures out == ComparedSignals(oldSignals, newSignals, numericDelta)
  {
    out := ComparePanels(MinimaKeys, oldSignals, newSignals, numericDelta);
  }
}
