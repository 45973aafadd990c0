/**
  The label shortening of the diff engine: a text has its whitespace
  collapsed (`" ".join(s.split())`) and, when still longer than the limit,
  is cut and ended with an ellipsis.
 */
module DiffEngine {
  import opened PyText

  // ---------------------------------------------------------------------------
  // str.split() and " ".join(...)

  /** A piece that `str.split()` can return: non-empty, without whitespace. */
  predicate IsWord(w: string)
  {
    w != [] && forall j :: 0 <= j < |w| ==> !IsSpace(w[j])
  }

  /** How many non-whitespace characters `s` starts with. */
  function WordLength(s: string): (k: nat)
    ensures k <= |s|
    ensures forall i :: 0 <= i < k ==> !IsSpace(s[i])
    ensures k == |s| || IsSpace(s[k])
  {
    if s != [] && !IsSpace(s[0]) then 1 + WordLength(s[1..]) else 0
  }

  /** `s.split()`: the maximal runs of non-whitespace characters, in order. */
  function Words(s: string): (r: seq<string>)
    ensures forall i {:trigger r[i]} :: 0 <= i < |r| ==> IsWord(r[i])
    decreases |s|
  {
    var lead := LeadingSpaces(s);
    if lead == |s| then []
    else
      var rest := s[lead..];
      var k := WordLength(rest);
      [rest[..k]] + Words(rest[k..])
  }

  /** `" ".join(words)`. */
  function JoinWords(words: seq<string>): string
  {
    if words == [] then []
    else if |words| == 1 then words[0]
    else words[0] + " " + JoinWords(words[1..])
  }

  /** `" ".join(s.split())`. */
  function Normalize(s: string): string
  {
    JoinWords(Words(s))
  }

  /** A text as `Normalize` leaves it: it neither starts nor ends with
      whitespace, its only whitespace is the plain space, and no two
      whitespace characters are adjacent. */
  ghost predicate IsNormalized(t: string)
  {
    (t != [] ==> !IsSpace(t[0]) && !IsSpace(t[|t| - 1])) &&
    (forall i :: 0 <= i < |t| && IsSpace(t[i]) ==> t[i] == ' ') &&
    (forall i, j {:trigger t[i], t[j]} :: 0 <= i < j < |t| && j == i + 1 ==> !IsSpace(t[i]) || !IsSpace(t[j]))
  }

  /** The non-whitespace characters of `s`, in order. */
  function NonSpace(s: string): string
  {
    if s == [] then [] else (if IsSpace(s[0]) then [] else [s[0]]) + NonSpace(s[1..])
  }

  /** The words one after another, with nothing between them. */
  function Concat(words: seq<string>): string
  {
    if words == [] then [] else words[0] + Concat(words[1..])
  }

  lemma {:induction false} NonSpaceAppend(a: string, b: string)
    ensures NonSpace(a + b) == NonSpace(a) + NonSpace(b)
  {
    if a == [] {
      assert a + b == b;
    } else {
      assert (a + b)[0] == a[0];
      assert (a + b)[1..] == a[1..] + b;
      NonSpaceAppend(a[1..], b);
    }
  }

  lemma {:induction false} NonSpaceOfSpaces(s: string)
    requires forall i :: 0 <= i < |s| ==> IsSpace(s[i])
    ensures NonSpace(s) == []
  {
    if s != [] {
      NonSpaceOfSpaces(s[1..]);
    }
  }

  lemma {:induction false} NonSpaceOfWord(s: string)
    requires forall i :: 0 <= i < |s| ==> !IsSpace(s[i])
    ensures NonSpace(s) == s
  {
    if s != [] {
      NonSpaceOfWord(s[1..]);
      assert s == [s[0]] + s[1..];
    }
  }

  /** Splitting keeps every non-whitespace character, in order. */
  lemma {:induction false} NonSpaceWords(s: string)
    ensures NonSpace(s) == Concat(Words(s))
    decreases |s|
  {
    var lead := LeadingSpaces(s);
    assert NonSpace(s) == NonSpace(s[lead..]) by {
      assert s == s[..lead] + s[lead..];
      NonSpaceAppend(s[..lead], s[lead..]);
      NonSpaceOfSpaces(s[..lead]);
    }
    if lead < |s| {
      var rest := s[lead..];
      var k := WordLength(rest);
      assert NonSpace(rest) == rest[..k] + NonSpace(rest[k..]) by {
        assert rest == rest[..k] + rest[k..];
        NonSpaceAppend(rest[..k], rest[k..]);
        NonSpaceOfWord(rest[..k]);
      }
      NonSpaceWords(rest[k..]);
      var ws := Words(rest[k..]);
      assert Words(s) == [rest[..k]] + ws;
      assert Concat([rest[..k]] + ws) == rest[..k] + Concat(ws) by {
        assert ([rest[..k]] + ws)[1..] == ws;
      }
    } else {
      assert s[lead..] == [];
    }
  }

  /** Joining with spaces keeps every character of the words and adds only whitespace. */
  lemma {:induction false} NonSpaceJoin(words: seq<string>)
    requires forall i :: 0 <= i < |words| ==> IsWord(words[i])
    ensures NonSpace(JoinWords(words)) == Concat(words)
  {
    if words != [] {
      assert IsWord(words[0]);
      NonSpaceOfWord(words[0]);
      if |words| == 1 {
        assert Concat(words[1..]) == [];
        assert words[0] + [] == words[0];
      } else {
        NonSpaceJoin(words[1..]);
        NonSpaceAppend(words[0] + " ", JoinWords(words[1..]));
        NonSpaceAppend(words[0], " ");
        assert IsSpace(' ');
        assert NonSpace(" ") == [];
      }
    }
  }

  /** Collapsing whitespace loses no other character and reorders nothing. */
  lemma NormalizeKeepsText(s: string)
    ensures NonSpace(Normalize(s)) == NonSpace(s)
  {
    NonSpaceWords(s);
    NonSpaceJoin(Words(s));
  }

  /** Words joined with single spaces form a normalized text. */
  lemma {:induction false} JoinWordsNormalized(words: seq<string>)
    requires forall i :: 0 <= i < |words| ==> IsWord(words[i])
    ensures IsNormalized(JoinWords(words))
    ensures words != [] ==> JoinWords(words) != []
  {
    if |words| == 1 {
      assert IsWord(words[0]);
    } else if |words| > 1 {
      assert IsWord(words[0]) && IsWord(words[1]);
      JoinWordsNormalized(words[1..]);
      WordSpaceNormalized(words[0], JoinWords(words[1..]));
    }
  }

  /** A word, a space and a non-empty normalized text make a normalized text. */
  lemma WordSpaceNormalized(w: string, rest: string)
    requires IsWord(w) && IsNormalized(rest) && rest != []
    ensures IsNormalized(w + " " + rest)
  {
    var t := w + " " + rest;
    assert t[0] == w[0] && t[|t| - 1] == rest[|rest| - 1];
    forall i | 0 <= i < |t| && IsSpace(t[i])
      ensures t[i] == ' '
    {
      if i > |w| {
        assert t[i] == rest[i - |w| - 1];
      }
    }
    forall i, j | 0 <= i < j < |t| && j == i + 1
      ensures !IsSpace(t[i]) || !IsSpace(t[j])
    {
      if i < |w| {
        assert t[i] == w[i];
      } else if i == |w| {
        assert t[j] == rest[0];
      } else {
        assert t[i] == rest[i - |w| - 1] && t[j] == rest[j - |w| - 1];
      }
    }
  }

  /** `Normalize` yields a normalized text. */
  lemma NormalizeIsNormalized(s: string)
    ensures IsNormalized(Normalize(s))
  {
    JoinWordsNormalized(Words(s));
  }

  /** A text starting with a word splits into that word and the words of the rest. */
  lemma WordsOfWordFirst(t: string)
    requires t != [] && !IsSpace(t[0])
    ensures Words(t) == [t[..WordLength(t)]] + Words(t[WordLength(t)..])
  {
    assert LeadingSpaces(t) == 0;
    assert t[0..] == t;
  }

  /** One space before a word does not change the split. */
  lemma WordsAfterSpace(u: string)
    requires |u| >= 2 && IsSpace(u[0]) && !IsSpace(u[1])
    ensures Words(u) == Words(u[1..])
  {
    assert LeadingSpaces(u[1..]) == 0;
    assert LeadingSpaces(u) == 1;
    assert u[1..][0..] == u[1..];
  }

  /** What follows the first space of a normalized text is normalized. */
  lemma NormalizedAfterSpace(t: string, k: nat)
    requires IsNormalized(t) && k < |t| && IsSpace(t[k])
    ensures t[k] == ' ' && k + 1 < |t| && !IsSpace(t[k + 1])
    ensures IsNormalized(t[k + 1..])
  {
    var tail := t[k + 1..];
    assert k < |t| - 1;
    assert tail[0] == t[k + 1] && tail[|tail| - 1] == t[|t| - 1];
    forall i | 0 <= i < |tail| && IsSpace(tail[i])
      ensures tail[i] == ' '
    {
      assert tail[i] == t[k + 1 + i];
    }
    forall i, j | 0 <= i < j < |tail| && j == i + 1
      ensures !IsSpace(tail[i]) || !IsSpace(tail[j])
    {
      assert tail[i] == t[k + 1 + i] && tail[j] == t[k + 1 + j];
    }
  }

  /** Joining a word in front of a non-empty list of words. */
  lemma JoinWordsCons(w: string, words: seq<string>)
    requires words != []
    ensures JoinWords([w] + words) == w + " " + JoinWords(words)
  {
    assert ([w] + words)[1..] == words;
  }

  /** A text is its part before position `k`, the space there, and the rest. */
  lemma AroundSpace(t: string, k: nat)
    requires k < |t| && t[k] == ' '
    ensures t == t[..k] + " " + t[k + 1..]
  {
    assert t[k..] == [t[k]] + t[k + 1..];
    assert t == t[..k] + t[k..];
  }

  /** A normalized text is left as it is. */
  lemma {:induction false} NormalizedFixpoint(t: string)
    requires IsNormalized(t)
    ensures Normalize(t) == t
    decreases |t|
  {
    if t != [] {
      WordsOfWordFirst(t);
      var k := WordLength(t);
      if k == |t| {
        assert t[..k] == t;
        assert t[k..] == [];
        assert Words(t[k..]) == [];
      } else {
        NormalizedAfterSpace(t, k);
        var tail := t[k + 1..];
        assert t[k..][1..] == tail;
        WordsAfterSpace(t[k..]);
        NormalizedFixpoint(tail);
        WordsOfWordFirst(tail);
        JoinWordsCons(t[..k], Words(tail));
        AroundSpace(t, k);
      }
    }
  }

  /** A single word splits into itself. */
  lemma WordsOfWord(w: string)
    requires IsWord(w)
    ensures Words(w) == [w]
  {
    WordsOfWordFirst(w);
    assert WordLength(w) == |w|;
    assert w[..|w|] == w && w[|w|..] == [];
    assert LeadingSpaces([]) == 0;
  }

  /** A word followed by a single space and another word. */
  lemma WordsOfWordThenSpace(w: string, v: string)
    requires IsWord(w) && v != [] && !IsSpace(v[0])
    ensures Words(w + " " + v) == [w] + Words(v)
  {
    var u := " " + v;
    assert u[0] == ' ' && u[1] == v[0] && u[1..] == v;
    var t := w + u;
    assert t == w + " " + v;
    assert IsSpace(' ');
    forall i | 0 <= i < |w| ensures !IsSpace(t[i]) { assert t[i] == w[i]; }
    assert t[0] == w[0] && t[|w|] == u[0];
    WordsOfWordFirst(t);
    assert WordLength(t) == |w|;
    assert t[..|w|] == w && t[|w|..] == u;
    WordsAfterSpace(u);
  }

  /** Splitting words joined with single spaces gives back the words. */
  lemma {:induction false} WordsJoin(words: seq<string>)
    requires forall i :: 0 <= i < |words| ==> IsWord(words[i])
    ensures Words(JoinWords(words)) == words
  {
    if words == [] {
      assert LeadingSpaces([]) == 0;
    } else if |words| == 1 {
      WordsOfWord(words[0]);
    } else {
      WordsJoin(words[1..]);
      JoinWordsNormalized(words[1..]);
      WordsJoinCons(words[0], words[1..]);
      assert words == [words[0]] + words[1..];
    }
  }

  /** The step of `WordsJoin`: one more word in front. */
  lemma WordsJoinCons(w: string, rest: seq<string>)
    requires IsWord(w) && rest != []
    requires JoinWords(rest) != [] && !IsSpace(JoinWords(rest)[0])
    requires Words(JoinWords(rest)) == rest
    ensures Words(JoinWords([w] + rest)) == [w] + rest
  {
    WordsOfWordThenSpace(w, JoinWords(rest));
    JoinWordsCons(w, rest);
  }

  /** A whitespace character in front does not change the split. */
  lemma WordsSpaceFront(c: char, b: string)
    requires IsSpace(c)
    ensures Words([c] + b) == Words(b)
  {
    var t := [c] + b;
    assert t[1..] == b;
    var lead := LeadingSpaces(b);
    assert LeadingSpaces(t) == 1 + lead;
    assert t[1 + lead..] == b[lead..];
  }

  /** A word run that ends before whitespace is not lengthened by what follows. */
  lemma {:induction false} WordLengthAppend(a: string, x: string)
    requires WordLength(a) < |a| || (x != [] && IsSpace(x[0]))
    ensures WordLength(a + x) == WordLength(a)
    decreases |a|
  {
    if a == [] {
      assert a + x == x;
    } else if !IsSpace(a[0]) {
      assert (a + x)[0] == a[0] && (a + x)[1..] == a[1..] + x;
      WordLengthAppend(a[1..], x);
    } else {
      assert (a + x)[0] == a[0];
    }
  }

  /** `str.split()` breaks at every whitespace character: the words of a text
      with a whitespace character inside are the words before it followed by
      the words after it. With `WordsOfWord` this fixes the split completely. */
  lemma {:induction false} WordsAroundSpace(a: string, c: char, b: string)
    requires IsSpace(c)
    ensures Words(a + [c] + b) == Words(a) + Words(b)
    decreases |a|
  {
    if a == [] {
      assert a + [c] + b == [c] + b;
      WordsSpaceFront(c, b);
      assert LeadingSpaces(a) == 0;
    } else if IsSpace(a[0]) {
      WordsAroundSpace(a[1..], c, b);
      LeadingSpaceStep(a, c, b);
    } else {
      WordsAroundSpace(a[WordLength(a)..], c, b);
      LeadingWordStep(a, c, b);
    }
  }

  /** The step of `WordsAroundSpace` when `a` starts with whitespace. */
  lemma LeadingSpaceStep(a: string, c: char, b: string)
    requires a != [] && IsSpace(a[0])
    requires Words(a[1..] + [c] + b) == Words(a[1..]) + Words(b)
    ensures Words(a + [c] + b) == Words(a) + Words(b)
  {
    TailAroundChar(a, c, b);
    WordsDropSpace(a + [c] + b);
    WordsDropSpace(a);
  }

  /** Dropping the first character of `a + [c] + b`, with `a` non-empty. */
  lemma TailAroundChar(a: string, c: char, b: string)
    requires a != []
    ensures (a + [c] + b)[0] == a[0] && (a + [c] + b)[1..] == a[1..] + [c] + b
  {
  }

  /** A leading whitespace character does not change the split. */
  lemma WordsDropSpace(t: string)
    requires t != [] && IsSpace(t[0])
    ensures Words(t) == Words(t[1..])
  {
    assert t == [t[0]] + t[1..];
    WordsSpaceFront(t[0], t[1..]);
  }

  /** The step of `WordsAroundSpace` when `a` starts with a word. */
  lemma LeadingWordStep(a: string, c: char, b: string)
    requires IsSpace(c) && a != [] && !IsSpace(a[0])
    requires Words(a[WordLength(a)..] + [c] + b) == Words(a[WordLength(a)..]) + Words(b)
    ensures Words(a + [c] + b) == Words(a) + Words(b)
  {
    var k := WordLength(a);
    CutAroundChar(a, c, b, k);
    WordLengthAppend(a, [c] + b);
    WordsOfWordFirst(a + [c] + b);
    WordsOfWordFirst(a);
    ConsAppend(a[..k], Words(a[k..]), Words(b));
  }

  /** Cutting `a + [c] + b` at a position `k` inside `a`. */
  lemma CutAroundChar(a: string, c: char, b: string, k: nat)
    requires k <= |a|
    ensures a + [c] + b == a + ([c] + b)
    ensures a != [] ==> (a + [c] + b)[0] == a[0]
    ensures (a + [c] + b)[..k] == a[..k] && (a + [c] + b)[k..] == a[k..] + [c] + b
  {
  }

  /** Putting an element in front of a concatenation. */
  lemma ConsAppend<T>(x: T, xs: seq<T>, ys: seq<T>)
    ensures [x] + (xs + ys) == ([x] + xs) + ys
  {
  }

  /** Joining two non-empty word lists puts one space between their joins. */
  lemma {:induction false} JoinWordsAppend(xs: seq<string>, ys: seq<string>)
    requires xs != [] && ys != []
    ensures JoinWords(xs + ys) == JoinWords(xs) + " " + JoinWords(ys)
  {
    if |xs| == 1 {
      assert xs + ys == [xs[0]] + ys;
      JoinWordsCons(xs[0], ys);
    } else {
      JoinWordsAppend(xs[1..], ys);
      assert xs + ys == [xs[0]] + (xs[1..] + ys);
      assert xs == [xs[0]] + xs[1..];
      JoinWordsCons(xs[0], xs[1..] + ys);
      JoinWordsCons(xs[0], xs[1..]);
    }
  }

  /** A whitespace character between two texts that both hold words becomes a
      single space; next to a text without words it disappears. */
  lemma NormalizeAroundSpace(a: string, c: char, b: string)
    requires IsSpace(c)
    ensures Words(a) != [] && Words(b) != [] ==> Normalize(a + [c] + b) == Normalize(a) + " " + Normalize(b)
    ensures Words(a) == [] ==> Normalize(a + [c] + b) == Normalize(b)
    ensures Words(b) == [] ==> Normalize(a + [c] + b) == Normalize(a)
  {
    WordsAroundSpace(a, c, b);
    if Words(a) == [] {
      assert Words(a) + Words(b) == Words(b);
    }
    if Words(b) == [] {
      assert Words(a) + Words(b) == Words(a);
    }
    if Words(a) != [] && Words(b) != [] {
      JoinWordsAppend(Words(a), Words(b));
    }
  }

  /** Collapsing whitespace twice is collapsing it once. */
  lemma NormalizeIdempotent(s: string)
    ensures Normalize(Normalize(s)) == Normalize(s)
  {
    NormalizeIsNormalized(s);
    NormalizedFixpoint(Normalize(s));
  }

  // ---------------------------------------------------------------------------
  // _short

  /** The default length limit of `_short`. */
  const DefaultLimit: int := 240

  /** The ellipsis `_short` is meant to end a cut text with (U+2026). */
  const Ellipsis: string := "\U{2026}"

  /** The three characters the source literally appends: the UTF-8 bytes of
      U+2026 read back as Windows-1252 text. */
  const EllipsisAsWritten: string := "\U{E2}\U{20AC}\U{A6}"

  /** Python's `s[:k]`: a negative `k` counts from the end. */
  function PyPrefix(s: string, k: int): (r: string)
    ensures 0 <= k <= |s| ==> r == s[..k]
    ensures |s| < k ==> r == s
    ensures k < 0 ==> r == s[..if |s| + k < 0 then 0 else |s| + k]
  {
    if 0 <= k then (if k <= |s| then s[..k] else s)
    else if |s| + k < 0 then []
    else s[..|s| + k]
  }

  /** `_short` with the cut text ended by `tail`: whitespace collapsed, then
      cut to `s[:n-1] + tail` when longer than `n`. */
  function ShortWith(s: string, n: int, tail: string): string
  {
    var t := Normalize(s);
    if |t| <= n then t else PyPrefix(t, n - 1) + tail
  }

  /** `_short` as written: the cut text ends with `EllipsisAsWritten`. */
  function ShortAsWritten(s: string, n: int): string
  {
    ShortWith(s, n, EllipsisAsWritten)
  }

  /** `_short` with the ellipsis it evidently means: the result never exceeds
      `n` characters for a positive `n`. */
  function Short(s: string, n: int): string
  {
    ShortWith(s, n, Ellipsis)
  }

  /** The written ellipsis is three characters, so a cut text ends up two
      characters over the limit. */
  lemma ShortAsWrittenOverruns(s: string, n: int)
    requires 1 <= n < |Normalize(s)|
    ensures |ShortAsWritten(s, n)| == n + 2
    ensures ShortAsWritten(s, n) == Normalize(s)[..n - 1] + EllipsisAsWritten
  {
  }

  /** A run of the letter `a` is normalized. */
  lemma LettersNormalized(s: string)
    requires forall i :: 0 <= i < |s| ==> s[i] == 'a'
    ensures IsNormalized(s)
  {
    NotInRanges('a', WhitespaceRanges);
  }

  /** A text of 241 letters, cut at the default limit of 240, comes out 242 long. */
  lemma ShortAsWrittenExample()
    ensures var s := seq(241, _ => 'a'); |ShortAsWritten(s, DefaultLimit)| == DefaultLimit + 2
  {
    var s := seq(241, _ => 'a');
    LettersNormalized(s);
    NormalizedFixpoint(s);
    ShortAsWrittenOverruns(s, DefaultLimit);
  }

  /** What `_short` promises for a positive limit: a text that fits comes
      back normalized and whole, as written and as meant; a longer one is its
      first `n - 1` characters and an ellipsis, exactly `n` long. */
  lemma ShortShape(s: string, n: int)
    requires 1 <= n
    ensures |Normalize(s)| <= n ==> Short(s, n) == Normalize(s) && ShortAsWritten(s, n) == Normalize(s)
    ensures n < |Normalize(s)| ==> Short(s, n) == Normalize(s)[..n - 1] + Ellipsis && |Short(s, n)| == n
    ensures |Short(s, n)| <= n
  {
  }

  /** For a limit of zero or below, `s[:n-1]` counts from the end: a text
      longer than the limit loses its last `1 - n` characters (all of them
      when it is shorter) before the ellipsis is appended. */
  lemma ShortNonPositive(s: string, n: int)
    requires n <= 0
    ensures var t := Normalize(s); var keep := if |t| + n - 1 < 0 then 0 else |t| + n - 1;
            (|t| <= n ==> t == [] && Short(s, n) == []) &&
            (n < |t| ==> Short(s, n) == t[..keep] + Ellipsis && ShortAsWritten(s, n) == t[..keep] + EllipsisAsWritten)
  {
  }

  /** A normalized text cut anywhere and ended with a word is normalized. */
  lemma CutNormalized(t: string, m: nat, tail: string)
    requires IsNormalized(t) && m <= |t| && IsWord(tail)
    ensures IsNormalized(t[..m] + tail)
  {
    var r := t[..m] + tail;
    assert forall i :: 0 <= i < m ==> r[i] == t[i];
    assert forall i :: m <= i < |r| ==> r[i] == tail[i - m];
  }

  /** Both ellipses are words: non-empty and free of whitespace. */
  lemma EllipsesAreWords()
    ensures IsWord(Ellipsis) && |Ellipsis| == 1
    ensures IsWord(EllipsisAsWritten) && |EllipsisAsWritten| == 3
  {
    NotInRanges(Ellipsis[0], WhitespaceRanges);
    NotInRanges(EllipsisAsWritten[0], WhitespaceRanges);
    NotInRanges(EllipsisAsWritten[1], WhitespaceRanges);
    NotInRanges(EllipsisAsWritten[2], WhitespaceRanges);
  }

  /** Whatever the limit, even zero or negative, the shortened text is in
      collapsed form when the text appended after a cut is a word. */
  lemma ShortWithNormalized(s: string, n: int, tail: string)
    requires IsWord(tail)
    ensures IsNormalized(ShortWith(s, n, tail))
  {
    var t := Normalize(s);
    NormalizeIsNormalized(s);
    if n < |t| {
      var m := if 0 <= n - 1 then n - 1 else if |t| + n - 1 < 0 then 0 else |t| + n - 1;
      assert PyPrefix(t, n - 1) == t[..m];
      CutNormalized(t, m, tail);
    }
  }

  /** The shortened text is in collapsed form, as written and as meant. */
  lemma ShortNormalized(s: string, n: int)
    ensures IsNormalized(Short(s, n))
    ensures IsNormalized(ShortAsWritten(s, n))
  {
    EllipsesAreWords();
    ShortWithNormalized(s, n, Ellipsis);
    ShortWithNormalized(s, n, EllipsisAsWritten);
  }

  /** For a positive limit, shortening a shortened text changes nothing, for
      any word appended after a cut: a cut text either fits now or is cut
      again at the same place. */
  lemma ShortWithIdempotent(s: string, n: int, tail: string)
    requires 1 <= n && IsWord(tail)
    ensures ShortWith(ShortWith(s, n, tail), n, tail) == ShortWith(s, n, tail)
  {
    var t := Normalize(s);
    var r := ShortWith(s, n, tail);
    ShortWithNormalized(s, n, tail);
    NormalizedFixpoint(r);
    if n < |t| && n < |r| {
      assert r[..n - 1] == t[..n - 1];
    }
  }

  /** Shortening a shortened text changes nothing, as written and as meant. */
  lemma ShortIdempotent(s: string, n: int)
    requires 1 <= n
    ensures Short(Short(s, n), n) == Short(s, n)
    ensures ShortAsWritten(ShortAsWritten(s, n), n) == ShortAsWritten(s, n)
  {
    EllipsesAreWords();
    ShortWithIdempotent(s, n, Ellipsis);
    ShortWithIdempotent(s, n, EllipsisAsWritten);
  }
}
