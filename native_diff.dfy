/**
  The line-by-line fallback comparison of the native differ: both page texts
  are split on "\n" and compared position by position up to the longer one;
  every position whose lines differ gives a record with its 1-based line
  number and both lines, a missing line shown as the empty string.

  Loading the documents and extracting their text happen before the
  comparison and are not modelled: the model starts from the two texts.
 */
module NativeDiff {
  import opened Wrappers
  import opened Padded

  /** One reported difference: `{ line, old, new }`. */
  datatype LineDiff = LineDiff(line: nat, oldText: string, newText: string)

  // ---------------------------------------------------------------------------
  // String.prototype.split("\n") and its inverse

  /** `s.split("\n")`: the pieces of `s` between newlines, always at least one. */
  function Split(s: string): (r: seq<string>)
    ensures |r| >= 1
  {
    if s == [] then [""]
    else
      var init := Split(s[..|s| - 1]);
      var c := s[|s| - 1];
      if c == '\n' then init + [""]
      else init[..|init| - 1] + [init[|init| - 1] + [c]]
  }

  /** How many newline characters `s` holds. */
  function NewlineCount(s: string): nat
  {
    if s == [] then 0
    else NewlineCount(s[..|s| - 1]) + (if s[|s| - 1] == '\n' then 1 else 0)
  }

  /** `split("\n")` returns one line more than there are newlines. */
  lemma {:induction false} SplitCount(s: string)
    ensures |Split(s)| == NewlineCount(s) + 1
  {
    if s != [] {
      SplitCount(s[..|s| - 1]);
    }
  }

  /** No piece contains a newline. */
  lemma {:induction false} SplitNoNewline(s: string)
    ensures forall i :: 0 <= i < |Split(s)| ==> '\n' !in Split(s)[i]
  {
    if s != [] {
      var init := Split(s[..|s| - 1]);
      SplitNoNewline(s[..|s| - 1]);
      var c := s[|s| - 1];
      if c != '\n' {
        var last := init[|init| - 1] + [c];
        assert '\n' !in last by {
          forall j | 0 <= j < |last| ensures last[j] != '\n' {
            if j < |init[|init| - 1]| { assert last[j] == init[|init| - 1][j]; }
          }
        }
        assert Split(s) == init[..|init| - 1] + [last];
      }
    }
  }

  /** `lines.join("\n")`. */
  function Join(lines: seq<string>): string
    requires lines != []
  {
    if |lines| == 1 then lines[0]
    else Join(lines[..|lines| - 1]) + "\n" + lines[|lines| - 1]
  }

  /** A character other than a newline extends the last piece. */
  lemma SplitSnoc(t: string, c: char)
    requires c != '\n'
    ensures Split(t + [c]) == Split(t)[..|Split(t)| - 1] + [Split(t)[|Split(t)| - 1] + [c]]
  {
    assert (t + [c])[..|t + [c]| - 1] == t;
  }

  /** Extending the last piece twice extends it by both texts. */
  lemma ExtendLastTwice(r: seq<string>, x: string, y: string)
    requires r != []
    ensures var m := r[..|r| - 1] + [r[|r| - 1] + x];
            m[..|m| - 1] + [m[|m| - 1] + y] == r[..|r| - 1] + [r[|r| - 1] + (x + y)]
  {
    var m := r[..|r| - 1] + [r[|r| - 1] + x];
    assert m[..|m| - 1] == r[..|r| - 1];
    assert (r[|r| - 1] + x) + y == r[|r| - 1] + (x + y);
  }

  /** Text without a newline extends the last piece and adds none. */
  lemma {:induction false} SplitAppendPlain(a: string, b: string)
    requires '\n' !in b
    ensures Split(a + b) == Split(a)[..|Split(a)| - 1] + [Split(a)[|Split(a)| - 1] + b]
  {
    if b == [] {
      var last := Split(a)[|Split(a)| - 1];
      assert a + b == a && last + b == last;
    } else {
      var b', c := b[..|b| - 1], b[|b| - 1];
      assert b == b' + [c];
      assert a + b == (a + b') + [c];
      SplitAppendPlain(a, b');
      SplitSnoc(a + b', c);
      ExtendLastTwice(Split(a), b', [c]);
    }
  }

  /** A trailing newline adds one empty piece. */
  lemma SplitNewline(s: string)
    ensures Split(s + "\n") == Split(s) + [""]
  {
    assert (s + "\n")[..|s + "\n"| - 1] == s;
  }

  /** Joining one more line. */
  lemma JoinSnoc(lines: seq<string>, x: string)
    requires lines != []
    ensures Join(lines + [x]) == Join(lines) + "\n" + x
  {
    assert (lines + [x])[..|lines|] == lines;
  }

  /** Extending the last line by a character extends the joined text by it. */
  lemma JoinExtendLast(front: seq<string>, last: string, c: char)
    ensures Join(front + [last + [c]]) == Join(front + [last]) + [c]
  {
    if front != [] {
      JoinSnoc(front, last + [c]);
      JoinSnoc(front, last);
    }
  }

  /** Joining the pieces gives back the text. */
  lemma {:induction false} JoinSplit(s: string)
    ensures Join(Split(s)) == s
  {
    if s != [] {
      var s', c := s[..|s| - 1], s[|s| - 1];
      JoinSplit(s');
      assert s == s' + [c];
      var init := Split(s');
      if c == '\n' {
        SplitNewline(s');
        JoinSnoc(init, "");
      } else {
        var front, last := init[..|init| - 1], init[|init| - 1];
        assert init == front + [last];
        assert Split(s) == front + [last + [c]];
        JoinExtendLast(front, last, c);
      }
    }
  }

  /** Splitting a join of newline-free lines gives back the lines. */
  lemma {:induction false} SplitJoin(lines: seq<string>)
    requires lines != []
    requires forall i :: 0 <= i < |lines| ==> '\n' !in lines[i]
    ensures Split(Join(lines)) == lines
  {
    if |lines| == 1 {
      SplitAppendPlain([], lines[0]);
      assert [] + lines[0] == lines[0];
      assert "" + lines[0] == lines[0];
    } else {
      var init, x := lines[..|lines| - 1], lines[|lines| - 1];
      assert '\n' !in x;
      SplitJoin(init);
      SplitAfterNewline(Join(init), x);
      assert lines == init + [x];
    }
  }

  /** A newline followed by text without one adds that text as one more piece. */
  lemma SplitAfterNewline(a: string, b: string)
    requires '\n' !in b
    ensures Split(a + "\n" + b) == Split(a) + [b]
  {
    SplitNewline(a);
    SplitAppendPlain(a + "\n", b);
    var p := Split(a) + [""];
    assert p[..|p| - 1] == Split(a);
    assert p[|p| - 1] + b == b;
  }

  /** Two texts with the same pieces are the same text. */
  lemma SplitInjective(s: string, t: string)
    ensures Split(s) == Split(t) <==> s == t
  {
    if Split(s) == Split(t) {
      JoinSplit(s);
      JoinSplit(t);
    }
  }

  // ---------------------------------------------------------------------------
  // The comparison loop

  /** `lines[i] || ""`: a missing line shown as the empty string. */
  function OrEmpty(v: Option<string>): string
  {
    match v
    case Some(s) => s
    case None => ""
  }

  /** The records for positions `0 .. n-1`: a record for each position whose
      lines differ (`!==`, so a missing line differs from an empty one),
      with the 1-based line number and both lines. */
  function LineDiffs(lines1: seq<string>, lines2: seq<string>, n: nat): (r: seq<LineDiff>)
    ensures |r| <= n
  {
    if n == 0 then []
    else
      var a, b := At(lines1, n - 1), At(lines2, n - 1);
      LineDiffs(lines1, lines2, n - 1) + (if a != b then [LineDiff(n, OrEmpty(a), OrEmpty(b))] else [])
  }

  /** Every record names a line (1-based, at most `n`) at which the lines
      differ and carries both lines, and records come in increasing line order. */
  lemma {:induction false} LineDiffsSound(lines1: seq<string>, lines2: seq<string>, n: nat)
    ensures forall k :: 0 <= k < |LineDiffs(lines1, lines2, n)| ==>
              var d := LineDiffs(lines1, lines2, n)[k];
              1 <= d.line <= n &&
              At(lines1, d.line - 1) != At(lines2, d.line - 1) &&
              d.oldText == OrEmpty(At(lines1, d.line - 1)) &&
              d.newText == OrEmpty(At(lines2, d.line - 1))
    ensures forall j, k :: 0 <= j < k < |LineDiffs(lines1, lines2, n)| ==>
              LineDiffs(lines1, lines2, n)[j].line < LineDiffs(lines1, lines2, n)[k].line
  {
    if n > 0 {
      LineDiffsSound(lines1, lines2, n - 1);
      var prev := LineDiffs(lines1, lines2, n - 1);
      var r := LineDiffs(lines1, lines2, n);
      assert forall k :: 0 <= k < |prev| ==> r[k] == prev[k];
      assert |r| > |prev| ==> |r| == |prev| + 1 && r[|prev|].line == n;
    }
  }

  /** Every position whose lines differ is reported. */
  lemma {:induction false} LineDiffsComplete(lines1: seq<string>, lines2: seq<string>, n: nat, i: nat)
    requires i < n && At(lines1, i) != At(lines2, i)
    ensures exists k :: 0 <= k < |LineDiffs(lines1, lines2, n)| && LineDiffs(lines1, lines2, n)[k].line == i + 1
  {
    var r := LineDiffs(lines1, lines2, n);
    var prev := LineDiffs(lines1, lines2, n - 1);
    if i == n - 1 {
      assert r[|r| - 1].line == i + 1;
    } else {
      LineDiffsComplete(lines1, lines2, n - 1, i);
      var k :| 0 <= k < |prev| && prev[k].line == i + 1;
      assert r[k] == prev[k];
    }
  }

  /** No record at all exactly when every position below `n` agrees. */
  lemma {:induction false} LineDiffsEmpty(lines1: seq<string>, lines2: seq<string>, n: nat)
    ensures LineDiffs(lines1, lines2, n) == [] <==> forall i :: 0 <= i < n ==> At(lines1, i) == At(lines2, i)
  {
    if n > 0 {
      LineDiffsEmpty(lines1, lines2, n - 1);
    }
  }

  /** The result of `diffNative` for two page texts. */
  function NativeDiff(text1: string, text2: string): seq<LineDiff>
  {
    var lines1, lines2 := Split(text1), Split(text2);
    LineDiffs(lines1, lines2, Width(lines1, lines2))
  }

  /** `diffNative`, from the split texts to the returned records. */
  method DiffNative(text1: string, text2: string) returns (diffs: seq<LineDiff>)
    ensures diffs == NativeDiff(text1, text2)
  {
    diffs := [];
    var lines1 := Split(text1);
    var lines2 := Split(text2);
    var maxLen := if |lines1| < |lines2| then |lines2| else |lines1|;
    for i := 0 to maxLen
      invariant diffs == LineDiffs(lines1, lines2, i)
    {
      var a := if i < |lines1| then Some(lines1[i]) else None;
      var b := if i < |lines2| then Some(lines2[i]) else None;
      if a != b {
        diffs := diffs + [LineDiff(i + 1, OrEmpty(a), OrEmpty(b))];
      }
    }
  }

  /** Every line at which the two texts differ is reported (that the records
      report nothing else is `LineDiffsSound`). */
  lemma NativeDiffComplete(text1: string, text2: string, i: nat)
    requires i < Width(Split(text1), Split(text2)) && At(Split(text1), i) != At(Split(text2), i)
    ensures exists k :: 0 <= k < |NativeDiff(text1, text2)| && NativeDiff(text1, text2)[k].line == i + 1
  {
    var lines1, lines2 := Split(text1), Split(text2);
    var r := LineDiffs(lines1, lines2, Width(lines1, lines2));
    assert NativeDiff(text1, text2) == r;
    LineDiffsComplete(lines1, lines2, Width(lines1, lines2), i);
    var k :| 0 <= k < |r| && r[k].line == i + 1;
    assert NativeDiff(text1, text2)[k].line == i + 1;
  }

  /** No record is reported exactly when the two texts are identical. */
  lemma NativeDiffEmpty(text1: string, text2: string)
    ensures NativeDiff(text1, text2) == [] <==> text1 == text2
  {
    var lines1, lines2 := Split(text1), Split(text2);
    LineDiffsEmpty(lines1, lines2, Width(lines1, lines2));
    PaddedEqual(lines1, lines2);
    SplitInjective(text1, text2);
  }

  /** A text and the same text with one more newline differ in a single
      record whose old and new lines are both shown as empty: the missing line
      and the empty line are different, but `|| ""` shows both as "". */
  lemma TrailingNewline(text: string)
    ensures NativeDiff(text, text + "\n") == [LineDiff(|Split(text)| + 1, "", "")]
  {
    var lines := Split(text);
    SplitNewline(text);
    LineDiffsExtraEmpty(lines);
    assert Width(lines, lines + [""]) == |lines| + 1;
  }

  /** Lines that agree except for one extra empty line at the end differ only there. */
  lemma LineDiffsExtraEmpty(lines: seq<string>)
    ensures LineDiffs(lines, lines + [""], |lines| + 1) == [LineDiff(|lines| + 1, "", "")]
  {
    var longer := lines + [""];
    var n := |lines|;
    forall i | 0 <= i < n
      ensures At(lines, i) == At(longer, i)
    {
      assert longer[i] == lines[i];
    }
    LineDiffsEmpty(lines, longer, n);
    var a, b := At(lines, n), At(longer, n);
    assert a == None && b == Some("") by {
      assert longer[n] == "";
    }
    assert OrEmpty(a) == "" && OrEmpty(b) == "";
  }
}
