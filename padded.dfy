/**
  Two lists compared position by position up to the longer one, a position
  past the end of a list reading as "missing": `ov[i] if i < len(ov) else None`
  in Python, `lines[i]` (`undefined` past the end) in JavaScript.
 */
module Padded {
  import opened Wrappers

  /** Position `i` of a list, or `None` past its end. */
  function At<T>(xs: seq<T>, i: nat): (r: Option<T>)
    ensures r.None? <==> |xs| <= i
    ensures r.Some? ==> r.value == xs[i]
  {
    if i < |xs| then Some(xs[i]) else None
  }

  /** The number of positions compared: the length of the longer list. */
  function Width<T>(xs: seq<T>, ys: seq<T>): nat
  {
    if |xs| < |ys| then |ys| else |xs|
  }

  /** Padding with "missing" up to the longer list makes the lists agree at
      every compared position exactly when they are the same list. */
  lemma PaddedEqual<T>(xs: seq<T>, ys: seq<T>)
    ensures (forall i :: 0 <= i < Width(xs, ys) ==> At(xs, i) == At(ys, i)) <==> xs == ys
  {
    if xs != ys {
      if |xs| == |ys| {
        var i :| 0 <= i < |xs| && xs[i] != ys[i];
        assert At(xs, i) != At(ys, i);
      } else {
        var i := if |xs| < |ys| then |xs| else |ys|;
        assert At(xs, i) != At(ys, i);
      }
    }
  }
}
