/**
 * traceToFinalState (com13wjets.cc, com100wjets.cc): descend through each
 * entry's inclusive daughter range, skipping indices outside 1..|ev|-1, and
 * append every final-state descendant to an output vector. The vector is an
 * accumulator here, as it is an in/out parameter in the source.
 */
module DecayWalker {
  import opened EventRecord

  /** Appends to `acc` the final-state descendants of entry `i`, depth first. */
  function Trace(ev: Event, i: int, acc: seq<int>): (r: seq<int>)
    requires DaughtersForward(ev) && 0 <= i < |ev|
    ensures acc <= r
    ensures forall k :: |acc| <= k < |r| ==> i <= r[k] < |ev| && ev[r[k]].isFinal
    ensures forall k :: |acc| <= k < |r| && r[k] != i ==> 0 < r[k]
    decreases |ev| - i, 1
  {
    if ev[i].isFinal then acc + [i]
    else TraceDaughters(ev, i, ev[i].daughter1, acc)
  }

  /** The `for (d = daughter1; d <= daughter2; ++d)` loop of entry `i`, from `d` on. */
  function TraceDaughters(ev: Event, i: int, d: int, acc: seq<int>): (r: seq<int>)
    requires DaughtersForward(ev) && 0 <= i < |ev| && !ev[i].isFinal && ev[i].daughter1 <= d
    ensures acc <= r
    ensures forall k :: |acc| <= k < |r| ==> i < r[k] < |ev| && ev[r[k]].isFinal
    decreases |ev| - i, 0, ev[i].daughter2 - d + 1
  {
    if d > ev[i].daughter2 then acc
    else
      var acc' := if 0 < d < |ev| then (assert VisitsDaughter(ev, i, d); Trace(ev, d, acc)) else acc;
      TraceDaughters(ev, i, d + 1, acc')
  }

  /** What tracing `i` appends, whatever the vector held before. */
  function Descendants(ev: Event, i: int): seq<int>
    requires DaughtersForward(ev) && 0 <= i < |ev|
  {
    Trace(ev, i, [])
  }

  /** Tracing a final-state entry appends exactly its own index. */
  lemma TraceFinal(ev: Event, i: int, acc: seq<int>)
    requires DaughtersForward(ev) && 0 <= i < |ev| && ev[i].isFinal
    ensures Trace(ev, i, acc) == acc + [i]
  {
  }

  /** A non-final entry whose daughter range reaches no valid index appends nothing. */
  lemma {:induction false} TraceNoDaughters(ev: Event, i: int, acc: seq<int>)
    requires DaughtersForward(ev) && 0 <= i < |ev| && !ev[i].isFinal
    requires forall d :: !VisitsDaughter(ev, i, d)
    ensures Trace(ev, i, acc) == acc
  {
    NoDaughtersFrom(ev, i, ev[i].daughter1, acc);
  }

  lemma {:induction false} NoDaughtersFrom(ev: Event, i: int, d: int, acc: seq<int>)
    requires DaughtersForward(ev) && 0 <= i < |ev| && !ev[i].isFinal && ev[i].daughter1 <= d
    requires forall e :: !VisitsDaughter(ev, i, e)
    ensures TraceDaughters(ev, i, d, acc) == acc
    decreases ev[i].daughter2 - d + 1
  {
    if d <= ev[i].daughter2 {
      assert !VisitsDaughter(ev, i, d);
      NoDaughtersFrom(ev, i, d + 1, acc);
    }
  }

  /** The walker only appends: the result is the old contents followed by a
      part that does not depend on them. */
  lemma {:induction false} TraceAppends(ev: Event, i: int, acc: seq<int>)
    requires DaughtersForward(ev) && 0 <= i < |ev|
    ensures Trace(ev, i, acc) == acc + Descendants(ev, i)
    decreases |ev| - i, 1
  {
    if !ev[i].isFinal {
      DaughtersAppend(ev, i, ev[i].daughter1, acc);
      DaughtersAppend(ev, i, ev[i].daughter1, []);
    }
  }

  lemma {:induction false} DaughtersAppend(ev: Event, i: int, d: int, acc: seq<int>)
    requires DaughtersForward(ev) && 0 <= i < |ev| && !ev[i].isFinal && ev[i].daughter1 <= d
    ensures TraceDaughters(ev, i, d, acc) == acc + TraceDaughters(ev, i, d, [])
    decreases |ev| - i, 0, ev[i].daughter2 - d + 1
  {
    if d <= ev[i].daughter2 {
      if 0 < d < |ev| {
        assert VisitsDaughter(ev, i, d);
        var t := Descendants(ev, d);
        TraceAppends(ev, d, acc);
        TraceAppends(ev, d, []);
        DaughtersAppend(ev, i, d + 1, acc + t);
        DaughtersAppend(ev, i, d + 1, t);
      } else {
        DaughtersAppend(ev, i, d + 1, acc);
        DaughtersAppend(ev, i, d + 1, []);
      }
    }
  }

  /** The daughters the loop of entry `i` visits from `d` on, in the order it visits them. */
  function VisitedFrom(ev: Event, i: int, d: int): (ds: seq<int>)
    requires 0 <= i < |ev| && ev[i].daughter1 <= d
    ensures forall a :: 0 <= a < |ds| ==> d <= ds[a] && VisitsDaughter(ev, i, ds[a])
    ensures Increasing(ds)
    decreases ev[i].daughter2 - d + 1
  {
    if d > ev[i].daughter2 then []
    else (if 0 < d < |ev| then [d] else []) + VisitedFrom(ev, i, d + 1)
  }

  /** Concatenation of the descendants of each entry of `ds`, in order. */
  function ConcatDescendants(ev: Event, ds: seq<int>): seq<int>
    requires DaughtersForward(ev)
    requires forall a :: 0 <= a < |ds| ==> 0 <= ds[a] < |ev|
  {
    if |ds| == 0 then [] else Descendants(ev, ds[0]) + ConcatDescendants(ev, ds[1..])
  }

  /** Decomposition: a non-final entry's descendants are those of the daughters
      it visits — only indices in 1..|ev|-1, in ascending order — concatenated. */
  lemma {:induction false} TraceDecomposes(ev: Event, i: int)
    requires DaughtersForward(ev) && 0 <= i < |ev| && !ev[i].isFinal
    ensures Descendants(ev, i) == ConcatDescendants(ev, VisitedFrom(ev, i, ev[i].daughter1))
  {
    DaughtersConcat(ev, i, ev[i].daughter1);
  }

  lemma {:induction false} DaughtersConcat(ev: Event, i: int, d: int)
    requires DaughtersForward(ev) && 0 <= i < |ev| && !ev[i].isFinal && ev[i].daughter1 <= d
    ensures TraceDaughters(ev, i, d, []) == ConcatDescendants(ev, VisitedFrom(ev, i, d))
    decreases ev[i].daughter2 - d + 1
  {
    if d <= ev[i].daughter2 {
      DaughtersConcat(ev, i, d + 1);
      var rest := VisitedFrom(ev, i, d + 1);
      if 0 < d < |ev| {
        assert VisitsDaughter(ev, i, d);
        var t := Descendants(ev, d);
        DaughtersAppend(ev, i, d + 1, t);
        assert VisitedFrom(ev, i, d) == [d] + rest;
        assert ([d] + rest)[1..] == rest;
      } else {
        assert VisitedFrom(ev, i, d) == rest;
      }
    }
  }

  /** Reference definition: `k` is a final-state descendant of `i`, reached by
      following visited daughters from non-final entries. */
  ghost predicate ReachesFinal(ev: Event, i: int, k: int)
    requires DaughtersForward(ev) && 0 <= i < |ev|
    decreases |ev| - i
  {
    if ev[i].isFinal then k == i
    else exists d :: VisitsDaughter(ev, i, d) && ReachesFinal(ev, d, k)
  }

  /** The walker finds exactly the final-state descendants: `k` is appended if
      and only if it is reachable from `i`. */
  lemma {:induction false} TraceFindsExactlyReachable(ev: Event, i: int, k: int)
    requires DaughtersForward(ev) && 0 <= i < |ev|
    ensures k in Descendants(ev, i) <==> ReachesFinal(ev, i, k)
    decreases |ev| - i, 1
  {
    if !ev[i].isFinal {
      DaughtersReach(ev, i, ev[i].daughter1, k);
      if ReachesFinal(ev, i, k) {
        var d :| VisitsDaughter(ev, i, d) && ReachesFinal(ev, d, k);
        assert ev[i].daughter1 <= d;
      }
    }
  }

  lemma {:induction false} DaughtersReach(ev: Event, i: int, d: int, k: int)
    requires DaughtersForward(ev) && 0 <= i < |ev| && !ev[i].isFinal && ev[i].daughter1 <= d
    ensures k in TraceDaughters(ev, i, d, []) <==>
            exists e :: d <= e && VisitsDaughter(ev, i, e) && ReachesFinal(ev, e, k)
    decreases |ev| - i, 0, ev[i].daughter2 - d + 1
  {
    if d > ev[i].daughter2 {
      assert TraceDaughters(ev, i, d, []) == [];
      assert forall e :: d <= e ==> !VisitsDaughter(ev, i, e);
    } else {
      DaughtersReach(ev, i, d + 1, k);
      var later := TraceDaughters(ev, i, d + 1, []);
      var here := TraceDaughters(ev, i, d, []);
      if 0 < d < |ev| {
        assert VisitsDaughter(ev, i, d);
        var t := Descendants(ev, d);
        DaughtersAppend(ev, i, d + 1, t);
        TraceFindsExactlyReachable(ev, d, k);
        assert here == t + later;
        assert k in here <==> k in t || k in later;
      } else {
        assert !VisitsDaughter(ev, i, d);
        assert here == later;
      }
      if k in here && 0 < d < |ev| && k in Descendants(ev, d) {
        assert d <= d && VisitsDaughter(ev, i, d) && ReachesFinal(ev, d, k);
      }
      if e :| d <= e && VisitsDaughter(ev, i, e) && ReachesFinal(ev, e, k) {
        if e > d {
          assert d + 1 <= e;
        }
      }
    }
  }
}
