/**
 * The generator's event record as the analysis drivers see it: a sequence
 * of particle entries indexed from 0, each with a species code (PDG Monte
 * Carlo numbering), a status code, a final-state flag, two mother indices
 * and an inclusive daughter range. Momenta are not part of the record here:
 * every numeric quantity derived from them is opaque to the model.
 */
module EventRecord {

  datatype Particle = Particle(
    id: int,
    status: int,
    isFinal: bool,
    mother1: int,
    mother2: int,
    daughter1: int,
    daughter2: int)

  type Event = seq<Particle>

  /** The walker's loop at `i` reaches `d`: inside the inclusive daughter
      range and inside 1..|ev|-1 (entry 0 is the system line). */
  predicate VisitsDaughter(ev: Event, i: int, d: int)
    requires 0 <= i < |ev|
  {
    ev[i].daughter1 <= d <= ev[i].daughter2 && 0 < d < |ev|
  }

  /** Decay chains point forward: every daughter the walker would follow from a
      non-final entry comes after it. This rules out cycles, on which the
      walker of the source would not terminate. */
  ghost predicate DaughtersForward(ev: Event)
  {
    forall i, d :: 0 <= i < |ev| && !ev[i].isFinal && VisitsDaughter(ev, i, d) ==> i < d
  }

  predicate Increasing(ks: seq<int>)
  {
    forall a, b :: 0 <= a < b < |ks| ==> ks[a] < ks[b]
  }

  /** Indices of the entries that `keep` accepts, in ascending order, from `from` on. */
  function WhereFrom(ev: Event, keep: Particle -> bool, from: nat): (ks: seq<int>)
    ensures Increasing(ks)
    ensures forall a :: 0 <= a < |ks| ==> from <= ks[a] < |ev| && keep(ev[ks[a]])
    ensures forall k :: from <= k < |ev| && keep(ev[k]) ==> k in ks
    decreases |ev| - from
  {
    if from >= |ev| then []
    else (if keep(ev[from]) then [from] else []) + WhereFrom(ev, keep, from + 1)
  }

  /** The `for (int k = 0; k < event.size(); k++) if (...)` scan of the drivers. */
  function Where(ev: Event, keep: Particle -> bool): (ks: seq<int>)
    ensures Increasing(ks)
    ensures forall a :: 0 <= a < |ks| ==> 0 <= ks[a] < |ev| && keep(ev[ks[a]])
    ensures forall k :: 0 <= k < |ev| && keep(ev[k]) ==> k in ks
  {
    WhereFrom(ev, keep, 0)
  }

  /** The three decay-product rules the drivers use. */
  datatype ProductRule =
    | EitherMother        // mother1 == j || mother2 == j
    | EitherMotherStatus91 // the same, restricted to status 91
    | FirstMotherOnly     // mother1 == j

  predicate IsProductOf(rule: ProductRule, p: Particle, j: int)
  {
    match rule
    case EitherMother => p.mother1 == j || p.mother2 == j
    case EitherMotherStatus91 => (p.mother1 == j || p.mother2 == j) && p.status == 91
    case FirstMotherOnly => p.mother1 == j
  }

  /** Record indices of the decay products of entry `j`, ascending. */
  function ProductIndices(ev: Event, j: int, rule: ProductRule): (ks: seq<int>)
    ensures Increasing(ks)
    ensures forall a :: 0 <= a < |ks| ==> 0 <= ks[a] < |ev| && IsProductOf(rule, ev[ks[a]], j)
    ensures forall k :: 0 <= k < |ev| && IsProductOf(rule, ev[k], j) ==> k in ks
  {
    Where(ev, p => IsProductOf(rule, p, j))
  }

  /** Species codes of the entries at `ks`: the `decayProducts` vector. */
  function Ids(ev: Event, ks: seq<int>): (ids: seq<int>)
    requires forall a :: 0 <= a < |ks| ==> 0 <= ks[a] < |ev|
    ensures |ids| == |ks|
    ensures forall a :: 0 <= a < |ks| ==> ids[a] == ev[ks[a]].id
  {
    if |ks| == 0 then [] else [ev[ks[0]].id] + Ids(ev, ks[1..])
  }

  predicate HasFinal(ev: Event)
  {
    exists k :: 0 <= k < |ev| && ev[k].isFinal
  }

  /** Selection of com13wjets.cc, com100wjets.cc, thirtytev6.03.cc, allChannels.cc. */
  predicate IsDecayedHiggs(p: Particle)
  {
    p.id == 25 && p.status == -62
  }

  /** The records of `hs` that have at least two decay products, in order. */
  function Gated(ev: Event, hs: seq<int>): (gs: seq<int>)
    ensures forall a :: 0 <= a < |gs| ==> gs[a] in hs && |ProductIndices(ev, gs[a], EitherMother)| >= 2
    ensures forall a :: 0 <= a < |hs| && |ProductIndices(ev, hs[a], EitherMother)| >= 2 ==> hs[a] in gs
  {
    if |hs| == 0 then []
    else (if |ProductIndices(ev, hs[0], EitherMother)| >= 2 then [hs[0]] else []) + Gated(ev, hs[1..])
  }

  /** Gating keeps the records in their order. */
  lemma {:induction false} GatedKeepsOrder(ev: Event, hs: seq<int>)
    requires Increasing(hs)
    ensures Increasing(Gated(ev, hs))
  {
    if |hs| > 0 {
      IncreasingTail(hs);
      GatedKeepsOrder(ev, hs[1..]);
      if |ProductIndices(ev, hs[0], EitherMother)| >= 2 {
        GatedAbove(ev, hs);
        IncreasingCons(hs[0], Gated(ev, hs[1..]));
      }
    }
  }

  lemma IncreasingTail(hs: seq<int>)
    requires Increasing(hs) && |hs| > 0
    ensures Increasing(hs[1..])
  {
    forall a, b | 0 <= a < b < |hs| - 1 ensures hs[1..][a] < hs[1..][b] {
      assert hs[1..][a] == hs[a + 1] && hs[1..][b] == hs[b + 1];
    }
  }

  /** Every record gated from the tail lies above the first record. */
  lemma GatedAbove(ev: Event, hs: seq<int>)
    requires Increasing(hs) && |hs| > 0
    ensures forall b :: 0 <= b < |Gated(ev, hs[1..])| ==> hs[0] < Gated(ev, hs[1..])[b]
  {
    var later := Gated(ev, hs[1..]);
    forall b | 0 <= b < |later| ensures hs[0] < later[b] {
      assert later[b] in hs[1..];
      var c :| 0 <= c < |hs| - 1 && hs[1..][c] == later[b];
      assert hs[c + 1] == later[b];
    }
  }

  lemma IncreasingCons(x: int, ks: seq<int>)
    requires Increasing(ks)
    requires forall b :: 0 <= b < |ks| ==> x < ks[b]
    ensures Increasing([x] + ks)
  {
    var gs := [x] + ks;
    forall a, b | 0 <= a < b < |gs| ensures gs[a] < gs[b] {
      assert gs[b] == ks[b - 1];
      if a > 0 {
        assert gs[a] == ks[a - 1];
      }
    }
  }
}
