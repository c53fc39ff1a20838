/**
 * Two small events on which the species-keyed maps of com13wjets.cc and
 * com100wjets.cc print a Jet_ID column different from the per-product
 * association. Entry 0 is the system line, entry 1 the decayed Higgs boson,
 * and each jet holds one constituent.
 */
module JetFindings {
  import opened EventRecord
  import opened DecayWalker
  import opened JetAssociation

  const SystemLine := Particle(90, -11, false, 0, 0, 0, 0)
  const DecayedHiggs := Particle(25, -62, false, 0, 0, 2, 3)

  /** A final-state entry of species `id` produced by entry 1. */
  function FinalChild(id: int): Particle
  {
    Particle(id, 1, true, 1, 0, 0, 0)
  }

  function SingleJet(c: int): Jet
  {
    Jet([c], "", "", "", "")
  }

  /** The Higgs boson decays to two final-state entries of species `a` and `b` at indices 2 and 3. */
  function TwoBodyEvent(a: int, b: int): Event
  {
    [SystemLine, DecayedHiggs, FinalChild(a), FinalChild(b)]
  }

  lemma TwoBodyForward(a: int, b: int)
    ensures DaughtersForward(TwoBodyEvent(a, b))
  {
  }

  lemma TwoBodyShape(a: int, b: int)
    ensures DaughtersForward(TwoBodyEvent(a, b))
    ensures ProductIndices(TwoBodyEvent(a, b), 1, EitherMother) == [2, 3]
    ensures Descendants(TwoBodyEvent(a, b), 2) == [2]
    ensures Descendants(TwoBodyEvent(a, b), 3) == [3]
  {
    var ev := TwoBodyEvent(a, b);
    TwoBodyForward(a, b);
    var ks := ProductIndices(ev, 1, EitherMother);
    assert 2 in ks && 3 in ks;
    assert forall a :: 0 <= a < |ks| ==> 2 <= ks[a] < 4;
    IncreasingWithin(ks, 2, 4);
    TraceFinal(ev, 2, []);
    TraceFinal(ev, 3, []);
  }

  /** An increasing sequence drawn from `lo..hi-1` has at most `hi - lo` entries. */
  lemma {:induction false} IncreasingWithin(ks: seq<int>, lo: int, hi: int)
    requires Increasing(ks) && lo <= hi
    requires forall a :: 0 <= a < |ks| ==> lo <= ks[a] < hi
    ensures |ks| <= hi - lo
    decreases |ks|
  {
    if |ks| > 0 {
      IncreasingWithin(ks[1..], ks[0] + 1, hi);
    }
  }

  /** Two one-constituent jets, on distinct constituents. */
  lemma TwoSingleJets(c: int, d: int)
    requires c != d
    ensures ConstituentMap([SingleJet(c), SingleJet(d)]) == map[c := 0, d := 1]
  {
    var jets := [SingleJet(c), SingleJet(d)];
    assert jets[..1] == [SingleJet(c)];
    OneSingleJet(c);
    SecondJetEntries(c, d);
    assert ConstituentMap(jets) == map[c := 0] + map[d := 1];
    PairMap(c, d);
  }

  lemma PairMap(c: int, d: int)
    requires c != d
    ensures map[c := 0] + map[d := 1] == map[c := 0, d := 1]
  {
    var m := map[c := 0] + map[d := 1];
    assert m.Keys == {c, d};
  }

  lemma SecondJetEntries(c: int, d: int)
    ensures LastJetEntries([SingleJet(c), SingleJet(d)]) == map[d := 1]
  {
    assert [SingleJet(c), SingleJet(d)][1].constituents == [d];
    SingletonMap(d, 1);
  }

  lemma SingletonMap(d: int, v: int)
    ensures (map x | x in [d] :: v) == map[d := v]
  {
  }

  lemma TwoBodyIds(a: int, b: int)
    ensures Ids(TwoBodyEvent(a, b), [2, 3]) == [a, b]
  {
    assert [2, 3][1..] == [3];
  }

  lemma TwoBodyIndex(a: int, b: int)
    ensures IndexBySpecies(TwoBodyEvent(a, b), [2, 3]) == if a == b then map[a := 3] else map[a := 2, b := 3]
  {
    var ev := TwoBodyEvent(a, b);
    assert [2, 3][..1] == [2];
    assert [2][..0] == [];
    assert IndexBySpecies(ev, [2]) == map[a := 2];
    assert IndexBySpecies(ev, [2, 3]) == map[a := 2][b := 3];
  }

  /** The species index and the traces of a two-body decay. */
  lemma TwoBodyTraces(a: int, b: int)
    ensures DaughtersForward(TwoBodyEvent(a, b))
    ensures Ids(TwoBodyEvent(a, b), [2, 3]) == [a, b]
    ensures IndexBySpecies(TwoBodyEvent(a, b), [2, 3]) == if a == b then map[a := 3] else map[a := 2, b := 3]
    ensures TracesBySpecies(TwoBodyEvent(a, b), IndexBySpecies(TwoBodyEvent(a, b), [2, 3]), [a, b]) ==
            if a == b then [[3], [3]] else [[2], [3]]
  {
    var ev := TwoBodyEvent(a, b);
    TwoBodyShape(a, b);
    TwoBodyIds(a, b);
    TwoBodyIndex(a, b);
    var index := IndexBySpecies(ev, [2, 3]);
    var ts := TracesBySpecies(ev, index, [a, b]);
    assert ts[0] == Descendants(ev, index[a]) && ts[1] == Descendants(ev, index[b]);
  }

  /** Back-projection of two products whose traces end in already-clustered entries. */
  lemma BackProjectTwo(cmap: map<int, int>, s: int, t: int, f: int, g: int)
    requires f in cmap && g in cmap && f != s && g != t
    ensures BackProject(cmap, [s, t], [[f], [g]]) == cmap[s := cmap[f]][t := cmap[s := cmap[f]][g]]
  {
    assert Without([f], s) == [f] && Without([g], t) == [g];
    var one := Project(cmap, s, [f]);
    assert one == cmap[s := cmap[f]];
    assert [s, t][..1] == [s] && [[f], [g]][..1] == [[f]];
    assert [s][..0] == [] && [[f]][..0] == [];
    assert BackProject(cmap, [s], [[f]]) == one;
  }

  /** The map the source builds for a two-body decay, in terms of the traces. */
  lemma TwoBodyJetMap(a: int, b: int, jets: seq<Jet>)
    ensures DaughtersForward(TwoBodyEvent(a, b))
    ensures AsWrittenJetMap(TwoBodyEvent(a, b), 1, jets) ==
            BackProject(ConstituentMap(jets), [a, b], if a == b then [[3], [3]] else [[2], [3]])
  {
    TwoBodyShape(a, b);
    TwoBodyTraces(a, b);
  }

  /** The per-product association of a two-body decay. */
  lemma TwoBodyAssociation(a: int, b: int, jets: seq<Jet>)
    ensures DaughtersForward(TwoBodyEvent(a, b))
    ensures AssociatePerProduct(TwoBodyEvent(a, b), jets, [2, 3]) ==
            [JetOf(ConstituentMap(jets), [2]), JetOf(ConstituentMap(jets), [3])]
  {
    TwoBodyShape(a, b);
  }

  lemma SameSpeciesKey(s: int)
    requires s != 2 && s != 3
    ensures DaughtersForward(TwoBodyEvent(s, s))
    ensures var r := AsWrittenJetMap(TwoBodyEvent(s, s), 1, [SingleJet(2), SingleJet(3)]);
            s in r && r[s] == 1
  {
    var jets := [SingleJet(2), SingleJet(3)];
    TwoSingleJets(2, 3);
    TwoBodyJetMap(s, s, jets);
    BackProjectTwo(map[2 := 0, 3 := 1], s, s, 3, 3);
  }

  lemma EntriesOfRepeatedKey(r: map<int, int>, s: int, v: int)
    requires s in r && r[s] == v
    ensures AsWrittenEntries(r, [s, s]) == [v, v]
  {
    var e := AsWrittenEntries(r, [s, s]);
    assert e[0] == v && e[1] == v;
  }

  lemma AsWrittenSameSpecies(s: int)
    requires s != 2 && s != 3
    ensures DaughtersForward(TwoBodyEvent(s, s))
    ensures AsWrittenEntries(AsWrittenJetMap(TwoBodyEvent(s, s), 1, [SingleJet(2), SingleJet(3)]), [s, s]) == [1, 1]
  {
    SameSpeciesKey(s);
    EntriesOfRepeatedKey(AsWrittenJetMap(TwoBodyEvent(s, s), 1, [SingleJet(2), SingleJet(3)]), s, 1);
  }

  lemma PerProductTwoJets(a: int, b: int)
    ensures DaughtersForward(TwoBodyEvent(a, b))
    ensures AssociatePerProduct(TwoBodyEvent(a, b), [SingleJet(2), SingleJet(3)], [2, 3]) == [0, 1]
  {
    TwoSingleJets(2, 3);
    TwoBodyAssociation(a, b, [SingleJet(2), SingleJet(3)]);
    var cmap := map[2 := 0, 3 := 1];
    assert JetOf(cmap, [2]) == 0 && JetOf(cmap, [3]) == 1;
  }

  /** A Higgs boson decaying to two entries of one species `s` (H -> gamma gamma
      when `s` is 22), each its own jet: the source prints jet 1 for both,
      since both share the key `s` and the later entry wins; the per-product
      association gives jets 0 and 1. */
  lemma SameSpeciesShareOneJet(s: int)
    requires s != 2 && s != 3
    ensures DaughtersForward(TwoBodyEvent(s, s))
    ensures ProductIndices(TwoBodyEvent(s, s), 1, EitherMother) == [2, 3]
    ensures AsWrittenEntries(AsWrittenJetMap(TwoBodyEvent(s, s), 1, [SingleJet(2), SingleJet(3)]), [s, s]) == [1, 1]
    ensures AssociatePerProduct(TwoBodyEvent(s, s), [SingleJet(2), SingleJet(3)], [2, 3]) == [0, 1]
  {
    TwoBodyShape(s, s);
    AsWrittenSameSpecies(s);
    PerProductTwoJets(s, s);
  }

  lemma OneSingleJet(c: int)
    ensures ConstituentMap([SingleJet(c)]) == map[c := 0]
  {
    assert [SingleJet(c)][..0] == [];
  }

  /** Back-projection where the first product's trace is unclustered and the second's is clustered. */
  lemma BackProjectMissThenHit(cmap: map<int, int>, s: int, t: int, f: int, g: int)
    requires f !in cmap && g in cmap && f != s && g != t
    ensures BackProject(cmap, [s, t], [[f], [g]]) == cmap[t := cmap[g]]
  {
    assert Without([f], s) == [f] && Without([g], t) == [g];
    assert Project(cmap, s, [f]) == cmap;
    assert [s, t][..1] == [s] && [[f], [g]][..1] == [[f]];
    assert [s][..0] == [] && [[f]][..0] == [];
    assert BackProject(cmap, [s], [[f]]) == cmap;
  }

  lemma CollidingKeys(b: int)
    requires b != 3
    ensures DaughtersForward(TwoBodyEvent(3, b))
    ensures var r := AsWrittenJetMap(TwoBodyEvent(3, b), 1, [SingleJet(3)]);
            3 in r && r[3] == 0 && b in r && r[b] == 0
  {
    OneSingleJet(3);
    TwoBodyJetMap(3, b, [SingleJet(3)]);
    BackProjectMissThenHit(map[3 := 0], 3, b, 2, 3);
  }

  lemma EntriesOfTwoKeys(r: map<int, int>, s: int, t: int, v: int, w: int)
    requires s in r && r[s] == v && t in r && r[t] == w
    ensures AsWrittenEntries(r, [s, t]) == [v, w]
  {
    var e := AsWrittenEntries(r, [s, t]);
    assert e[0] == v && e[1] == w;
  }

  lemma PerProductOneJet(a: int, b: int)
    ensures DaughtersForward(TwoBodyEvent(a, b))
    ensures AssociatePerProduct(TwoBodyEvent(a, b), [SingleJet(3)], [2, 3]) == [-1, 0]
  {
    OneSingleJet(3);
    TwoBodyAssociation(a, b, [SingleJet(3)]);
    var cmap := map[3 := 0];
    assert JetOf(cmap, [2]) == -1 && JetOf(cmap, [3]) == 0;
  }

  /** A Higgs boson decaying to a product of species 3 (a strange quark) at
      record 2 and a product of species `b` (its antiquark when `b` is -3) at
      record 3, with one jet that holds record 3 alone. The species code 3 is
      also the record index 3, so the constituent map already holds key 3 and
      the source prints jet 0 for the unclustered strange quark; the
      per-product association gives -1 for it. */
  lemma SpeciesCodeCollidesWithRecordIndex(b: int)
    requires b != 3
    ensures DaughtersForward(TwoBodyEvent(3, b))
    ensures ProductIndices(TwoBodyEvent(3, b), 1, EitherMother) == [2, 3]
    ensures AsWrittenEntries(AsWrittenJetMap(TwoBodyEvent(3, b), 1, [SingleJet(3)]), [3, b]) == [0, 0]
    ensures AssociatePerProduct(TwoBodyEvent(3, b), [SingleJet(3)], [2, 3]) == [-1, 0]
  {
    TwoBodyShape(3, b);
    CollidingKeys(b);
    EntriesOfTwoKeys(AsWrittenJetMap(TwoBodyEvent(3, b), 1, [SingleJet(3)]), 3, b, 0, 0);
    PerProductOneJet(3, b);
  }
}
