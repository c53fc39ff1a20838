/**
 * Particle-to-jet association of com13wjets.cc and com100wjets.cc.
 *
 * The drivers keep one `std::map<int,int>` named particleToJetMap. It is
 * first filled with constituent record index -> jet ordinal (jets arrive
 * sorted by descending pT, ordinal 0 being the hardest), then every decay
 * product is traced to its final-state descendants and the jet of the last
 * descendant found in the map is written back into the SAME map under the
 * product's species code. The species code also selects which record is
 * traced, through particleIdToIndexMap, which keeps the last record per code.
 *
 * `AsWrittenJetMap` models that code. `AssociatePerProduct` is the
 * association the drivers evidently intend (one jet ordinal per decay-product
 * record, looked up in the constituent map only); `AsWrittenAgreesWhenUnambiguous`
 * shows when the two coincide and the two counterexample lemmas show inputs
 * where they do not.
 */
module JetAssociation {
  import opened Wrappers
  import opened EventRecord
  import opened DecayWalker

  /** A jet as the clusterer returns it: the record indices of its constituents
      (the `user_index` of each constituent) and its kinematics as printed text. */
  datatype Jet = Jet(constituents: seq<int>, pt: string, eta: string, phi: string, mass: string)

  /** particleIdToIndexMap: for each species among the records `ks`, the last of
      them (in `ks` order) with that species. */
  function IndexBySpecies(ev: Event, ks: seq<int>): (m: map<int, int>)
    requires forall a :: 0 <= a < |ks| ==> 0 <= ks[a] < |ev|
    ensures forall a :: 0 <= a < |ks| ==> ev[ks[a]].id in m
    ensures forall s :: s in m ==> 0 <= m[s] < |ev|
  {
    if |ks| == 0 then map[]
    else
      var n := |ks| - 1;
      var prev := IndexBySpecies(ev, ks[..n]);
      assert ks == ks[..n] + [ks[n]];
      prev[ev[ks[n]].id := ks[n]]
  }
  /** Each species is mapped to one of the records `ks` carrying it: the
      position `a` of that record. */
  lemma {:induction false} SourceOf(ev: Event, ks: seq<int>, s: int) returns (a: int)
    requires forall b :: 0 <= b < |ks| ==> 0 <= ks[b] < |ev|
    requires s in IndexBySpecies(ev, ks)
    ensures 0 <= a < |ks| && ks[a] == IndexBySpecies(ev, ks)[s] && ev[ks[a]].id == s
  {
    var n := |ks| - 1;
    if s == ev[ks[n]].id {
      a := n;
    } else {
      a := SourceOf(ev, ks[..n], s);
      assert ks[..n][a] == ks[a];
    }
  }

  /** The code kept for each species is the largest record index carrying it. */
  lemma IndexBySpeciesKeepsLast(ev: Event, ks: seq<int>, a: int)
    requires forall b :: 0 <= b < |ks| ==> 0 <= ks[b] < |ev|
    requires Increasing(ks) && 0 <= a < |ks|
    ensures ks[a] <= IndexBySpecies(ev, ks)[ev[ks[a]].id]
  {
    KeepsLastUpTo(ev, ks, |ks|, a);
    assert ks[..|ks|] == ks;
  }

  lemma {:induction false} KeepsLastUpTo(ev: Event, ks: seq<int>, k: nat, a: int)
    requires forall b :: 0 <= b < |ks| ==> 0 <= ks[b] < |ev|
    requires 0 <= a < k <= |ks|
    requires forall b :: a < b < |ks| ==> ks[a] < ks[b]
    ensures ks[a] <= IndexBySpecies(ev, ks[..k])[ev[ks[a]].id]
  {
    var n := k - 1;
    var s := ev[ks[a]].id;
    assert ks[..k][..n] == ks[..n];
    if a < n && s != ev[ks[n]].id {
      KeepsLastUpTo(ev, ks, n, a);
      assert IndexBySpecies(ev, ks[..k])[s] == IndexBySpecies(ev, ks[..n])[s];
    } else {
      assert IndexBySpecies(ev, ks[..k])[ev[ks[n]].id] == ks[n];
    }
  }

  /** particleToJetMap after the constituent loop: every constituent maps to the
      ordinal of the last (softest) jet that lists it. */
  function ConstituentMap(jets: seq<Jet>): (m: map<int, int>)
    ensures forall c :: c in m ==> 0 <= m[c] < |jets| && c in jets[m[c]].constituents
    ensures forall c, j :: 0 <= j < |jets| && c in jets[j].constituents ==> c in m && j <= m[c]
  {
    if |jets| == 0 then map[]
    else
      var last := |jets| - 1;
      var prev := ConstituentMap(jets[..last]);
      ConstituentMapStep(jets, prev);
      prev + LastJetEntries(jets)
  }

  /** Each constituent of the last jet, mapped to that jet. */
  function LastJetEntries(jets: seq<Jet>): map<int, int>
    requires |jets| > 0
  {
    var last := |jets| - 1;
    map c | c in jets[last].constituents :: last
  }

  /** The latest jet holding each constituent. */
  ghost predicate LatestJet(jets: seq<Jet>, m: map<int, int>)
  {
    && (forall c :: c in m ==> 0 <= m[c] < |jets| && c in jets[m[c]].constituents)
    && (forall c, j :: 0 <= j < |jets| && c in jets[j].constituents ==> c in m && j <= m[c])
  }

  /** One more jet overrides the entries of its constituents. */
  lemma ConstituentMapStep(jets: seq<Jet>, prev: map<int, int>)
    requires |jets| > 0 && LatestJet(jets[..|jets| - 1], prev)
    ensures LatestJet(jets, prev + LastJetEntries(jets))
  {
    var last := |jets| - 1;
    var init := jets[..last];
    var m := prev + LastJetEntries(jets);
    forall c | c in m ensures 0 <= m[c] < |jets| && c in jets[m[c]].constituents {
      if c !in jets[last].constituents {
        assert init[prev[c]] == jets[prev[c]];
      }
    }
    forall c, j | 0 <= j < |jets| && c in jets[j].constituents ensures c in m && j <= m[c] {
      if j < last && c !in jets[last].constituents {
        assert init[j] == jets[j];
      }
    }
  }

  /** The last entry of `fs` that has an entry in `m`. */
  function LastIn(m: map<int, int>, fs: seq<int>): (r: Option<int>)
    ensures r.Some? ==> r.value in fs && r.value in m
    ensures r.None? ==> forall f :: f in fs ==> f !in m
  {
    if |fs| == 0 then None
    else if fs[|fs| - 1] in m then Some(fs[|fs| - 1])
    else
      var r := LastIn(m, fs[..|fs| - 1]);
      assert fs == fs[..|fs| - 1] + [fs[|fs| - 1]];
      r
  }

  /** The entry LastIn picks is the last one in the map: every later entry of
      `fs` is missing from it. */
  lemma {:induction false} LastInIsLast(m: map<int, int>, fs: seq<int>)
    ensures LastIn(m, fs).Some? ==>
              exists a :: 0 <= a < |fs| && fs[a] == LastIn(m, fs).value &&
                          forall b :: a < b < |fs| ==> fs[b] !in m
  {
    if |fs| > 0 && fs[|fs| - 1] !in m {
      var init := fs[..|fs| - 1];
      LastInIsLast(m, init);
      if LastIn(m, init).Some? {
        var a :| 0 <= a < |init| && init[a] == LastIn(m, init).value &&
                 forall b :: a < b < |init| ==> init[b] !in m;
        assert fs[a] == LastIn(m, fs).value;
        forall b | a < b < |fs| ensures fs[b] !in m {
          if b < |init| {
            assert fs[b] == init[b];
          }
        }
      }
    }
  }

  /** `fs` with every occurrence of `key` removed. */
  function Without(fs: seq<int>, key: int): (r: seq<int>)
    ensures forall f :: f in r <==> f in fs && f != key
    ensures key !in fs ==> r == fs
  {
    if |fs| == 0 then []
    else
      var prev := Without(fs[..|fs| - 1], key);
      assert fs == fs[..|fs| - 1] + [fs[|fs| - 1]];
      if fs[|fs| - 1] == key then prev else prev + [fs[|fs| - 1]]
  }

  lemma {:induction false} LastInWithoutStep(m: map<int, int>, fs: seq<int>, key: int, f: int)
    ensures LastIn(m, Without(fs + [f], key)) ==
            if f != key && f in m then Some(f) else LastIn(m, Without(fs, key))
  {
    assert (fs + [f])[..|fs + [f]| - 1] == fs;
  }

  /** The inner loop over one product's final-state descendants `fs`: each one
      found in the map overwrites `key`. The result: only `key` can change, and
      it ends holding the jet of the last descendant other than `key` itself
      that is in the map (an entry equal to `key` copies the key onto itself). */
  function Project(m: map<int, int>, key: int, fs: seq<int>): (r: map<int, int>)
    ensures r == match LastIn(m, Without(fs, key))
                 case Some(f) => m[key := m[f]]
                 case None => m
    decreases |fs|
  {
    if |fs| == 0 then m
    else
      var n := |fs| - 1;
      var prev := Project(m, key, fs[..n]);
      assert fs == fs[..n] + [fs[n]];
      LastInWithoutStep(m, fs[..n], key, fs[n]);
      if fs[n] in prev then prev[key := prev[fs[n]]] else prev
  }

  /** The outer back-projection loop: product `a` (species `species[a]`) has
      the traced descendants `traces[a]`, and the products are processed in order. */
  function BackProject(m: map<int, int>, species: seq<int>, traces: seq<seq<int>>): (r: map<int, int>)
    requires |traces| == |species|
    ensures forall k :: k in r ==> k in m || k in species
    ensures forall k :: k in m ==> k in r
    ensures forall k :: k in m && k !in species ==> r[k] == m[k]
    ensures r.Values <= m.Values
  {
    if |species| == 0 then m
    else
      var n := |species| - 1;
      var prev := BackProject(m, species[..n], traces[..n]);
      assert species == species[..n] + [species[n]];
      Project(prev, species[n], traces[n])
  }

  /** The records the source traces, one per product: the record its species
      code maps to in particleIdToIndexMap, traced to its final state. */
  function TracesBySpecies(ev: Event, index: map<int, int>, species: seq<int>): (ts: seq<seq<int>>)
    requires DaughtersForward(ev)
    requires forall s :: s in index ==> 0 <= index[s] < |ev|
    requires forall a :: 0 <= a < |species| ==> species[a] in index
    ensures |ts| == |species|
    ensures forall a :: 0 <= a < |species| ==>
              species[a] in index && 0 <= index[species[a]] < |ev| && ts[a] == Descendants(ev, index[species[a]])
  {
    if |species| == 0 then []
    else
      var s := species[0];
      assert s in index;
      assert 0 <= index[s] < |ev|;
      [Descendants(ev, index[species[0]])] + TracesBySpecies(ev, index, species[1..])
  }

  /** particleToJetMap after back-projection, for the Higgs entry `j`. Every
      value is a jet ordinal, so the `jetId < jets.size()` guard of the row
      writers never fails. */
  function AsWrittenJetMap(ev: Event, j: int, jets: seq<Jet>): (r: map<int, int>)
    requires DaughtersForward(ev)
    ensures forall k :: k in r ==> 0 <= r[k] < |jets|
  {
    BackProjected(ev, ProductIndices(ev, j, EitherMother), jets)
  }

  /** The back-projected map for the products `ks`, as the loops of the source build it. */
  function BackProjected(ev: Event, ks: seq<int>, jets: seq<Jet>): (r: map<int, int>)
    requires DaughtersForward(ev)
    requires forall a :: 0 <= a < |ks| ==> 0 <= ks[a] < |ev|
    ensures forall k :: k in r ==> 0 <= r[k] < |jets|
  {
    var cmap := ConstituentMap(jets);
    var index := IndexBySpecies(ev, ks);
    var ids := Ids(ev, ks);
    assert forall a :: 0 <= a < |ids| ==> ids[a] in index;
    var r := BackProject(cmap, ids, TracesBySpecies(ev, index, ids));
    assert forall k :: k in r ==> r[k] in cmap.Values;
    r
  }

  /** The ordinals the Jet_ID column prints, as written: a lookup by species code, -1 if absent. */
  function AsWrittenEntries(m: map<int, int>, ids: seq<int>): (r: seq<int>)
    ensures |r| == |ids|
    ensures forall p :: 0 <= p < |ids| ==> (r[p] == -1 || ids[p] in m)
    ensures forall p :: 0 <= p < |ids| && ids[p] in m ==> r[p] == m[ids[p]]
  {
    if |ids| == 0 then []
    else [if ids[0] in m then m[ids[0]] else -1] + AsWrittenEntries(m, ids[1..])
  }

  /** Jet ordinal of the last final-state descendant of record `k` that is a jet constituent, or -1. */
  function JetOfRecord(ev: Event, cmap: map<int, int>, k: int): int
    requires DaughtersForward(ev) && 0 <= k < |ev|
  {
    JetOf(cmap, Descendants(ev, k))
  }

  /** Corrected association: one entry per decay-product record, taken from the
      constituent map alone, so that products of equal species and species codes
      that coincide with record indices cannot interfere. */
  function AssociatePerProduct(ev: Event, jets: seq<Jet>, ks: seq<int>): (r: seq<int>)
    requires DaughtersForward(ev)
    requires forall a :: 0 <= a < |ks| ==> 0 <= ks[a] < |ev|
    ensures |r| == |ks|
    ensures forall p :: 0 <= p < |ks| ==> -1 <= r[p] < |jets|
    ensures forall p :: 0 <= p < |ks| ==>
              (r[p] == -1 <==> forall f, q :: f in Descendants(ev, ks[p]) && 0 <= q < |jets| ==>
                                 f !in jets[q].constituents)
    ensures forall p :: 0 <= p < |ks| && r[p] != -1 ==>
              exists f :: f in Descendants(ev, ks[p]) && f in jets[r[p]].constituents
  {
    var cmap := ConstituentMap(jets);
    var r := seq(|ks|, p requires 0 <= p < |ks| => JetOfRecord(ev, cmap, ks[p]));
    assert forall p :: 0 <= p < |ks| ==> r[p] == JetOf(cmap, Descendants(ev, ks[p]));
    JetOfEveryRecord(ev, jets, ks);
    r
  }

  /** JetOf over the constituent map names a jet holding one of the entries,
      and -1 exactly when no jet holds any of them. */
  lemma JetOfConstituents(jets: seq<Jet>, fs: seq<int>)
    ensures var j := JetOf(ConstituentMap(jets), fs);
            && -1 <= j < |jets|
            && (j == -1 <==> forall f, q :: f in fs && 0 <= q < |jets| ==> f !in jets[q].constituents)
            && (j != -1 ==> exists f :: f in fs && f in jets[j].constituents)
  {
    var cmap := ConstituentMap(jets);
    var l := LastIn(cmap, fs);
    if l.Some? {
      var j := cmap[l.value];
      assert 0 <= j < |jets| && l.value in jets[j].constituents;
      assert JetOf(cmap, fs) == j;
    } else {
      assert JetOf(cmap, fs) == -1;
      forall f, q | f in fs && 0 <= q < |jets|
        ensures f !in jets[q].constituents
      {
        assert f !in cmap;
      }
    }
  }

  lemma JetOfEveryRecord(ev: Event, jets: seq<Jet>, ks: seq<int>)
    requires DaughtersForward(ev)
    requires forall a :: 0 <= a < |ks| ==> 0 <= ks[a] < |ev|
    ensures forall p :: 0 <= p < |ks| ==>
              var j := JetOf(ConstituentMap(jets), Descendants(ev, ks[p]));
              && -1 <= j < |jets|
              && (j == -1 <==> forall f, q :: f in Descendants(ev, ks[p]) && 0 <= q < |jets| ==>
                                 f !in jets[q].constituents)
              && (j != -1 ==> exists f :: f in Descendants(ev, ks[p]) && f in jets[j].constituents)
  {
    forall p | 0 <= p < |ks|
      ensures var j := JetOf(ConstituentMap(jets), Descendants(ev, ks[p]));
              && -1 <= j < |jets|
              && (j == -1 <==> forall f, q :: f in Descendants(ev, ks[p]) && 0 <= q < |jets| ==>
                                 f !in jets[q].constituents)
              && (j != -1 ==> exists f :: f in Descendants(ev, ks[p]) && f in jets[j].constituents)
    {
      JetOfConstituents(jets, Descendants(ev, ks[p]));
    }
  }

  /** With no jets at all, every decay product is unassociated. */
  lemma NoJetsNoAssociation(ev: Event, ks: seq<int>)
    requires DaughtersForward(ev)
    requires forall a :: 0 <= a < |ks| ==> 0 <= ks[a] < |ev|
    ensures forall p :: 0 <= p < |ks| ==> AssociatePerProduct(ev, [], ks)[p] == -1
  {
  }

  /** Map lookups that agree on the entries of `fs` find the same last entry. */
  lemma {:induction false} LastInCongruent(m: map<int, int>, m': map<int, int>, fs: seq<int>)
    requires forall f :: f in fs ==> (f in m <==> f in m')
    ensures LastIn(m, fs) == LastIn(m', fs)
  {
    if |fs| > 0 {
      var init := fs[..|fs| - 1];
      var f := fs[|fs| - 1];
      assert fs == init + [f];
      assert f in fs;
      assert forall g :: g in init ==> g in fs;
      LastInCongruent(m, m', init);
      if f in m {
        assert LastIn(m, fs) == Some(f) == LastIn(m', fs);
      } else {
        assert LastIn(m, fs) == LastIn(m, init);
        assert LastIn(m', fs) == LastIn(m', init);
      }
    }
  }

  /** No two of `ids` are equal. */
  predicate Distinct(ids: seq<int>)
  {
    forall a, b :: 0 <= a < |ids| && 0 <= b < |ids| && a != b ==> ids[a] != ids[b]
  }

  /** With distinct species codes, particleIdToIndexMap sends each product's
      code back to that product's own record. */
  lemma IndexBySpeciesDistinct(ev: Event, ks: seq<int>, p: int)
    requires forall a :: 0 <= a < |ks| ==> 0 <= ks[a] < |ev|
    requires Distinct(Ids(ev, ks)) && 0 <= p < |ks|
    ensures IndexBySpecies(ev, ks)[ev[ks[p]].id] == ks[p]
  {
    var s := ev[ks[p]].id;
    var a := SourceOf(ev, ks, s);
    assert Ids(ev, ks)[a] == Ids(ev, ks)[p];
  }

  /** Jet ordinal of the last entry of `fs` found in `cmap`, or -1. */
  function JetOf(cmap: map<int, int>, fs: seq<int>): int
  {
    match LastIn(cmap, fs)
    case Some(f) => cmap[f]
    case None => -1
  }

  /** State of the back-projection loop after `n` products, when the species
      codes are unambiguous: keys that are not species codes are exactly the
      constituent map's, the first `n` codes hold the jet of their own
      product's last clustered descendant (if any), and the other codes are absent. */
  ghost predicate Unambiguous(cmap: map<int, int>, ids: seq<int>, ds: seq<seq<int>>, n: nat, r: map<int, int>)
    requires |ds| == |ids| && n <= |ids|
  {
    && (forall k :: k !in ids ==> (k in r <==> k in cmap))
    && (forall k :: k !in ids && k in r ==> r[k] == cmap[k])
    && (forall p :: 0 <= p < n ==> (ids[p] in r <==> LastIn(cmap, ds[p]).Some?))
    && (forall p :: 0 <= p < n && ids[p] in r ==> r[ids[p]] == JetOf(cmap, ds[p]))
    && (forall p :: n <= p < |ids| ==> ids[p] !in r)
  }

  lemma UnambiguousStep(cmap: map<int, int>, ids: seq<int>, ds: seq<seq<int>>, n: nat, prev: map<int, int>)
    requires |ds| == |ids| && n < |ids| && Distinct(ids)
    requires forall f :: f in ds[n] ==> f !in ids
    requires Unambiguous(cmap, ids, ds, n, prev)
    ensures Unambiguous(cmap, ids, ds, n + 1, Project(prev, ids[n], ds[n]))
  {
    var s := ids[n];
    var fs := ds[n];
    assert s !in fs;
    assert Without(fs, s) == fs;
    LastInCongruent(prev, cmap, fs);
    var l := LastIn(cmap, fs);
    var r := Project(prev, s, fs);
    if l.Some? {
      assert l.value !in ids;
      assert prev[l.value] == cmap[l.value];
      assert r == prev[s := cmap[l.value]];
    } else {
      assert r == prev;
    }
    forall k | k !in ids
      ensures k in r <==> k in cmap
      ensures k in r ==> r[k] == cmap[k]
    {
      assert k != s;
    }
    forall p | 0 <= p < |ids| && p != n
      ensures ids[p] != s
      ensures ids[p] in r <==> ids[p] in prev
      ensures ids[p] in r ==> r[ids[p]] == prev[ids[p]]
    {
    }
    assert s in r <==> l.Some?;
    assert s in r ==> r[s] == JetOf(cmap, fs);
    forall p | 0 <= p < n + 1
      ensures ids[p] in r <==> LastIn(cmap, ds[p]).Some?
      ensures ids[p] in r ==> r[ids[p]] == JetOf(cmap, ds[p])
    {
    }
    forall p | n + 1 <= p < |ids|
      ensures ids[p] !in r
    {
    }
  }

  /** Invariant of the back-projection loop under unambiguous species codes. */
  lemma {:induction false} BackProjectUnambiguous(cmap: map<int, int>, ids: seq<int>, ds: seq<seq<int>>, n: nat)
    requires |ds| == |ids| && Distinct(ids) && n <= |ids|
    requires forall k :: k in ids ==> k !in cmap
    requires forall p, f :: 0 <= p < |ds| && f in ds[p] ==> f !in ids
    ensures Unambiguous(cmap, ids, ds, n, BackProject(cmap, ids[..n], ds[..n]))
  {
    if n == 0 {
      assert ids[..0] == [];
      assert BackProject(cmap, ids[..0], ds[..0]) == cmap;
      UnambiguousStart(cmap, ids, ds);
    } else {
      BackProjectUnambiguous(cmap, ids, ds, n - 1);
      var prev := BackProject(cmap, ids[..n - 1], ds[..n - 1]);
      assert ids[..n][..n - 1] == ids[..n - 1];
      assert ds[..n][..n - 1] == ds[..n - 1];
      assert BackProject(cmap, ids[..n], ds[..n]) == Project(prev, ids[n - 1], ds[n - 1]);
      assert forall f :: f in ds[n - 1] ==> f !in ids;
      UnambiguousStep(cmap, ids, ds, n - 1, prev);
    }
  }

  /** Before the loop, the map is the constituent map and holds no species code. */
  lemma UnambiguousStart(cmap: map<int, int>, ids: seq<int>, ds: seq<seq<int>>)
    requires |ds| == |ids|
    requires forall k :: k in ids ==> k !in cmap
    ensures Unambiguous(cmap, ids, ds, 0, cmap)
  {
    forall p | 0 <= p < |ids| ensures ids[p] !in cmap {
      var k := ids[p];
      assert k in ids;
      assert k !in cmap;
    }
  }

  /** The entries printed from the back-projected map, when the codes are unambiguous. */
  lemma UnambiguousEntries(cmap: map<int, int>, ids: seq<int>, ds: seq<seq<int>>)
    requires |ds| == |ids| && Distinct(ids)
    requires forall k :: k in ids ==> k !in cmap
    requires forall p, f :: 0 <= p < |ds| && f in ds[p] ==> f !in ids
    ensures var e := AsWrittenEntries(BackProject(cmap, ids, ds), ids);
            forall p :: 0 <= p < |ids| ==> e[p] == JetOf(cmap, ds[p])
  {
    BackProjectUnambiguous(cmap, ids, ds, |ids|);
    assert ids[..|ids|] == ids && ds[..|ds|] == ds;
  }

  /** With distinct species codes every product's own record is the one traced. */
  lemma OwnTraces(ev: Event, ks: seq<int>)
    requires DaughtersForward(ev)
    requires forall a :: 0 <= a < |ks| ==> 0 <= ks[a] < |ev|
    requires Distinct(Ids(ev, ks))
    ensures var ts := TracesBySpecies(ev, IndexBySpecies(ev, ks), Ids(ev, ks));
            forall p :: 0 <= p < |ks| ==> ts[p] == Descendants(ev, ks[p])
  {
    forall p | 0 <= p < |ks| ensures IndexBySpecies(ev, ks)[Ids(ev, ks)[p]] == ks[p] {
      IndexBySpeciesDistinct(ev, ks, p);
    }
  }

  /** When the products have distinct species codes and no species code is a
      constituent index or a final-state descendant index, the Jet_ID ordinals
      the code prints are the per-product association. */
  lemma AsWrittenAgreesWhenUnambiguous(ev: Event, j: int, jets: seq<Jet>, ks: seq<int>)
    requires DaughtersForward(ev)
    requires ks == ProductIndices(ev, j, EitherMother)
    requires Distinct(Ids(ev, ks))
    requires forall k, q :: k in Ids(ev, ks) && 0 <= q < |jets| ==> k !in jets[q].constituents
    requires forall p, f :: 0 <= p < |ks| && f in Descendants(ev, ks[p]) ==> f !in Ids(ev, ks)
    ensures AsWrittenEntries(AsWrittenJetMap(ev, j, jets), Ids(ev, ks)) == AssociatePerProduct(ev, jets, ks)
  {
    BackProjectedAgrees(ev, ks, jets);
  }

  lemma BackProjectedAgrees(ev: Event, ks: seq<int>, jets: seq<Jet>)
    requires DaughtersForward(ev)
    requires forall a :: 0 <= a < |ks| ==> 0 <= ks[a] < |ev|
    requires Distinct(Ids(ev, ks))
    requires forall k, q :: k in Ids(ev, ks) && 0 <= q < |jets| ==> k !in jets[q].constituents
    requires forall p, f :: 0 <= p < |ks| && f in Descendants(ev, ks[p]) ==> f !in Ids(ev, ks)
    ensures AsWrittenEntries(BackProjected(ev, ks, jets), Ids(ev, ks)) == AssociatePerProduct(ev, jets, ks)
  {
    var ids := Ids(ev, ks);
    var cmap := ConstituentMap(jets);
    var ts := TracesBySpecies(ev, IndexBySpecies(ev, ks), ids);
    var rhs := AssociatePerProduct(ev, jets, ks);
    OwnTraces(ev, ks);
    SpeciesNotConstituents(jets, ids);
    TracedAssociation(ev, jets, ks);
    TracesAvoidSpecies(ev, ks);
    EntriesMatch(cmap, ids, ts, rhs);
  }

  lemma TracesAvoidSpecies(ev: Event, ks: seq<int>)
    requires DaughtersForward(ev)
    requires forall a :: 0 <= a < |ks| ==> 0 <= ks[a] < |ev|
    requires Distinct(Ids(ev, ks))
    requires forall p, f :: 0 <= p < |ks| && f in Descendants(ev, ks[p]) ==> f !in Ids(ev, ks)
    ensures var ts := TracesBySpecies(ev, IndexBySpecies(ev, ks), Ids(ev, ks));
            forall p, f :: 0 <= p < |ts| && f in ts[p] ==> f !in Ids(ev, ks)
  {
    var ts := TracesBySpecies(ev, IndexBySpecies(ev, ks), Ids(ev, ks));
    OwnTraces(ev, ks);
    forall p, f | 0 <= p < |ts| && f in ts[p] ensures f !in Ids(ev, ks) {
      assert ts[p] == Descendants(ev, ks[p]);
    }
  }

  /** With distinct species codes the association reads the traces the source computes. */
  lemma TracedAssociation(ev: Event, jets: seq<Jet>, ks: seq<int>)
    requires DaughtersForward(ev)
    requires forall a :: 0 <= a < |ks| ==> 0 <= ks[a] < |ev|
    requires Distinct(Ids(ev, ks))
    ensures var ts := TracesBySpecies(ev, IndexBySpecies(ev, ks), Ids(ev, ks));
            forall p :: 0 <= p < |ks| ==> AssociatePerProduct(ev, jets, ks)[p] == JetOf(ConstituentMap(jets), ts[p])
  {
    OwnTraces(ev, ks);
    AssociatePerProductAt(ev, jets, ks);
  }

  lemma AssociatePerProductAt(ev: Event, jets: seq<Jet>, ks: seq<int>)
    requires DaughtersForward(ev)
    requires forall a :: 0 <= a < |ks| ==> 0 <= ks[a] < |ev|
    ensures forall p :: 0 <= p < |ks| ==>
              AssociatePerProduct(ev, jets, ks)[p] == JetOf(ConstituentMap(jets), Descendants(ev, ks[p]))
  {
  }

  /** The abstract core of the agreement: back-projection over unambiguous
      species codes yields, per product, the jet of its last clustered trace entry. */
  lemma EntriesMatch(cmap: map<int, int>, ids: seq<int>, ts: seq<seq<int>>, rhs: seq<int>)
    requires |ts| == |ids| == |rhs| && Distinct(ids)
    requires forall k :: k in ids ==> k !in cmap
    requires forall p, f :: 0 <= p < |ts| && f in ts[p] ==> f !in ids
    requires forall p :: 0 <= p < |rhs| ==> rhs[p] == JetOf(cmap, ts[p])
    ensures AsWrittenEntries(BackProject(cmap, ids, ts), ids) == rhs
  {
    UnambiguousEntries(cmap, ids, ts);
  }

  lemma SpeciesNotConstituents(jets: seq<Jet>, ids: seq<int>)
    requires forall k, q :: k in ids && 0 <= q < |jets| ==> k !in jets[q].constituents
    ensures forall k :: k in ids ==> k !in ConstituentMap(jets)
  {
  }
}
