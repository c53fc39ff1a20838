/**
 * identifyProductionChannel (training_smeft100.cc): a Higgs production
 * channel code from the species codes of the first two incoming partons of
 * an event, compared by absolute value. Codes 4 and 5 are written in the
 * source but no input reaches them, since their guards need a species code
 * that is at most 6 and also 23 or 24.
 */
module ProductionChannel {

  function Abs(x: int): nat
  {
    if x < 0 then -x else x
  }

  /** The branch chain of the source, in its order. */
  function ClassifyPair(x: int, y: int): (c: int)
    ensures c in {0, 1, 2, 3, 6, 7}
  {
    var id1 := Abs(x);
    var id2 := Abs(y);
    if id1 == 21 && id2 == 21 then 1
    else if id1 <= 6 && id2 <= 6 && id1 != id2 && id1 != 2 && id2 != 2 then 2
    else if (id1 == 2 || id2 == 2) && id1 <= 6 && id2 <= 6 && id1 != id2 then 3
    else if id1 <= 6 && id2 <= 6 && (id1 == 23 || id2 == 23) then 4
    else if id1 <= 6 && id2 <= 6 && (id1 == 24 || id2 == 24) then 5
    else if id1 == 6 && id2 == 6 then 6
    else if id1 <= 5 && id2 <= 5 then 7
    else 0
  }

  /** Fewer than two incoming partons give 0; otherwise the first two decide. */
  function Classify(ids: seq<int>): (c: int)
    ensures c in {0, 1, 2, 3, 6, 7}
    ensures |ids| < 2 ==> c == 0
  {
    if |ids| < 2 then 0 else ClassifyPair(ids[0], ids[1])
  }

  /** The same classification as a table of disjoint cases on the absolute
      codes: two gluons; two different quark flavours (through a W when one
      of them is the up quark); one flavour twice (top, or a lighter one). */
  function ChannelTable(a: nat, b: nat): int
  {
    if a == 21 && b == 21 then 1
    else if a <= 6 && b <= 6 && a != b then (if a == 2 || b == 2 then 3 else 2)
    else if a <= 6 && a == b then (if a == 6 then 6 else 7)
    else 0
  }

  lemma ClassifyMatchesTable(x: int, y: int)
    ensures ClassifyPair(x, y) == ChannelTable(Abs(x), Abs(y))
  {
  }

  /** The order of the two partons does not matter. */
  lemma ClassifySymmetric(x: int, y: int)
    ensures ClassifyPair(x, y) == ClassifyPair(y, x)
  {
    ClassifyMatchesTable(x, y);
    ClassifyMatchesTable(y, x);
  }

  /** Neither does particle versus antiparticle. */
  lemma ClassifyIgnoresSign(x: int, y: int)
    ensures ClassifyPair(-x, y) == ClassifyPair(x, y)
    ensures ClassifyPair(x, -y) == ClassifyPair(x, y)
  {
  }

  /** Only the first two incoming partons count. */
  lemma ClassifyFirstTwo(ids: seq<int>, more: seq<int>)
    requires |ids| >= 2
    ensures Classify(ids + more) == Classify(ids[..2])
  {
  }

  /** Code 2 exactly for two different quark flavours, neither of them up. */
  lemma CodeTwoExactly(x: int, y: int)
    ensures ClassifyPair(x, y) == 2 <==>
            Abs(x) <= 6 && Abs(y) <= 6 && Abs(x) != Abs(y) && Abs(x) != 2 && Abs(y) != 2
  {
  }

  /** Code 7 exactly for the same flavour, at most 5, twice. */
  lemma CodeSevenExactly(x: int, y: int)
    ensures ClassifyPair(x, y) == 7 <==> Abs(x) == Abs(y) <= 5
  {
  }

  lemma Examples()
    ensures ClassifyPair(21, 21) == 1
    ensures ClassifyPair(1, -3) == 2
    ensures ClassifyPair(1, -2) == 3
    ensures ClassifyPair(6, -6) == 6
    ensures ClassifyPair(1, -1) == 7
    ensures ClassifyPair(21, 1) == 0
    ensures ClassifyPair(11, -11) == 0
  {
  }
}
