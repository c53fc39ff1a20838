/**
 * The listing of allChannels.cc. For every decayed Higgs (species code 25,
 * status -62) it writes the process code, the comma-separated decay
 * products, and one line per pair of products a < b with the pair's
 * invariant mass, which is opaque text here; at the end, the number of
 * decayed Higgs records seen. There is no two-product gate.
 */
module PairListing {
  import opened Wrappers
  import opened Text
  import opened EventRecord

  /** Row `a` of the inner loop: the pairs (a, b) for a < b < n, b ascending. */
  function PairRow(n: nat, a: nat): (r: seq<(nat, nat)>)
    requires a < n
    ensures |r| == n - a - 1
    ensures forall i :: 0 <= i < |r| ==> r[i] == (a, a + 1 + i)
  {
    seq(n - a - 1, i requires 0 <= i < n - a - 1 => (a, a + 1 + i))
  }

  /** The pairs whose first position is below `a`, in loop order. */
  function PairsBelow(n: nat, a: nat): seq<(nat, nat)>
    requires a <= n
  {
    if a == 0 then [] else PairsBelow(n, a - 1) + PairRow(n, a - 1)
  }

  /** The pairs the two loops visit, in order. */
  function Pairs(n: nat): (ps: seq<(nat, nat)>)
    ensures forall i :: 0 <= i < |ps| ==> ps[i].0 < ps[i].1 < n
  {
    PairsBelowInRange(n, n);
    PairsBelow(n, n)
  }

  /** Lexicographic order on pairs. */
  predicate Before(p: (nat, nat), q: (nat, nat))
  {
    p.0 < q.0 || (p.0 == q.0 && p.1 < q.1)
  }

  /** n(n-1)/2 pairs in all. */
  lemma {:induction false} PairsBelowCount(n: nat, a: nat)
    requires a <= n
    ensures 2 * |PairsBelow(n, a)| == a * (2 * n - a - 1)
  {
    if a > 0 {
      PairsBelowCount(n, a - 1);
      var c := a - 1;
      assert 2 * |PairsBelow(n, a)| == c * (2 * n - c - 1) + 2 * (n - c - 1);
      var w := 2 * n - a - 1;
      assert a * w == c * w + w;
      assert c * w == c * (2 * n - c - 1) - c;
    }
  }

  lemma PairsCount(n: nat)
    ensures 2 * |Pairs(n)| == n * (n - 1)
  {
    PairsBelowCount(n, n);
  }

  /** Every pair listed is a < b < n, with a below the row bound. */
  lemma {:induction false} PairsBelowInRange(n: nat, a: nat)
    requires a <= n
    ensures forall i :: 0 <= i < |PairsBelow(n, a)| ==>
              PairsBelow(n, a)[i].0 < a && PairsBelow(n, a)[i].0 < PairsBelow(n, a)[i].1 < n
  {
    if a > 0 {
      PairsBelowInRange(n, a - 1);
    }
  }

  /** Every pair a < b < n with a below the row bound is listed. */
  lemma {:induction false} PairsBelowComplete(n: nat, a: nat, x: nat, y: nat)
    requires a <= n && x < a && x < y < n
    ensures (x, y) in PairsBelow(n, a)
  {
    if x < a - 1 {
      PairsBelowComplete(n, a - 1, x, y);
    } else {
      assert PairRow(n, x)[y - x - 1] == (x, y);
    }
  }

  /** The pairs come in strictly increasing lexicographic order, so none twice. */
  lemma {:induction false} PairsBelowSorted(n: nat, a: nat)
    requires a <= n
    ensures forall i, j :: 0 <= i < j < |PairsBelow(n, a)| ==> Before(PairsBelow(n, a)[i], PairsBelow(n, a)[j])
  {
    if a > 0 {
      PairsBelowSorted(n, a - 1);
      PairsBelowInRange(n, a - 1);
    }
  }

  /** Exactly the pairs a < b < n, each once, in lexicographic order. */
  lemma PairsExactly(n: nat)
    ensures forall i :: 0 <= i < |Pairs(n)| ==> Pairs(n)[i].0 < Pairs(n)[i].1 < n
    ensures forall x: nat, y: nat :: x < y < n ==> (x, y) in Pairs(n)
    ensures forall i, j :: 0 <= i < j < |Pairs(n)| ==> Before(Pairs(n)[i], Pairs(n)[j])
  {
    PairsBelowInRange(n, n);
    PairsBelowSorted(n, n);
    forall x: nat, y: nat | x < y < n ensures (x, y) in Pairs(n) {
      PairsBelowComplete(n, n, x, y);
    }
  }

  lemma PairsOfThree()
    ensures Pairs(3) == [(0, 1), (0, 2), (1, 2)]
  {
    assert PairRow(3, 0) == [(0, 1), (0, 2)];
    assert PairRow(3, 1) == [(1, 2)];
    assert PairRow(3, 2) == [];
  }

  /** The two nested loops over product positions. */
  method ListPairs(n: nat) returns (pairs: seq<(nat, nat)>)
    ensures pairs == Pairs(n)
    ensures 2 * |pairs| == n * (n - 1)
  {
    pairs := [];
    var a := 0;
    while a < n
      invariant 0 <= a <= n
      invariant pairs == PairsBelow(n, a)
    {
      var b := a + 1;
      while b < n
        invariant a + 1 <= b <= n
        invariant pairs == PairsBelow(n, a) + PairRow(n, a)[..b - a - 1]
      {
        pairs := pairs + [(a, b)];
        b := b + 1;
      }
      assert PairRow(n, a)[..n - a - 1] == PairRow(n, a);
      a := a + 1;
    }
    PairsCount(n);
  }

  /** The decay list loop from position i: each code followed by `,`, the
      last one by a newline. */
  function ListFrom(ids: seq<int>, i: nat): string
    decreases |ids| - i
  {
    if i >= |ids| then ""
    else (if i == |ids| - 1 then IntToString(ids[i]) + "\n" else IntToString(ids[i]) + ",") + ListFrom(ids, i + 1)
  }

  /** The decay list is the codes joined with `,` and ended by a newline; an
      empty list writes nothing, not even the newline. */
  lemma {:induction false} ListLine(ids: seq<int>, i: nat)
    requires i <= |ids|
    ensures ListFrom(ids, i) == if i == |ids| then "" else Join(IntStrings(ids[i..]), ',') + "\n"
    decreases |ids| - i
  {
    if i < |ids| - 1 {
      ListLine(ids, i + 1);
      assert IntStrings(ids[i..]) == [IntToString(ids[i])] + IntStrings(ids[i + 1..]);
      JoinCons(IntToString(ids[i]), IntStrings(ids[i + 1..]), ',');
    } else if i == |ids| - 1 {
      assert IntStrings(ids[i..]) == [IntToString(ids[i])];
    }
  }

  /** `InvMass_<a>_<b>: <mass>` for the pair of positions p. */
  function PairText(ids: seq<int>, p: (nat, nat), mass: (nat, nat) -> string): string
    requires p.0 < |ids| && p.1 < |ids|
  {
    "InvMass_" + IntToString(ids[p.0]) + "_" + IntToString(ids[p.1]) + ": " + mass(p.0, p.1)
  }

  /** The pair's text and its newline. */
  function PairLine(ids: seq<int>, p: (nat, nat), mass: (nat, nat) -> string): string
    requires p.0 < |ids| && p.1 < |ids|
  {
    PairText(ids, p, mass) + "\n"
  }

  /** The pair lines for the pairs `ps`, in order. */
  function PairLines(ids: seq<int>, ps: seq<(nat, nat)>, mass: (nat, nat) -> string): seq<string>
    requires forall i :: 0 <= i < |ps| ==> ps[i].0 < |ids| && ps[i].1 < |ids|
  {
    seq(|ps|, i requires 0 <= i < |ps| => PairLine(ids, ps[i], mass))
  }

  /** What one decayed Higgs writes: the header with the process code, the
      decay list, then one line per pair of products. */
  function HiggsBlock(ids: seq<int>, code: int, mass: (nat, nat) -> string): (r: string)
    ensures "ProductionChannel: " <= r
  {
    "ProductionChannel: " + IntToString(code) + "," + ListFrom(ids, 0) + Concat(PairLines(ids, Pairs(|ids|), mass))
  }

  /** The header line of a block with decay products, without its newline. */
  function HeaderText(ids: seq<int>, code: int): string
  {
    "ProductionChannel: " + IntToString(code) + "," + Join(IntStrings(ids), ',')
  }

  /** The texts of the pair lines, in loop order. */
  function PairTexts(ids: seq<int>, mass: (nat, nat) -> string): (r: seq<string>)
    ensures |r| == |Pairs(|ids|)|
    ensures forall i :: 0 <= i < |r| ==> r[i] == PairText(ids, Pairs(|ids|)[i], mass)
  {
    var ps := Pairs(|ids|);
    seq(|ps|, i requires 0 <= i < |ps| => PairText(ids, ps[i], mass))
  }

  /** Read line by line, the block of a Higgs with decay products is the
      header with the comma-joined decay list, then one line per pair in loop
      order naming the two products' species codes and the pair's mass, and
      nothing after the last newline. The masses are taken to be free of newlines. */
  lemma BlockLines(ids: seq<int>, code: int, mass: (nat, nat) -> string)
    requires |ids| > 0
    requires forall a: nat, b: nat :: Free(mass(a, b), '\n')
    ensures Split(HiggsBlock(ids, code, mass), '\n') == [HeaderText(ids, code)] + PairTexts(ids, mass) + [""]
  {
    var parts := [HeaderText(ids, code) + "\n"] + PairLines(ids, Pairs(|ids|), mass);
    var lines := [HeaderText(ids, code)] + PairTexts(ids, mass);
    BlockConcat(ids, code, mass);
    PartsAreLines(ids, code, mass);
    SplitTerminated(parts, lines, '\n');
  }

  lemma PartsAreLines(ids: seq<int>, code: int, mass: (nat, nat) -> string)
    requires forall a: nat, b: nat :: Free(mass(a, b), '\n')
    ensures var parts := [HeaderText(ids, code) + "\n"] + PairLines(ids, Pairs(|ids|), mass);
            var lines := [HeaderText(ids, code)] + PairTexts(ids, mass);
            |parts| == |lines| &&
            forall i :: 0 <= i < |lines| ==> Free(lines[i], '\n') && parts[i] == lines[i] + ['\n']
  {
    var ps := Pairs(|ids|);
    var pl := PairLines(ids, ps, mass);
    var texts := PairTexts(ids, mass);
    var parts := [HeaderText(ids, code) + "\n"] + pl;
    var lines := [HeaderText(ids, code)] + texts;
    HeaderFree(ids, code);
    forall i | 0 <= i < |lines| ensures Free(lines[i], '\n') && parts[i] == lines[i] + ['\n'] {
      if i > 0 {
        assert lines[i] == texts[i - 1] && parts[i] == pl[i - 1];
        PairTextFree(ids, ps[i - 1], mass);
      }
    }
  }

  /** The block is its header line followed by the pair lines. */
  lemma BlockConcat(ids: seq<int>, code: int, mass: (nat, nat) -> string)
    requires |ids| > 0
    ensures HiggsBlock(ids, code, mass) ==
            Concat([HeaderText(ids, code) + "\n"] + PairLines(ids, Pairs(|ids|), mass))
  {
    var pl := PairLines(ids, Pairs(|ids|), mass);
    var pre := "ProductionChannel: " + IntToString(code) + ",";
    var list := Join(IntStrings(ids), ',');
    ListLine(ids, 0);
    assert ids[0..] == ids;
    assert ListFrom(ids, 0) == list + "\n";
    assert HiggsBlock(ids, code, mass) == pre + ListFrom(ids, 0) + Concat(pl);
    assert pre + (list + "\n") == HeaderText(ids, code) + "\n";
    var parts := [HeaderText(ids, code) + "\n"] + pl;
    assert parts[1..] == pl;
    assert Concat(parts) == parts[0] + Concat(pl);
  }

  lemma HeaderFree(ids: seq<int>, code: int)
    ensures Free(HeaderText(ids, code), '\n')
  {
    IntToStringFree(code, '\n');
    IntStringsFree(ids, '\n');
    JoinFree(IntStrings(ids), ',', '\n');
    FreeAppend("ProductionChannel: ", IntToString(code), '\n');
    FreeAppend("ProductionChannel: " + IntToString(code), ",", '\n');
    FreeAppend("ProductionChannel: " + IntToString(code) + ",", Join(IntStrings(ids), ','), '\n');
  }

  lemma PairTextFree(ids: seq<int>, p: (nat, nat), mass: (nat, nat) -> string)
    requires p.0 < |ids| && p.1 < |ids|
    requires Free(mass(p.0, p.1), '\n')
    ensures Free(PairText(ids, p, mass), '\n')
  {
    var a := IntToString(ids[p.0]);
    var b := IntToString(ids[p.1]);
    IntToStringFree(ids[p.0], '\n');
    IntToStringFree(ids[p.1], '\n');
    FreeAppend("InvMass_", a, '\n');
    FreeAppend("InvMass_" + a, "_", '\n');
    FreeAppend("InvMass_" + a + "_", b, '\n');
    FreeAppend("InvMass_" + a + "_" + b, ": ", '\n');
    FreeAppend("InvMass_" + a + "_" + b + ": ", mass(p.0, p.1), '\n');
  }

  /** A decayed Higgs without decay products leaves its line open: the next
      output continues it. */
  lemma NoProductsNoNewline(code: int, mass: (nat, nat) -> string)
    ensures HiggsBlock([], code, mass) == "ProductionChannel: " + IntToString(code) + ","
  {
    assert Pairs(0) == [];
  }

  lemma TwentyTwo()
    ensures IntToString(22) == "22"
  {
    assert NatToString(2) == "2";
  }

  lemma DiphotonList()
    ensures ListFrom([22, 22], 0) == "22,22\n"
  {
    TwentyTwo();
    assert ListFrom([22, 22], 2) == "";
    assert ListFrom([22, 22], 1) == "22\n";
  }

  lemma DiphotonPairs(mass: (nat, nat) -> string)
    ensures Concat(PairLines([22, 22], Pairs(2), mass)) == "InvMass_22_22: " + mass(0, 1) + "\n"
  {
    TwentyTwo();
    assert Pairs(2) == [(0, 1)] by {
      assert PairRow(2, 0) == [(0, 1)];
      assert PairRow(2, 1) == [];
    }
    var ls := PairLines([22, 22], Pairs(2), mass);
    assert ls == [PairLine([22, 22], (0, 1), mass)];
    assert Concat(ls) == ls[0] + Concat([]);
  }

  /** H -> gamma gamma: the list line and the single pair line. */
  lemma DiphotonBlock(code: int, mass: (nat, nat) -> string)
    ensures HiggsBlock([22, 22], code, mass) ==
            "ProductionChannel: " + IntToString(code) + ",22,22\n" + "InvMass_22_22: " + mass(0, 1) + "\n"
  {
    DiphotonList();
    DiphotonPairs(mass);
  }

  /** The decayed Higgs records of an event: species code 25, status -62. */
  function DecayedHiggs(ev: Event): (hs: seq<int>)
    ensures forall a :: 0 <= a < |hs| ==> 0 <= hs[a] < |ev| && IsDecayedHiggs(ev[hs[a]])
    ensures forall k :: 0 <= k < |ev| && IsDecayedHiggs(ev[k]) ==> k in hs
    ensures Increasing(hs)
  {
    Where(ev, IsDecayedHiggs)
  }

  /** One generation attempt. A generated event carries the process code and
      the opaque pair masses, by Higgs record and product positions. */
  datatype Attempt = Failed | Generated(ev: Event, code: int, mass: (int, nat, nat) -> string)

  /** The blocks one event writes: one per decayed Higgs, in record order. */
  function EventBlocks(ev: Event, code: int, mass: (int, nat, nat) -> string): (bs: seq<string>)
    ensures |bs| == |DecayedHiggs(ev)|
  {
    var hs := DecayedHiggs(ev);
    seq(|hs|, i requires 0 <= i < |hs| => BlockOf(ev, hs[i], code, mass))
  }

  /** The block of the record `j`. */
  function BlockOf(ev: Event, j: int, code: int, mass: (int, nat, nat) -> string): string
  {
    HiggsBlock(Ids(ev, ProductIndices(ev, j, EitherMother)), code, (a: nat, b: nat) => mass(j, a, b))
  }

  /** The blocks of all attempts, in order. */
  function Blocks(attempts: seq<Attempt>): seq<string>
  {
    if |attempts| == 0 then []
    else
      (match attempts[0]
       case Failed => []
       case Generated(ev, code, mass) => EventBlocks(ev, code, mass)) + Blocks(attempts[1..])
  }

  /** The running `totalHCount`. */
  function Total(attempts: seq<Attempt>): nat
  {
    if |attempts| == 0 then 0
    else
      (match attempts[0]
       case Failed => 0
       case Generated(ev, _, _) => |DecayedHiggs(ev)|) + Total(attempts[1..])
  }

  const EventAttempts: nat := 100000

  /** The output file: all blocks, then a blank line and the total. The
      printed total is the number of blocks written by the first
      EventAttempts attempts. */
  function Output(attempts: seq<Attempt>): (r: string)
    ensures var tried := if |attempts| <= EventAttempts then attempts else attempts[..EventAttempts];
            var blocks := Concat(Blocks(tried));
            && blocks <= r
            && r[|blocks|..] == "\nTotalHiggsDecays: " + IntToString(|Blocks(tried)|) + "\n"
  {
    var tried := if |attempts| <= EventAttempts then attempts else attempts[..EventAttempts];
    TotalCountsBlocks(tried);
    var blocks := Concat(Blocks(tried));
    var r := blocks + "\nTotalHiggsDecays: " + IntToString(Total(tried)) + "\n";
    assert r == blocks + ("\nTotalHiggsDecays: " + IntToString(Total(tried)) + "\n");
    r
  }

  /** The printed total is the number of blocks written. */
  lemma {:induction false} TotalCountsBlocks(attempts: seq<Attempt>)
    ensures |Blocks(attempts)| == Total(attempts)
  {
    if |attempts| > 0 {
      TotalCountsBlocks(attempts[1..]);
    }
  }
}
