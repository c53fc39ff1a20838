/**
 * The combinatorial invariant masses of thirtytev6.03.cc. For a decayed Higgs
 * with n decay products, every bitmask a in [0, 2^n) selects the products
 * whose bit is set, in ascending position, and each selection of at least
 * two products contributes one invariant mass, in mask order. The invariant
 * mass itself is an opaque function of the selected positions.
 */
module SubsetMasses {
  import opened Wrappers
  import opened Text
  import opened EventRecord

  function Pow2(n: nat): (p: nat)
    ensures p >= 1
  {
    if n == 0 then 1 else 2 * Pow2(n - 1)
  }

  /** Bit b of a: the `a & (1 << b)` test. */
  predicate BitAt(a: nat, b: nat)
  {
    if b == 0 then a % 2 == 1 else BitAt(a / 2, b - 1)
  }

  /** The positions below n whose bit is set in a, ascending: the inner loop. */
  function Selection(a: nat, n: nat): seq<nat>
  {
    if n == 0 then [] else Selection(a, n - 1) + (if BitAt(a, n - 1) then [n - 1] else [])
  }

  /** The selection lists each position below n whose bit is set, once, ascending, and nothing else. */
  lemma {:induction false} SelectionExactly(a: nat, n: nat)
    ensures var sel := Selection(a, n);
            Increasing(sel) &&
            (forall i :: 0 <= i < |sel| ==> sel[i] < n && BitAt(a, sel[i])) &&
            (forall b :: 0 <= b < n && BitAt(a, b) ==> b in sel)
  {
    if n > 0 {
      SelectionExactly(a, n - 1);
    }
  }

  /** The masks in [lo, hi), ascending, that select at least k positions below n. */
  function Masks(n: nat, k: nat, lo: nat, hi: nat): seq<nat>
    decreases hi
  {
    if hi <= lo then []
    else Masks(n, k, lo, hi - 1) + (if Ones(hi - 1, n) >= k then [hi - 1] else [])
  }

  /** The masks are listed in ascending order, and they are exactly those in
      range that select at least k positions. */
  lemma {:induction false} MasksExactly(n: nat, k: nat, lo: nat, hi: nat)
    ensures var ms := Masks(n, k, lo, hi);
            Increasing(ms) &&
            (forall i :: 0 <= i < |ms| ==> lo <= ms[i] < hi && |Selection(ms[i], n)| >= k) &&
            (forall a :: lo <= a < hi && |Selection(a, n)| >= k ==> a in ms)
    decreases hi
  {
    if hi > lo {
      MasksExactly(n, k, lo, hi - 1);
      SelectionSize(hi - 1, n);
      var prev := Masks(n, k, lo, hi - 1);
      if Ones(hi - 1, n) >= k {
        assert Masks(n, k, lo, hi) == prev + [hi - 1];
      } else {
        assert Masks(n, k, lo, hi) == prev;
      }
    }
  }

  /** The masks whose invariant mass is recorded: the outer loop with its size gate. */
  function Recorded(n: nat): seq<nat>
  {
    Masks(n, 2, 0, Pow2(n))
  }

  /** The masses of the selections of the masks `ms`, in order. */
  function MassesOf(ms: seq<nat>, n: nat, mass: seq<nat> -> string): (r: seq<string>)
    ensures |r| == |ms|
    ensures forall i :: 0 <= i < |r| ==> r[i] == mass(Selection(ms[i], n))
  {
    seq(|ms|, i requires 0 <= i < |ms| => mass(Selection(ms[i], n)))
  }

  /** The recorded masses, in mask order. */
  function Masses(n: nat, mass: seq<nat> -> string): seq<string>
  {
    MassesOf(Recorded(n), n, mass)
  }

  /** One more mask: its mass is appended when it selects at least two positions. */
  lemma MassesStep(n: nat, a: nat, mass: seq<nat> -> string)
    ensures MassesOf(Masks(n, 2, 0, a + 1), n, mass) ==
            MassesOf(Masks(n, 2, 0, a), n, mass) + (if |Selection(a, n)| >= 2 then [mass(Selection(a, n))] else [])
  {
    SelectionSize(a, n);
    var ms := Masks(n, 2, 0, a);
    if |Selection(a, n)| >= 2 {
      assert Masks(n, 2, 0, a + 1) == ms + [a];
    } else {
      assert Masks(n, 2, 0, a + 1) == ms;
    }
  }

  /** The inner loop: the set bits of `a` below n, ascending. */
  method SelectedBits(a: nat, n: nat) returns (selected: seq<nat>)
    ensures selected == Selection(a, n)
  {
    selected := [];
    var b := 0;
    while b < n
      invariant 0 <= b <= n
      invariant selected == Selection(a, b)
    {
      if BitAt(a, b) {
        selected := selected + [b];
      }
      b := b + 1;
    }
  }

  /** The two nested loops of the driver: masks ascending, set bits ascending,
      a mass for every selection of at least two products. */
  method RecordMasses(n: nat, mass: seq<nat> -> string) returns (masses: seq<string>)
    requires n < 31
    ensures masses == Masses(n, mass)
    ensures |masses| == Pow2(n) - n - 1
  {
    var limit := Pow2(n);
    masses := [];
    var a := 0;
    while a < limit
      invariant 0 <= a <= limit
      invariant masses == MassesOf(Masks(n, 2, 0, a), n, mass)
    {
      var selected := SelectedBits(a, n);
      MassesStep(n, a, mass);
      if |selected| >= 2 {
        masses := masses + [mass(selected)];
      }
      a := a + 1;
    }
    RecordedCount(n);
  }

  // Bit arithmetic.

  lemma {:induction false} HighBitClear(a: nat, n: nat)
    requires a < Pow2(n)
    ensures !BitAt(a, n)
  {
    if n > 0 {
      HighBitClear(a / 2, n - 1);
    }
  }

  lemma {:induction false} HighBitSet(a: nat, n: nat)
    requires a < Pow2(n)
    ensures BitAt(Pow2(n) + a, n)
  {
    if n > 0 {
      assert (Pow2(n) + a) / 2 == Pow2(n - 1) + a / 2;
      HighBitSet(a / 2, n - 1);
    }
  }

  lemma {:induction false} LowBitsKept(a: nat, n: nat, b: nat)
    requires b < n
    ensures BitAt(Pow2(n) + a, b) == BitAt(a, b)
  {
    if b > 0 {
      assert (Pow2(n) + a) / 2 == Pow2(n - 1) + a / 2;
      LowBitsKept(a / 2, n - 1, b - 1);
    }
  }

  /** The number of positions below n whose bit is set in a. */
  function Ones(a: nat, n: nat): nat
  {
    if n == 0 then 0 else Ones(a, n - 1) + (if BitAt(a, n - 1) then 1 else 0)
  }

  lemma {:induction false} SelectionSize(a: nat, n: nat)
    ensures |Selection(a, n)| == Ones(a, n)
  {
    if n > 0 {
      SelectionSize(a, n - 1);
    }
  }

  /** The number of masks in [lo, hi) with at least k set positions below n. */
  function Count(n: nat, k: nat, lo: nat, hi: nat): nat
    decreases hi
  {
    if hi <= lo then 0 else Count(n, k, lo, hi - 1) + (if Ones(hi - 1, n) >= k then 1 else 0)
  }

  lemma {:induction false} MasksCount(n: nat, k: nat, lo: nat, hi: nat)
    ensures |Masks(n, k, lo, hi)| == Count(n, k, lo, hi)
    decreases hi
  {
    if hi > lo {
      MasksCount(n, k, lo, hi - 1);
    }
  }

  /** Below 2^n, one more position adds no set bit. */
  lemma OnesBelow(a: nat, n: nat)
    requires a < Pow2(n)
    ensures Ones(a, n + 1) == Ones(a, n)
  {
    HighBitClear(a, n);
  }

  /** Adding 2^n keeps the set bits below n. */
  lemma {:induction false} OnesLow(a: nat, n: nat, m: nat)
    requires m <= n
    ensures Ones(Pow2(n) + a, m) == Ones(a, m)
  {
    if m > 0 {
      OnesLow(a, n, m - 1);
      LowBitsKept(a, n, m - 1);
    }
  }

  /** Adding 2^n to a mask below 2^n sets one more bit, position n. */
  lemma OnesAbove(a: nat, n: nat)
    requires a < Pow2(n)
    ensures Ones(Pow2(n) + a, n + 1) == Ones(a, n) + 1
  {
    OnesLow(a, n, n);
    HighBitSet(a, n);
  }

  // Counting.

  lemma {:induction false} CountSplit(n: nat, k: nat, lo: nat, mid: nat, hi: nat)
    requires lo <= mid <= hi
    ensures Count(n, k, lo, hi) == Count(n, k, lo, mid) + Count(n, k, mid, hi)
    decreases hi
  {
    if hi > mid {
      CountSplit(n, k, lo, mid, hi - 1);
    }
  }

  /** The lower half counts as it did with one position fewer. */
  lemma {:induction false} LowerHalf(n: nat, k: nat, hi: nat)
    requires hi <= Pow2(n)
    ensures Count(n + 1, k, 0, hi) == Count(n, k, 0, hi)
    decreases hi
  {
    if hi > 0 {
      LowerHalf(n, k, hi - 1);
      OnesBelow(hi - 1, n);
    }
  }

  /** The upper half counts the masks of the lower half with one position fewer. */
  lemma {:induction false} UpperHalf(n: nat, k: nat, hi: nat)
    requires hi <= Pow2(n)
    ensures Count(n + 1, k + 1, Pow2(n), Pow2(n) + hi) == Count(n, k, 0, hi)
    decreases hi
  {
    if hi > 0 {
      UpperHalf(n, k, hi - 1);
      OnesAbove(hi - 1, n);
      assert Pow2(n) + hi - 1 == Pow2(n) + (hi - 1);
    }
  }

  /** Masks below 2^(n+1) with at least k+1 set bits below n+1: those below
      2^n with at least k+1, plus those below 2^n with at least k. */
  lemma CountStep(n: nat, k: nat)
    ensures Count(n + 1, k + 1, 0, Pow2(n + 1)) == Count(n, k + 1, 0, Pow2(n)) + Count(n, k, 0, Pow2(n))
  {
    CountSplit(n + 1, k + 1, 0, Pow2(n), Pow2(n + 1));
    LowerHalf(n, k + 1, Pow2(n));
    UpperHalf(n, k, Pow2(n));
  }

  lemma {:induction false} CountAll(n: nat, hi: nat)
    ensures Count(n, 0, 0, hi) == hi
  {
    if hi > 0 {
      CountAll(n, hi - 1);
    }
  }

  lemma {:induction false} CountNonEmpty(n: nat)
    ensures Count(n, 1, 0, Pow2(n)) == Pow2(n) - 1
  {
    if n > 0 {
      CountNonEmpty(n - 1);
      CountStep(n - 1, 0);
      CountAll(n - 1, Pow2(n - 1));
    }
  }

  lemma {:induction false} CountMulti(n: nat)
    ensures Count(n, 2, 0, Pow2(n)) == Pow2(n) - n - 1
  {
    if n > 0 {
      CountMulti(n - 1);
      CountStep(n - 1, 1);
      CountNonEmpty(n - 1);
    }
  }

  /** One recorded mass per subset of at least two of the n products: 2^n - n - 1. */
  lemma RecordedCount(n: nat)
    ensures |Recorded(n)| == Pow2(n) - n - 1
  {
    MasksCount(n, 2, 0, Pow2(n));
    CountMulti(n);
  }

  lemma SelectionOfFive()
    ensures Selection(5, 3) == [0, 2]
  {
    assert BitAt(5, 0) && !BitAt(5, 1) && BitAt(5, 2);
    assert Selection(5, 1) == [0];
    assert Selection(5, 2) == [0];
  }

  lemma OnesBelowFour()
    ensures Ones(0, 3) == 0 && Ones(1, 3) == 1 && Ones(2, 3) == 1 && Ones(3, 3) == 2
  {
    assert BitAt(3, 0) && BitAt(3, 1);
  }

  lemma OnesFromFour()
    ensures Ones(4, 3) == 1 && Ones(5, 3) == 2 && Ones(6, 3) == 2 && Ones(7, 3) == 3
  {
    assert BitAt(5, 0) && BitAt(5, 2);
  }

  lemma MasksBelowFour()
    ensures Masks(3, 2, 0, 4) == [3]
  {
    OnesBelowFour();
  }

  /** Three products: the pairs {0,1}, {0,2}, {1,2}, then all three. */
  lemma ThreeProducts()
    ensures Recorded(3) == [3, 5, 6, 7]
  {
    MasksBelowFour();
    OnesFromFour();
    assert Masks(3, 2, 0, 5) == [3];
    assert Masks(3, 2, 0, 6) == [3, 5];
    assert Masks(3, 2, 0, 7) == [3, 5, 6];
    assert Pow2(3) == 8;
  }

  /** Two products: only the pair. */
  lemma TwoProducts()
    ensures Recorded(2) == [3]
  {
    assert BitAt(3, 0) && BitAt(3, 1);
    assert Ones(0, 2) == 0 && Ones(1, 2) == 1 && Ones(2, 2) == 1 && Ones(3, 2) == 2;
    assert Masks(2, 2, 0, 3) == [];
    assert Pow2(2) == 4;
  }

  lemma SelectionOfThree()
    ensures Selection(3, 3) == [0, 1]
  {
    assert BitAt(3, 0) && BitAt(3, 1) && !BitAt(3, 2);
    assert Selection(3, 1) == [0];
    assert Selection(3, 2) == [0, 1];
  }

  lemma SelectionOfSix()
    ensures Selection(6, 3) == [1, 2]
  {
    assert !BitAt(6, 0) && BitAt(6, 1) && BitAt(6, 2);
    assert Selection(6, 1) == [];
    assert Selection(6, 2) == [1];
  }

  lemma SelectionOfSeven()
    ensures Selection(7, 3) == [0, 1, 2]
  {
    assert BitAt(7, 0) && BitAt(7, 1) && BitAt(7, 2);
    assert Selection(7, 1) == [0];
    assert Selection(7, 2) == [0, 1];
  }

  lemma MassesOfFour(ms: seq<nat>, n: nat, mass: seq<nat> -> string, s0: seq<nat>, s1: seq<nat>, s2: seq<nat>, s3: seq<nat>)
    requires |ms| == 4
    requires Selection(ms[0], n) == s0 && Selection(ms[1], n) == s1
    requires Selection(ms[2], n) == s2 && Selection(ms[3], n) == s3
    ensures MassesOf(ms, n, mass) == [mass(s0), mass(s1), mass(s2), mass(s3)]
  {
  }

  /** For three products the masses are recorded for {0,1}, {0,2}, {1,2} and {0,1,2}, in that order. */
  lemma ThreeProductMasses(mass: seq<nat> -> string)
    ensures Masses(3, mass) == [mass([0, 1]), mass([0, 2]), mass([1, 2]), mass([0, 1, 2])]
  {
    ThreeProducts();
    SelectionOfThree();
    SelectionOfFive();
    SelectionOfSix();
    SelectionOfSeven();
    MassesOfFour([3, 5, 6, 7], 3, mass, [0, 1], [0, 2], [1, 2], [0, 1, 2]);
  }

  lemma {:induction false} Pow2Exceeds(n: nat)
    requires n >= 2
    ensures Pow2(n) >= n + 2
  {
    if n > 2 {
      Pow2Exceeds(n - 1);
    }
  }

  /** The row of a decayed Higgs with at least two products: the process code,
      the `;`-joined species codes and the `;`-joined masses. */
  function RowText(code: int, ids: seq<int>, masses: seq<string>): string
  {
    IntToString(code) + "," + Join(IntStrings(ids), ';') + "," + Join(masses, ';') + "\n"
  }

  /** The row for the record `j`, or nothing when it has fewer than two products.
      `mass` gives the invariant mass of the products at the selected positions. */
  function HiggsRow(ev: Event, j: int, code: int, mass: seq<nat> -> string): (r: string)
    ensures |ProductIndices(ev, j, EitherMother)| < 2 <==> r == ""
  {
    var ks := ProductIndices(ev, j, EitherMother);
    if |ks| < 2 then "" else RowText(code, Ids(ev, ks), Masses(|ks|, mass))
  }

  datatype RowData = RowData(code: int, species: seq<int>, masses: seq<string>)

  function DecodeRow(line: string): Option<RowData>
  {
    if |line| == 0 || line[|line| - 1] != '\n' then None
    else
      var f := Split(line[..|line| - 1], ',');
      if |f| != 3 then None
      else
        var c := ParseInt(f[0]);
        var ids := ParseInts(Split(f[1], ';'));
        if c.Some? && ids.Some? then Some(RowData(c.value, ids.value, Split(f[2], ';'))) else None
  }

  /** A printed mass contains neither delimiter. */
  ghost predicate Printable(mass: seq<nat> -> string)
  {
    forall sel :: Free(mass(sel), ',') && Free(mass(sel), ';')
  }

  lemma ThreeColumns(a: string, b: string, c: string)
    requires Free(a, ',') && Free(b, ',') && Free(c, ',')
    ensures Split(a + "," + b + "," + c, ',') == [a, b, c]
  {
    SplitFree(c, ',');
    SplitAtSeparator(b, ',', c);
    SplitAtSeparator(a, ',', b + "," + c);
    assert a + "," + b + "," + c == a + [','] + (b + [','] + c);
  }

  /** A row reads back as the code, the species codes and the masses. */
  lemma RowTextRoundTrip(code: int, ids: seq<int>, masses: seq<string>)
    requires |ids| > 0 && |masses| > 0
    requires forall i :: 0 <= i < |masses| ==> Free(masses[i], ',') && Free(masses[i], ';')
    ensures DecodeRow(RowText(code, ids, masses)) == Some(RowData(code, ids, masses))
  {
    var c0 := IntToString(code);
    var c1 := Join(IntStrings(ids), ';');
    var c2 := Join(masses, ';');
    IntToStringFree(code, ',');
    forall i | 0 <= i < |ids| ensures Free(IntStrings(ids)[i], ',') {
      IntToStringFree(ids[i], ',');
    }
    JoinFree(IntStrings(ids), ';', ',');
    JoinFree(masses, ';', ',');
    ThreeColumns(c0, c1, c2);
    var line := RowText(code, ids, masses);
    assert line[..|line| - 1] == c0 + "," + c1 + "," + c2;
    IntToStringRoundTrip(code);
    IntListRoundTrip(ids, ';');
    SplitJoin(masses, ';');
  }

  /** Every row reads back with one mass per subset of at least two of its
      decay products: 2^n - n - 1 of them for n products. */
  lemma HiggsRowDecodes(ev: Event, j: int, code: int, mass: seq<nat> -> string)
    requires |ProductIndices(ev, j, EitherMother)| >= 2 && Printable(mass)
    ensures var d := DecodeRow(HiggsRow(ev, j, code, mass));
            var ks := ProductIndices(ev, j, EitherMother);
            d == Some(RowData(code, Ids(ev, ks), Masses(|ks|, mass))) &&
            |d.value.masses| == Pow2(|d.value.species|) - |d.value.species| - 1
  {
    var ks := ProductIndices(ev, j, EitherMother);
    var n := |ks|;
    RecordedCount(n);
    Pow2Exceeds(n);
    RowTextRoundTrip(code, Ids(ev, ks), Masses(n, mass));
  }
  const Header := "ProductionChannel,DecayProducts,InvMasses\n"
  const EventAttempts: nat := 10000

  /** The decayed Higgs records of an event that have at least two products, in record order. */
  function Candidates(ev: Event): seq<int>
  {
    Gated(ev, Where(ev, IsDecayedHiggs))
  }

  /** One generation attempt. A generated event carries the process code and
      the opaque masses, by Higgs record and selected product positions. */
  datatype Attempt = Failed | Generated(ev: Event, code: int, mass: (int, seq<nat>) -> string)

  /** No printed mass of any record contains either delimiter. */
  ghost predicate PrintableAll(mass: (int, seq<nat>) -> string)
  {
    forall j, sel :: Free(mass(j, sel), ',') && Free(mass(j, sel), ';')
  }

  /** The rows one event writes: one per candidate, in record order. */
  function EventRows(ev: Event, code: int, mass: (int, seq<nat>) -> string): seq<string>
  {
    var gs := Candidates(ev);
    seq(|gs|, i requires 0 <= i < |gs| => HiggsRow(ev, gs[i], code, (sel: seq<nat>) => mass(gs[i], sel)))
  }

  /** Every row of an event belongs to a decayed Higgs boson with at least two
      products and reads back as the process code, the species codes of its
      products and one mass per subset of at least two of them; every such
      record has a row. */
  lemma EventRowsDecode(ev: Event, code: int, mass: (int, seq<nat>) -> string)
    requires PrintableAll(mass)
    ensures var gs := Candidates(ev);
            var rows := EventRows(ev, code, mass);
            |rows| == |gs| &&
            (forall i :: 0 <= i < |gs| ==>
               0 <= gs[i] < |ev| && IsDecayedHiggs(ev[gs[i]]) &&
               var ks := ProductIndices(ev, gs[i], EitherMother);
               |ks| >= 2 &&
               DecodeRow(rows[i]) == Some(RowData(code, Ids(ev, ks), Masses(|ks|, (sel: seq<nat>) => mass(gs[i], sel))))) &&
            (forall j :: 0 <= j < |ev| && IsDecayedHiggs(ev[j]) && |ProductIndices(ev, j, EitherMother)| >= 2 ==> j in gs)
  {
    var hs := Where(ev, IsDecayedHiggs);
    var gs := Candidates(ev);
    var rows := EventRows(ev, code, mass);
    forall i | 0 <= i < |gs|
      ensures 0 <= gs[i] < |ev| && IsDecayedHiggs(ev[gs[i]])
      ensures var ks := ProductIndices(ev, gs[i], EitherMother);
              |ks| >= 2 &&
              DecodeRow(rows[i]) == Some(RowData(code, Ids(ev, ks), Masses(|ks|, (sel: seq<nat>) => mass(gs[i], sel))))
    {
      assert gs[i] in hs;
      HiggsRowDecodes(ev, gs[i], code, (sel: seq<nat>) => mass(gs[i], sel));
    }
    forall j | 0 <= j < |ev| && IsDecayedHiggs(ev[j]) && |ProductIndices(ev, j, EitherMother)| >= 2
      ensures j in gs
    {
      assert j in hs;
      var a :| 0 <= a < |hs| && hs[a] == j;
    }
  }

  /** The rows of all attempts, in order. */
  function Rows(attempts: seq<Attempt>): seq<string>
  {
    if |attempts| == 0 then []
    else
      (match attempts[0]
       case Failed => []
       case Generated(ev, code, mass) => EventRows(ev, code, mass)) + Rows(attempts[1..])
  }

  /** The number of candidates over all generated events. */
  function CandidateCount(attempts: seq<Attempt>): nat
  {
    if |attempts| == 0 then 0
    else
      (match attempts[0]
       case Failed => 0
       case Generated(ev, _, _) => |Candidates(ev)|) + CandidateCount(attempts[1..])
  }

  /** One row per candidate of every generated event. */
  lemma {:induction false} RowsCount(attempts: seq<Attempt>)
    ensures |Rows(attempts)| == CandidateCount(attempts)
  {
    if |attempts| > 0 {
      RowsCount(attempts[1..]);
    }
  }

  /** The output file: the header, then the rows of the first 10000 attempts. */
  function Output(attempts: seq<Attempt>): (out: string)
    ensures Header <= out
  {
    var tried := if |attempts| <= EventAttempts then attempts else attempts[..EventAttempts];
    Header + Concat(Rows(tried))
  }
}
