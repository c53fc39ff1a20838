/**
 * The training-data driver of training_smeft100.cc: selection of the Higgs
 * family records, the two-product gate, the jet-multiplicity count, the CSV
 * row, and the event loop that pairs the i-th generation attempt with the
 * i-th production-channel code of the LHE scan. Invariant mass, transverse
 * momentum and rapidity are opaque text supplied by a Measure; the jet
 * clustering is given as the list of jet transverse momenta.
 */
module SmeftTraining {
  import opened Wrappers
  import opened Text
  import opened EventRecord

  const JetPtCut: real := 30.0
  const EventAttempts: nat := 25000
  const Header := "HiggsBoson, ProductionChannel, DecayProducts, InvMasses, pT, Rapidity, JetMultiplicity\n"

  /** The neutral (25, 35, 36) and charged (37) Higgs states, once decayed. */
  predicate IsHiggsFamily(p: Particle)
  {
    (p.id == 25 || p.id == 35 || p.id == 36 || p.id == 37) && p.status == -62
  }

  /** The number of entries strictly above `cut`. */
  function CountAbove(xs: seq<real>, cut: real): (n: nat)
    ensures n <= |xs|
  {
    if |xs| == 0 then 0
    else CountAbove(xs[..|xs| - 1], cut) + (if xs[|xs| - 1] > cut then 1 else 0)
  }

  /** The `jet.pt() > 30.0` loop. */
  method JetMultiplicity(pts: seq<real>) returns (n: nat)
    ensures n == CountAbove(pts, JetPtCut)
    ensures n <= |pts|
  {
    n := 0;
    var i := 0;
    while i < |pts|
      invariant 0 <= i <= |pts|
      invariant n == CountAbove(pts[..i], JetPtCut)
    {
      assert pts[..i + 1][..i] == pts[..i];
      if pts[i] > JetPtCut {
        n := n + 1;
      }
      i := i + 1;
    }
    assert pts[..|pts|] == pts;
  }

  /** Every jet counts exactly when every jet is above the cut. */
  lemma {:induction false} CountAboveAll(xs: seq<real>, cut: real)
    ensures CountAbove(xs, cut) == |xs| <==> forall i :: 0 <= i < |xs| ==> xs[i] > cut
  {
    if |xs| > 0 {
      var init := xs[..|xs| - 1];
      CountAboveAll(init, cut);
      if forall i :: 0 <= i < |xs| ==> xs[i] > cut {
        forall i | 0 <= i < |init| ensures init[i] > cut {
          assert init[i] == xs[i];
        }
      }
      if CountAbove(xs, cut) == |xs| {
        forall i | 0 <= i < |xs| ensures xs[i] > cut {
          if i < |init| {
            assert init[i] == xs[i];
          }
        }
      }
    }
  }

  /** No jet counts exactly when none is above the cut. */
  lemma {:induction false} CountAboveNone(xs: seq<real>, cut: real)
    ensures CountAbove(xs, cut) == 0 <==> forall i :: 0 <= i < |xs| ==> xs[i] <= cut
  {
    if |xs| > 0 {
      var init := xs[..|xs| - 1];
      CountAboveNone(init, cut);
      if forall i :: 0 <= i < |xs| ==> xs[i] <= cut {
        forall i | 0 <= i < |init| ensures init[i] <= cut {
          assert init[i] == xs[i];
        }
      }
      if CountAbove(xs, cut) == 0 {
        forall i | 0 <= i < |xs| ensures xs[i] <= cut {
          if i < |init| {
            assert init[i] == xs[i];
          }
        }
      }
    }
  }

  lemma MultiplicityExample()
    ensures CountAbove([45.0, 12.5, 30.0, 31.0], JetPtCut) == 2
  {
    assert [45.0, 12.5, 30.0, 31.0][..3] == [45.0, 12.5, 30.0];
    assert [45.0, 12.5, 30.0][..2] == [45.0, 12.5];
    assert [45.0, 12.5][..1] == [45.0];
    assert [45.0][..0] == [];
  }

  /** The opaque kinematic text of one Higgs candidate: the invariant mass of
      its decay products (by record index), and the transverse momentum and
      rapidity of the record itself. */
  datatype Measure = Measure(invMass: seq<int> -> string, pT: int -> string, rapidity: int -> string)

  /** One row: Higgs species code, channel code, `;`-joined decay products,
      mass, transverse momentum, rapidity and jet multiplicity. */
  function RowText(higgs: int, channel: int, ids: seq<int>, mass: string, pT: string, y: string, mult: int): string
  {
    IntToString(higgs) + "," + IntToString(channel) + "," + Join(IntStrings(ids), ';') + ","
    + mass + "," + pT + "," + y + "," + IntToString(mult) + "\n"
  }

  /** The row for the record `j`: written only when it has at least two decay products. */
  function HiggsRow(ev: Event, j: int, channel: int, m: Measure, jetPts: seq<real>): (r: string)
    requires 0 <= j < |ev|
    ensures |ProductIndices(ev, j, EitherMother)| < 2 <==> r == ""
    ensures r != "" ==> r[|r| - 1] == '\n'
  {
    var ks := ProductIndices(ev, j, EitherMother);
    if |ks| < 2 then ""
    else RowText(ev[j].id, channel, Ids(ev, ks), m.invMass(ks), m.pT(j), m.rapidity(j), CountAbove(jetPts, JetPtCut))
  }

  /** The decoded content of one row. */
  datatype RowData = RowData(higgs: int, channel: int, species: seq<int>, mass: string,
                             pT: string, rapidity: string, jets: int)

  /** Reads a line back: seven `,`-columns ending in a newline, with integers
      in columns 1, 2 and 7 and a `;`-list of integers in column 3. */
  function DecodeRow(line: string): Option<RowData>
  {
    if |line| == 0 || line[|line| - 1] != '\n' then None
    else
      var f := Split(line[..|line| - 1], ',');
      if |f| != 7 then None
      else
        var h := ParseInt(f[0]);
        var c := ParseInt(f[1]);
        var ids := ParseInts(Split(f[2], ';'));
        var n := ParseInt(f[6]);
        if h.Some? && c.Some? && ids.Some? && n.Some? then
          Some(RowData(h.value, c.value, ids.value, f[3], f[4], f[5], n.value))
        else None
  }

  lemma JoinSeven(a: string, b: string, c: string, d: string, e: string, f: string, g: string, sep: char)
    ensures Join([a, b, c, d, e, f, g], sep) ==
            a + [sep] + b + [sep] + c + [sep] + d + [sep] + e + [sep] + f + [sep] + g
  {
    JoinSnoc([a], b, sep);
    assert [a] + [b] == [a, b];
    JoinSnoc([a, b], c, sep);
    assert [a, b] + [c] == [a, b, c];
    JoinSnoc([a, b, c], d, sep);
    assert [a, b, c] + [d] == [a, b, c, d];
    JoinSnoc([a, b, c, d], e, sep);
    assert [a, b, c, d] + [e] == [a, b, c, d, e];
    JoinSnoc([a, b, c, d, e], f, sep);
    assert [a, b, c, d, e] + [f] == [a, b, c, d, e, f];
    JoinSnoc([a, b, c, d, e, f], g, sep);
    assert [a, b, c, d, e, f] + [g] == [a, b, c, d, e, f, g];
  }

  function Columns(higgs: int, channel: int, ids: seq<int>, mass: string, pT: string, y: string, mult: int): seq<string>
  {
    [IntToString(higgs), IntToString(channel), Join(IntStrings(ids), ';'), mass, pT, y, IntToString(mult)]
  }

  lemma ColumnsFree(higgs: int, channel: int, ids: seq<int>, mass: string, pT: string, y: string, mult: int)
    requires Free(mass, ',') && Free(pT, ',') && Free(y, ',')
    ensures var c := Columns(higgs, channel, ids, mass, pT, y, mult);
            forall i :: 0 <= i < |c| ==> Free(c[i], ',')
  {
    IntToStringFree(higgs, ',');
    IntToStringFree(channel, ',');
    IntToStringFree(mult, ',');
    forall i | 0 <= i < |ids| ensures Free(IntStrings(ids)[i], ',') {
      IntToStringFree(ids[i], ',');
    }
    JoinFree(IntStrings(ids), ';', ',');
  }

  /** A row splits back into its seven columns. */
  lemma RowColumns(higgs: int, channel: int, ids: seq<int>, mass: string, pT: string, y: string, mult: int)
    requires Free(mass, ',') && Free(pT, ',') && Free(y, ',')
    ensures var line := RowText(higgs, channel, ids, mass, pT, y, mult);
            |line| > 0 && line[|line| - 1] == '\n' &&
            Split(line[..|line| - 1], ',') == Columns(higgs, channel, ids, mass, pT, y, mult)
  {
    var c := Columns(higgs, channel, ids, mass, pT, y, mult);
    JoinSeven(c[0], c[1], c[2], c[3], c[4], c[5], c[6], ',');
    assert c == [c[0], c[1], c[2], c[3], c[4], c[5], c[6]];
    ColumnsFree(higgs, channel, ids, mass, pT, y, mult);
    SplitJoin(c, ',');
    var line := Join(c, ',') + "\n";
    assert line == RowText(higgs, channel, ids, mass, pT, y, mult);
    assert line[..|line| - 1] == Join(c, ',');
  }

  /** A row reads back as exactly what was written. */
  lemma {:induction false} RowTextRoundTrip(higgs: int, channel: int, ids: seq<int>, mass: string,
                                            pT: string, y: string, mult: int)
    requires |ids| > 0
    requires Free(mass, ',') && Free(pT, ',') && Free(y, ',')
    ensures DecodeRow(RowText(higgs, channel, ids, mass, pT, y, mult)) ==
            Some(RowData(higgs, channel, ids, mass, pT, y, mult))
  {
    RowColumns(higgs, channel, ids, mass, pT, y, mult);
    IntToStringRoundTrip(higgs);
    IntToStringRoundTrip(channel);
    IntToStringRoundTrip(mult);
    IntListRoundTrip(ids, ';');
  }

  /** The Higgs-family records of an event, in record order. */
  function HiggsRecords(ev: Event): (hs: seq<int>)
    ensures forall a :: 0 <= a < |hs| ==> 0 <= hs[a] < |ev| && IsHiggsFamily(ev[hs[a]])
    ensures forall k :: 0 <= k < |ev| && IsHiggsFamily(ev[k]) ==> k in hs
  {
    Where(ev, IsHiggsFamily)
  }

  /** The rows of the records `hs`, in order. */
  function RowsAt(ev: Event, hs: seq<int>, channel: int, m: Measure, jetPts: seq<real>): (rows: seq<string>)
    requires forall a :: 0 <= a < |hs| ==> 0 <= hs[a] < |ev|
    ensures |rows| <= |hs|
  {
    if |hs| == 0 then []
    else
      var r := HiggsRow(ev, hs[0], channel, m, jetPts);
      (if r == "" then [] else [r]) + RowsAt(ev, hs[1..], channel, m, jetPts)
  }

  /** The rows one event writes. */
  function EventRows(ev: Event, channel: int, m: Measure, jetPts: seq<real>): seq<string>
  {
    RowsAt(ev, HiggsRecords(ev), channel, m, jetPts)
  }

  /** What the row of the record `g` holds. */
  function Expected(ev: Event, g: int, channel: int, m: Measure, jetPts: seq<real>): RowData
    requires 0 <= g < |ev|
  {
    var ks := ProductIndices(ev, g, EitherMother);
    RowData(ev[g].id, channel, Ids(ev, ks), m.invMass(ks), m.pT(g), m.rapidity(g), CountAbove(jetPts, JetPtCut))
  }

  /** Every kinematic text is free of the column delimiter. */
  ghost predicate Printable(m: Measure)
  {
    (forall ks :: Free(m.invMass(ks), ',')) && (forall k :: Free(m.pT(k), ',') && Free(m.rapidity(k), ','))
  }

  lemma HiggsRowDecodes(ev: Event, g: int, channel: int, m: Measure, jetPts: seq<real>)
    requires 0 <= g < |ev| && |ProductIndices(ev, g, EitherMother)| >= 2
    requires Printable(m)
    ensures DecodeRow(HiggsRow(ev, g, channel, m, jetPts)) == Some(Expected(ev, g, channel, m, jetPts))
  {
    var ks := ProductIndices(ev, g, EitherMother);
    RowTextRoundTrip(ev[g].id, channel, Ids(ev, ks), m.invMass(ks), m.pT(g), m.rapidity(g), CountAbove(jetPts, JetPtCut));
  }

  /** The rows of `hs` are the rows of its gated records, one each, in order. */
  lemma {:induction false} RowsAtGated(ev: Event, hs: seq<int>, channel: int, m: Measure, jetPts: seq<real>)
    requires forall a :: 0 <= a < |hs| ==> 0 <= hs[a] < |ev|
    ensures var rows := RowsAt(ev, hs, channel, m, jetPts);
            var gs := Gated(ev, hs);
            |rows| == |gs| &&
            forall i :: 0 <= i < |rows| ==> 0 <= gs[i] < |ev| && rows[i] == HiggsRow(ev, gs[i], channel, m, jetPts)
  {
    if |hs| > 0 {
      RowsAtGated(ev, hs[1..], channel, m, jetPts);
      var rows := RowsAt(ev, hs, channel, m, jetPts);
      var rest := RowsAt(ev, hs[1..], channel, m, jetPts);
      var gs := Gated(ev, hs);
      var later := Gated(ev, hs[1..]);
      if |ProductIndices(ev, hs[0], EitherMother)| >= 2 {
        assert rows == [HiggsRow(ev, hs[0], channel, m, jetPts)] + rest;
        assert gs == [hs[0]] + later;
        forall i | 0 < i < |rows|
          ensures 0 <= gs[i] < |ev| && rows[i] == HiggsRow(ev, gs[i], channel, m, jetPts)
        {
          assert rows[i] == rest[i - 1] && gs[i] == later[i - 1];
        }
      } else {
        assert rows == rest && gs == later;
      }
    }
  }

  /** One row per gated record, in record order, each reading back as that
      record's species code, the event's channel code, its decay products,
      its kinematic text and the event's jet multiplicity. */
  lemma RowsAtDecode(ev: Event, hs: seq<int>, channel: int, m: Measure, jetPts: seq<real>)
    requires forall a :: 0 <= a < |hs| ==> 0 <= hs[a] < |ev|
    requires Printable(m)
    ensures var rows := RowsAt(ev, hs, channel, m, jetPts);
            var gs := Gated(ev, hs);
            |rows| == |gs| &&
            forall i :: 0 <= i < |rows| ==> 0 <= gs[i] < |ev| && DecodeRow(rows[i]) == Some(Expected(ev, gs[i], channel, m, jetPts))
  {
    RowsAtGated(ev, hs, channel, m, jetPts);
    var rows := RowsAt(ev, hs, channel, m, jetPts);
    var gs := Gated(ev, hs);
    forall i | 0 <= i < |rows|
      ensures DecodeRow(rows[i]) == Some(Expected(ev, gs[i], channel, m, jetPts))
    {
      HiggsRowDecodes(ev, gs[i], channel, m, jetPts);
    }
  }

  /** One generation attempt: `pythia.next()` failed, or it produced an event
      together with its opaque kinematics and the transverse momenta of its jets. */
  datatype Attempt = Failed | Generated(ev: Event, m: Measure, jetPts: seq<real>)

  /** The rows of the i-th attempt. The channel code is looked up only when
      the event has a Higgs-family record; None when that lookup falls past
      the end of the channel list. */
  function AttemptRows(channels: seq<int>, a: Attempt, i: nat): (r: Option<seq<string>>)
    ensures r.None? <==> a.Generated? && |HiggsRecords(a.ev)| > 0 && i >= |channels|
  {
    match a
    case Failed => Some([])
    case Generated(ev, m, pts) =>
      if |HiggsRecords(ev)| == 0 then Some([])
      else if i < |channels| then Some(EventRows(ev, channels[i], m, pts))
      else None
  }

  /** The event loop from attempt `i` on. */
  function RowsFrom(channels: seq<int>, attempts: seq<Attempt>, i: nat): Option<seq<string>>
    requires i <= |attempts|
    decreases |attempts| - i
  {
    if i == |attempts| then Some([])
    else
      var here := AttemptRows(channels, attempts[i], i);
      var rest := RowsFrom(channels, attempts, i + 1);
      if here.Some? && rest.Some? then Some(here.value + rest.value) else None
  }

  /** Exit status and output file. */
  datatype Outcome = Outcome(exitCode: int, file: string)

  /** The attempts the loop makes: at most 25000. */
  function Tried(attempts: seq<Attempt>): (t: seq<Attempt>)
    ensures |t| <= EventAttempts && t <= attempts
    ensures |attempts| <= EventAttempts ==> t == attempts
  {
    if |attempts| <= EventAttempts then attempts else attempts[..EventAttempts]
  }

  /** The driver. An empty channel list ends it with status 1 before the header
      is written; None stands for a channel lookup past the end of the list. */
  function Run(channels: seq<int>, attempts: seq<Attempt>): (r: Option<Outcome>)
    ensures |channels| == 0 ==> r == Some(Outcome(1, ""))
    ensures r.Some? && |channels| > 0 ==> r.value.exitCode == 0 && Header <= r.value.file
  {
    if |channels| == 0 then Some(Outcome(1, ""))
    else
      var rows := RowsFrom(channels, Tried(attempts), 0);
      if rows.Some? then Some(Outcome(0, Header + Concat(rows.value))) else None
  }

  /** The rows of an attempt given its channel code. */
  function GeneratedRows(a: Attempt, channel: int): seq<string>
  {
    match a
    case Failed => []
    case Generated(ev, m, pts) => EventRows(ev, channel, m, pts)
  }

  /** Reference: attempt i, failed or not, is paired with the i-th channel code. */
  function Aligned(channels: seq<int>, attempts: seq<Attempt>, i: nat): seq<string>
    requires i <= |attempts| <= |channels|
    decreases |attempts| - i
  {
    if i == |attempts| then [] else GeneratedRows(attempts[i], channels[i]) + Aligned(channels, attempts, i + 1)
  }

  /** With a channel code for every attempt, the loop writes the rows of each
      attempt with that attempt's own code, in order. */
  lemma {:induction false} RowsFromAligned(channels: seq<int>, attempts: seq<Attempt>, i: nat)
    requires i <= |attempts| <= |channels|
    ensures RowsFrom(channels, attempts, i) == Some(Aligned(channels, attempts, i))
    decreases |attempts| - i
  {
    if i < |attempts| {
      RowsFromAligned(channels, attempts, i + 1);
      match attempts[i]
      case Failed =>
      case Generated(ev, m, pts) =>
        if |HiggsRecords(ev)| == 0 {
          assert EventRows(ev, channels[i], m, pts) == [];
        }
    }
  }

  /** A generated attempt with a Higgs-family record and no channel code of its own makes the run undefined. */
  lemma {:induction false} UndefinedPastChannels(channels: seq<int>, attempts: seq<Attempt>, i: nat, k: nat)
    requires i <= k < |attempts| && k >= |channels|
    requires attempts[k].Generated? && |HiggsRecords(attempts[k].ev)| > 0
    ensures RowsFrom(channels, attempts, i) == None
    decreases k - i
  {
    if i < k {
      UndefinedPastChannels(channels, attempts, i + 1, k);
      assert RowsFrom(channels, attempts, i + 1).None?;
    } else {
      assert AttemptRows(channels, attempts[i], i).None?;
    }
  }

  /** Enough channel codes make the run defined: the header, then the aligned rows. */
  lemma RunDefined(channels: seq<int>, attempts: seq<Attempt>)
    requires |channels| > 0 && |Tried(attempts)| <= |channels|
    ensures Run(channels, attempts) == Some(Outcome(0, Header + Concat(Aligned(channels, Tried(attempts), 0))))
  {
    RowsFromAligned(channels, Tried(attempts), 0);
  }

  /** Every row of an event reads back as a Higgs-family species code, the
      event's channel code and at least two decay products. */
  lemma EventRowsDecode(ev: Event, channel: int, m: Measure, jetPts: seq<real>)
    requires Printable(m)
    ensures var rows := EventRows(ev, channel, m, jetPts);
            forall i :: 0 <= i < |rows| ==>
              var d := DecodeRow(rows[i]);
              d.Some? && d.value.higgs in {25, 35, 36, 37} && d.value.channel == channel && |d.value.species| >= 2
  {
    var hs := HiggsRecords(ev);
    RowsAtDecode(ev, hs, channel, m, jetPts);
    var gs := Gated(ev, hs);
    forall i | 0 <= i < |gs| ensures IsHiggsFamily(ev[gs[i]]) {
      assert gs[i] in hs;
    }
  }
}
