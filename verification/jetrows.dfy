/**
 * The CSV rows of com13wjets.cc and com100wjets.cc: production-channel code,
 * `;`-list of decay-product species codes, invariant mass, four jet-property
 * columns (pt, eta, phi, m) and the Jet_ID column, eight columns in all.
 * Floating-point readings are opaque: a jet carries them as printed text.
 */
module JetRows {
  import opened Wrappers
  import opened Text
  import opened EventRecord
  import opened DecayWalker
  import opened JetAssociation

  /** The four jet properties, in the order the writer loops over them. */
  datatype Property = Pt | Eta | Phi | Mass

  /** `jet.pt()`, `jet.eta()`, `jet.phi()` or `jet.m()` as printed. */
  function Reading(jet: Jet, prop: Property): string
  {
    match prop
    case Pt => jet.pt
    case Eta => jet.eta
    case Phi => jet.phi
    case Mass => jet.mass
  }

  /** The cell printed for one decay product: the reading of its jet, or "-1"
      when it has no jet or the ordinal is outside the jet list. */
  function Cell(jets: seq<Jet>, e: int, prop: Property): string
  {
    if 0 <= e < |jets| then Reading(jets[e], prop) else "-1"
  }

  function Cells(jets: seq<Jet>, entries: seq<int>, prop: Property): (r: seq<string>)
    ensures |r| == |entries|
    ensures forall p :: 0 <= p < |entries| ==> r[p] == Cell(jets, entries[p], prop)
  {
    seq(|entries|, p requires 0 <= p < |entries| => Cell(jets, entries[p], prop))
  }

  /** How a list column separates its entries. */
  datatype ListStyle =
    | SkipAfterSecond // `if (decayIndex != 1) out << ";"`: after every entry except the second
    | Between         // between consecutive entries only

  /** The list loops of the jet columns as written: each entry is followed by
      the separator unless it is the entry at position 1. */
  function SeparatedAsWritten(items: seq<string>, sep: char): string
  {
    if |items| == 0 then ""
    else
      var n := |items| - 1;
      SeparatedAsWritten(items[..n], sep) + items[n] + (if n != 1 then [sep] else [])
  }

  function Column(style: ListStyle, items: seq<string>, sep: char): string
  {
    match style
    case SkipAfterSecond => SeparatedAsWritten(items, sep)
    case Between => Join(items, sep)
  }

  /** With exactly two products the rule happens to produce the joined list. */
  lemma SeparatedAsWrittenTwo(items: seq<string>, sep: char)
    requires |items| == 2
    ensures SeparatedAsWritten(items, sep) == Join(items, sep)
  {
    assert items[..1][..0] == [];
    assert SeparatedAsWritten(items[..1], sep) == items[0] + [sep];
    assert items[1..] == [items[1]];
  }

  /** With three or more products the list ends in a separator (the entry at
      position 1 is glued to the one after it). */
  lemma SeparatedAsWrittenTrailing(items: seq<string>, sep: char)
    requires |items| >= 3
    ensures var s := SeparatedAsWritten(items, sep);
            |s| > 0 && s[|s| - 1] == sep
  {
  }

  /** So the list no longer splits back into its entries. */
  lemma SeparatedAsWrittenLosesEntries(items: seq<string>, sep: char)
    requires |items| >= 3 && items[|items| - 1] != ""
    ensures Split(SeparatedAsWritten(items, sep), sep) != items
  {
    SeparatedAsWrittenTrailing(items, sep);
    SplitTrailingSeparator(SeparatedAsWritten(items, sep), sep);
  }

  /** Three Jet_ID entries 0, 1, 2 are printed as `0;12;`. */
  lemma ThreeEntriesExample()
    ensures SeparatedAsWritten(["0", "1", "2"], ';') == "0;12;"
    ensures Split("0;12;", ';') == ["0", "12", ""]
  {
    assert ["0", "1", "2"][..2] == ["0", "1"];
    assert ["0", "1"][..1] == ["0"];
    assert ["0"][..0] == [];
    SplitAtSeparator("", ';', "");
    SplitFree("12", ';');
    SplitAtSeparator("12", ';', "");
    SplitAtSeparator("0", ';', "12;");
    assert "0;12;" == "0" + [';'] + "12;";
    assert "12;" == "12" + [';'] + "";
  }

  /** A separator-free set of entries stays free of another character. */
  lemma {:induction false} SeparatedAsWrittenFree(items: seq<string>, sep: char, c: char)
    requires sep != c
    requires forall i :: 0 <= i < |items| ==> Free(items[i], c)
    ensures Free(SeparatedAsWritten(items, sep), c)
  {
    if |items| > 0 {
      var n := |items| - 1;
      SeparatedAsWrittenFree(items[..n], sep, c);
      var a := SeparatedAsWritten(items[..n], sep);
      var t := if n != 1 then [sep] else [];
      var s := a + items[n] + t;
      forall i | 0 <= i < |s| ensures s[i] != c {
        if i < |a| {
          assert s[i] == a[i];
        } else if i < |a| + |items[n]| {
          assert s[i] == items[n][i - |a|];
        }
      }
    }
  }

  /** One output row. `clustered` is whether the event had a final-state entry
      to cluster; without one the writer stops after the mass and never ends
      the line. */
  function RowText(style: ListStyle, channel: int, ids: seq<int>, mass: string,
                   jets: seq<Jet>, entries: seq<int>, clustered: bool): (r: string)
    ensures |r| > 0 && r[|r| - 1] == if clustered then '\n' else ','
  {
    var prefix := IntToString(channel) + "," + Join(IntStrings(ids), ';') + "," + mass + ",";
    if !clustered then prefix
    else
      prefix
      + Column(style, Cells(jets, entries, Pt), ';') + ","
      + Column(style, Cells(jets, entries, Eta), ';') + ","
      + Column(style, Cells(jets, entries, Phi), ';') + ","
      + Column(style, Cells(jets, entries, Mass), ';') + ","
      + Column(style, IntStrings(entries), ';') + "\n"
  }

  /** The row written for the decayed Higgs entry `j`, as the source writes it. */
  function RowAsWritten(channel: int, ev: Event, j: int, jets: seq<Jet>, mass: string): (r: string)
    requires DaughtersForward(ev)
    ensures |ProductIndices(ev, j, EitherMother)| < 2 <==> r == ""
    ensures |ProductIndices(ev, j, EitherMother)| >= 2 && HasFinal(ev) ==> r[|r| - 1] == '\n'
    ensures |ProductIndices(ev, j, EitherMother)| >= 2 && !HasFinal(ev) ==> r[|r| - 1] == ','
  {
    var ks := ProductIndices(ev, j, EitherMother);
    if |ks| < 2 then ""
    else
      var ids := Ids(ev, ks);
      RowText(SkipAfterSecond, channel, ids, mass, jets,
              AsWrittenEntries(AsWrittenJetMap(ev, j, jets), ids), HasFinal(ev))
  }

  /** The corrected row: lists joined with `;` and the per-product association. */
  function Row(channel: int, ev: Event, j: int, jets: seq<Jet>, mass: string): (r: string)
    requires DaughtersForward(ev)
    ensures |ProductIndices(ev, j, EitherMother)| < 2 <==> r == ""
    ensures |ProductIndices(ev, j, EitherMother)| >= 2 && HasFinal(ev) ==> r[|r| - 1] == '\n'
    ensures |ProductIndices(ev, j, EitherMother)| >= 2 && !HasFinal(ev) ==> r[|r| - 1] == ','
  {
    var ks := ProductIndices(ev, j, EitherMother);
    if |ks| < 2 then ""
    else
      RowText(Between, channel, Ids(ev, ks), mass, jets, AssociatePerProduct(ev, jets, ks), HasFinal(ev))
  }

  /** The `jetId < jets.size()` guard never fails: every ordinal the writer
      looks up is -1 (absent) or a jet ordinal. */
  lemma JetIdGuardHolds(ev: Event, j: int, jets: seq<Jet>)
    requires DaughtersForward(ev)
    ensures var ks := ProductIndices(ev, j, EitherMother);
            var e := AsWrittenEntries(AsWrittenJetMap(ev, j, jets), Ids(ev, ks));
            forall p :: 0 <= p < |e| ==> e[p] == -1 || 0 <= e[p] < |jets|
  {
  }

  /** The decoded content of one row. */
  datatype RowData = RowData(channel: int, species: seq<int>, mass: string,
                             readings: seq<seq<string>>, jetIds: seq<int>)

  /** Reads a line back: eight `,`-columns ending in a newline, with integer
      lists in columns 2 and 8 and `;`-lists of readings in columns 4 to 7. */
  function DecodeRow(line: string): Option<RowData>
  {
    if |line| == 0 || line[|line| - 1] != '\n' then None
    else
      var f := Split(line[..|line| - 1], ',');
      if |f| != 8 then None
      else
        var c := ParseInt(f[0]);
        var ids := ParseInts(Split(f[1], ';'));
        var js := ParseInts(Split(f[7], ';'));
        if c.None? || ids.None? || js.None? then None
        else Some(RowData(c.value, ids.value, f[2], [Split(f[3], ';'), Split(f[4], ';'), Split(f[5], ';'), Split(f[6], ';')], js.value))
  }

  /** A printed reading contains neither delimiter of the file. */
  predicate Printable(s: string)
  {
    Free(s, ',') && Free(s, ';')
  }

  predicate PrintableJets(jets: seq<Jet>)
  {
    forall q, prop :: 0 <= q < |jets| ==> Printable(Reading(jets[q], prop))
  }

  lemma CellsPrintable(jets: seq<Jet>, entries: seq<int>, prop: Property)
    requires PrintableJets(jets)
    ensures forall p :: 0 <= p < |entries| ==> Printable(Cells(jets, entries, prop)[p])
  {
  }

  /** The eight columns of a row, in order. */
  function Columns(style: ListStyle, channel: int, ids: seq<int>, mass: string,
                   jets: seq<Jet>, entries: seq<int>): seq<string>
  {
    [IntToString(channel), Join(IntStrings(ids), ';'), mass,
     Column(style, Cells(jets, entries, Pt), ';'), Column(style, Cells(jets, entries, Eta), ';'),
     Column(style, Cells(jets, entries, Phi), ';'), Column(style, Cells(jets, entries, Mass), ';'),
     Column(style, IntStrings(entries), ';')]
  }

  lemma JoinEight(a: string, b: string, c: string, d: string, e: string, f: string, g: string, h: string, sep: char)
    ensures Join([a, b, c, d, e, f, g, h], sep) ==
            a + [sep] + b + [sep] + c + [sep] + d + [sep] + e + [sep] + f + [sep] + g + [sep] + h
  {
    JoinSnoc([a], b, sep);
    assert [a] + [b] == [a, b];
    JoinSnoc([a, b], c, sep);
    assert [a, b] + [c] == [a, b, c];
    JoinSnoc([a, b, c], d, sep);
    assert [a, b, c] + [d] == [a, b, c, d];
    JoinSnoc([a, b, c, d], e, sep);
    assert [a, b, c, d] + [e] == [a, b, c, d, e];
    JoinSnoc([a, b, c, d, e], f, sep);
    assert [a, b, c, d, e] + [f] == [a, b, c, d, e, f];
    JoinSnoc([a, b, c, d, e, f], g, sep);
    assert [a, b, c, d, e, f] + [g] == [a, b, c, d, e, f, g];
    JoinSnoc([a, b, c, d, e, f, g], h, sep);
    assert [a, b, c, d, e, f, g] + [h] == [a, b, c, d, e, f, g, h];
  }

  /** A clustered row is its eight columns joined with `,`, then a newline. */
  lemma RowIsJoinedColumns(style: ListStyle, channel: int, ids: seq<int>, mass: string,
                           jets: seq<Jet>, entries: seq<int>)
    ensures RowText(style, channel, ids, mass, jets, entries, true) ==
            Join(Columns(style, channel, ids, mass, jets, entries), ',') + "\n"
  {
    var c := Columns(style, channel, ids, mass, jets, entries);
    JoinEight(c[0], c[1], c[2], c[3], c[4], c[5], c[6], c[7], ',');
    assert c == [c[0], c[1], c[2], c[3], c[4], c[5], c[6], c[7]];
  }

  lemma ColumnFree(style: ListStyle, items: seq<string>, c: char)
    requires c != ';'
    requires forall i :: 0 <= i < |items| ==> Free(items[i], c)
    ensures Free(Column(style, items, ';'), c)
  {
    match style
    case SkipAfterSecond => SeparatedAsWrittenFree(items, ';', c);
    case Between => JoinFree(items, ';', c);
  }

  lemma CellsFree(jets: seq<Jet>, entries: seq<int>, prop: Property, style: ListStyle)
    requires PrintableJets(jets)
    ensures Free(Column(style, Cells(jets, entries, prop), ';'), ',')
  {
    CellsPrintable(jets, entries, prop);
    ColumnFree(style, Cells(jets, entries, prop), ',');
  }

  /** No column of a row contains the column delimiter. */
  lemma ColumnsFree(style: ListStyle, channel: int, ids: seq<int>, mass: string,
                    jets: seq<Jet>, entries: seq<int>)
    requires Free(mass, ',') && PrintableJets(jets)
    ensures var c := Columns(style, channel, ids, mass, jets, entries);
            Free(c[0], ',') && Free(c[1], ',') && Free(c[2], ',') && Free(c[3], ',') &&
            Free(c[4], ',') && Free(c[5], ',') && Free(c[6], ',') && Free(c[7], ',')
  {
    FreeColumn0(style, channel, ids, mass, jets, entries);
    FreeColumn1(style, channel, ids, mass, jets, entries);
    FreeCellColumns(style, channel, ids, mass, jets, entries);
    FreeColumn7(style, channel, ids, mass, jets, entries);
  }

  lemma FreeColumn0(style: ListStyle, channel: int, ids: seq<int>, mass: string, jets: seq<Jet>, entries: seq<int>)
    ensures Free(Columns(style, channel, ids, mass, jets, entries)[0], ',')
  {
    assert Columns(style, channel, ids, mass, jets, entries)[0] == IntToString(channel);
    IntToStringFree(channel, ',');
  }

  lemma FreeColumn1(style: ListStyle, channel: int, ids: seq<int>, mass: string, jets: seq<Jet>, entries: seq<int>)
    ensures Free(Columns(style, channel, ids, mass, jets, entries)[1], ',')
  {
    var c := Columns(style, channel, ids, mass, jets, entries);
    assert c[1] == Join(IntStrings(ids), ';');
    IdsColumnFree(ids);
  }

  /** The four jet columns hold no column delimiter. */
  lemma FreeCellColumns(style: ListStyle, channel: int, ids: seq<int>, mass: string, jets: seq<Jet>,
                        entries: seq<int>)
    requires PrintableJets(jets)
    ensures var c := Columns(style, channel, ids, mass, jets, entries);
            Free(c[3], ',') && Free(c[4], ',') && Free(c[5], ',') && Free(c[6], ',')
  {
    var c := Columns(style, channel, ids, mass, jets, entries);
    assert c[3] == Column(style, Cells(jets, entries, Pt), ';');
    assert c[4] == Column(style, Cells(jets, entries, Eta), ';');
    assert c[5] == Column(style, Cells(jets, entries, Phi), ';');
    assert c[6] == Column(style, Cells(jets, entries, Mass), ';');
    CellsFree(jets, entries, Pt, style);
    CellsFree(jets, entries, Eta, style);
    CellsFree(jets, entries, Phi, style);
    CellsFree(jets, entries, Mass, style);
  }

  lemma FreeColumn7(style: ListStyle, channel: int, ids: seq<int>, mass: string, jets: seq<Jet>, entries: seq<int>)
    ensures Free(Columns(style, channel, ids, mass, jets, entries)[7], ',')
  {
    assert Columns(style, channel, ids, mass, jets, entries)[7] == Column(style, IntStrings(entries), ';');
    EntriesColumnFree(style, entries);
  }

  lemma IdsColumnFree(ids: seq<int>)
    ensures Free(Join(IntStrings(ids), ';'), ',')
  {
    IntStringsFree(ids, ',');
    JoinFree(IntStrings(ids), ';', ',');
  }

  lemma EntriesColumnFree(style: ListStyle, entries: seq<int>)
    ensures Free(Column(style, IntStrings(entries), ';'), ',')
  {
    IntStringsFree(entries, ',');
    ColumnFree(style, IntStrings(entries), ',');
  }

  lemma AllFree(c: seq<string>)
    requires |c| == 8
    requires Free(c[0], ',') && Free(c[1], ',') && Free(c[2], ',') && Free(c[3], ',')
    requires Free(c[4], ',') && Free(c[5], ',') && Free(c[6], ',') && Free(c[7], ',')
    ensures forall i :: 0 <= i < |c| ==> Free(c[i], ',')
  {
  }

  /** A clustered row splits back into its eight columns. */
  lemma RowColumns(style: ListStyle, channel: int, ids: seq<int>, mass: string,
                   jets: seq<Jet>, entries: seq<int>)
    requires Free(mass, ',') && PrintableJets(jets)
    ensures var line := RowText(style, channel, ids, mass, jets, entries, true);
            |line| > 0 && line[|line| - 1] == '\n' &&
            Split(line[..|line| - 1], ',') == Columns(style, channel, ids, mass, jets, entries)
  {
    var c := Columns(style, channel, ids, mass, jets, entries);
    RowIsJoinedColumns(style, channel, ids, mass, jets, entries);
    ColumnsFree(style, channel, ids, mass, jets, entries);
    AllFree(c);
    SplitJoin(c, ',');
    var line := Join(c, ',') + "\n";
    assert line[..|line| - 1] == Join(c, ',');
  }

  lemma {:induction false} SplitCells(jets: seq<Jet>, entries: seq<int>, prop: Property)
    requires PrintableJets(jets) && |entries| > 0
    ensures Split(Join(Cells(jets, entries, prop), ';'), ';') == Cells(jets, entries, prop)
  {
    CellsPrintable(jets, entries, prop);
    SplitJoin(Cells(jets, entries, prop), ';');
  }

  /** A joined row reads back as exactly what was written: the channel, the
      species codes, the mass text, the four reading lists and the jet ordinals. */
  lemma {:induction false} RowTextRoundTrip(channel: int, ids: seq<int>, mass: string,
                                            jets: seq<Jet>, entries: seq<int>)
    requires |ids| > 0 && |entries| > 0
    requires Free(mass, ',') && PrintableJets(jets)
    ensures DecodeRow(RowText(Between, channel, ids, mass, jets, entries, true)) ==
            Some(RowData(channel, ids, mass,
                         [Cells(jets, entries, Pt), Cells(jets, entries, Eta),
                          Cells(jets, entries, Phi), Cells(jets, entries, Mass)],
                         entries))
  {
    RowColumns(Between, channel, ids, mass, jets, entries);
    IntToStringRoundTrip(channel);
    IntListRoundTrip(ids, ';');
    IntListRoundTrip(entries, ';');
    SplitCells(jets, entries, Pt);
    SplitCells(jets, entries, Eta);
    SplitCells(jets, entries, Phi);
    SplitCells(jets, entries, Mass);
  }


  /** Every corrected row of an event with a final-state entry decodes to the
      event's decay products and their per-product jet ordinals. */
  lemma RowRoundTrip(channel: int, ev: Event, j: int, jets: seq<Jet>, mass: string)
    requires DaughtersForward(ev) && HasFinal(ev)
    requires |ProductIndices(ev, j, EitherMother)| >= 2
    requires Free(mass, ',') && PrintableJets(jets)
    ensures var ks := ProductIndices(ev, j, EitherMother);
            var e := AssociatePerProduct(ev, jets, ks);
            DecodeRow(Row(channel, ev, j, jets, mass)) ==
            Some(RowData(channel, Ids(ev, ks), mass,
                         [Cells(jets, e, Pt), Cells(jets, e, Eta), Cells(jets, e, Phi), Cells(jets, e, Mass)], e))
  {
    var ks := ProductIndices(ev, j, EitherMother);
    RowTextRoundTrip(channel, Ids(ev, ks), mass, jets, AssociatePerProduct(ev, jets, ks));
  }

  /** With two products the as-written separator rule gives the joined row. */
  lemma TwoProductRowsAgree(channel: int, ids: seq<int>, mass: string, jets: seq<Jet>,
                            entries: seq<int>, clustered: bool)
    requires |entries| == 2
    ensures RowText(SkipAfterSecond, channel, ids, mass, jets, entries, clustered) ==
            RowText(Between, channel, ids, mass, jets, entries, clustered)
  {
    SeparatedAsWrittenTwo(Cells(jets, entries, Pt), ';');
    SeparatedAsWrittenTwo(Cells(jets, entries, Eta), ';');
    SeparatedAsWrittenTwo(Cells(jets, entries, Phi), ';');
    SeparatedAsWrittenTwo(Cells(jets, entries, Mass), ';');
    SeparatedAsWrittenTwo(IntStrings(entries), ';');
  }

  lemma {:induction false} ParseIntsRejects(parts: seq<string>, i: int)
    requires 0 <= i < |parts| && ParseInt(parts[i]) == None
    ensures ParseInts(parts) == None
  {
    if i > 0 {
      ParseIntsRejects(parts[1..], i - 1);
    }
  }

  /** A row whose Jet_ID column does not parse is rejected. */
  lemma DecodeRowNeedsIds(line: string)
    requires |line| > 0 && line[|line| - 1] == '\n'
    requires |Split(line[..|line| - 1], ',')| == 8
    requires ParseInts(Split(Split(line[..|line| - 1], ',')[7], ';')) == None
    ensures DecodeRow(line) == None
  {
  }

  lemma {:induction false} AsWrittenIdsUnreadable(entries: seq<int>)
    requires |entries| >= 3
    ensures ParseInts(Split(SeparatedAsWritten(IntStrings(entries), ';'), ';')) == None
  {
    var last := SeparatedAsWritten(IntStrings(entries), ';');
    SeparatedAsWrittenTrailing(IntStrings(entries), ';');
    SplitTrailingSeparator(last, ';');
    var parts := Split(last, ';');
    ParseIntsRejects(parts, |parts| - 1);
  }

  /** The Jet_ID column is the eighth field of a clustered row. */
  lemma RowLastColumn(style: ListStyle, channel: int, ids: seq<int>, mass: string,
                      jets: seq<Jet>, entries: seq<int>)
    requires Free(mass, ',') && PrintableJets(jets)
    ensures var line := RowText(style, channel, ids, mass, jets, entries, true);
            |line| > 0 && line[|line| - 1] == '\n' &&
            |Split(line[..|line| - 1], ',')| == 8 &&
            Split(line[..|line| - 1], ',')[7] == Column(style, IntStrings(entries), ';')
  {
    RowColumns(style, channel, ids, mass, jets, entries);
  }

  /** With three or more products an as-written clustered row cannot be read
      back: its Jet_ID list ends in `;`, leaving an empty last entry. */
  lemma {:induction false} AsWrittenRowUnreadable(channel: int, ids: seq<int>, mass: string,
                                                  jets: seq<Jet>, entries: seq<int>)
    requires |entries| >= 3
    requires Free(mass, ',') && PrintableJets(jets)
    ensures DecodeRow(RowText(SkipAfterSecond, channel, ids, mass, jets, entries, true)) == None
  {
    RowLastColumn(SkipAfterSecond, channel, ids, mass, jets, entries);
    AsWrittenIdsUnreadable(entries);
    DecodeRowNeedsIds(RowText(SkipAfterSecond, channel, ids, mass, jets, entries, true));
  }
  /** When a decayed Higgs boson has exactly two products of distinct species,
      and no species code is a constituent index or a final-state descendant
      index, the row as written is the corrected row. */
  lemma RowAgreesWhenUnambiguous(channel: int, ev: Event, j: int, jets: seq<Jet>, mass: string)
    requires DaughtersForward(ev)
    requires var ks := ProductIndices(ev, j, EitherMother);
             |ks| == 2 && Distinct(Ids(ev, ks)) &&
             (forall k, q :: k in Ids(ev, ks) && 0 <= q < |jets| ==> k !in jets[q].constituents) &&
             (forall p, f :: 0 <= p < |ks| && f in Descendants(ev, ks[p]) ==> f !in Ids(ev, ks))
    ensures RowAsWritten(channel, ev, j, jets, mass) == Row(channel, ev, j, jets, mass)
  {
    var ks := ProductIndices(ev, j, EitherMother);
    AsWrittenAgreesWhenUnambiguous(ev, j, jets, ks);
    TwoProductRowsAgree(channel, Ids(ev, ks), mass, jets, AssociatePerProduct(ev, jets, ks), HasFinal(ev));
  }

  const Header := "ProductionChannel,DecayProducts,InvMasses,Jet_PT,Jet_Eta,Jet_Phi,Jet_Mass,Jet_ID\n"

  /** The two drivers differ only in the number of events they try. */
  datatype Driver =
    | Com13  // com13wjets.cc: 10 attempts
    | Com100 // com100wjets.cc: 10000 attempts

  function EventAttempts(d: Driver): nat
  {
    match d
    case Com13 => 10
    case Com100 => 10000
  }

  /** One generation attempt. A generated event carries the process code, its
      jets (sorted by descending pT) and the opaque invariant-mass text of the
      products of each Higgs record. */
  datatype Attempt = Failed | Generated(ev: Event, code: int, jets: seq<Jet>, mass: int -> string)

  /** The rows one event writes, as the source writes them: one per decayed
      Higgs record, in record order; a record with fewer than two products
      writes nothing. */
  function EventRowsAsWritten(ev: Event, code: int, jets: seq<Jet>, mass: int -> string): seq<string>
    requires DaughtersForward(ev)
  {
    var hs := Where(ev, IsDecayedHiggs);
    seq(|hs|, i requires 0 <= i < |hs| => RowAsWritten(code, ev, hs[i], jets, mass(hs[i])))
  }

  /** The rows one event writes, corrected. */
  function EventRows(ev: Event, code: int, jets: seq<Jet>, mass: int -> string): seq<string>
    requires DaughtersForward(ev)
  {
    var hs := Where(ev, IsDecayedHiggs);
    seq(|hs|, i requires 0 <= i < |hs| => Row(code, ev, hs[i], jets, mass(hs[i])))
  }

  /** Two-body decays with unambiguous species codes: the event writes the corrected rows. */
  lemma EventRowsAgree(ev: Event, code: int, jets: seq<Jet>, mass: int -> string)
    requires DaughtersForward(ev)
    requires forall j :: 0 <= j < |ev| && IsDecayedHiggs(ev[j]) ==>
               var ks := ProductIndices(ev, j, EitherMother);
               |ks| == 2 && Distinct(Ids(ev, ks)) &&
               (forall k, q :: k in Ids(ev, ks) && 0 <= q < |jets| ==> k !in jets[q].constituents) &&
               (forall p, f :: 0 <= p < |ks| && f in Descendants(ev, ks[p]) ==> f !in Ids(ev, ks))
    ensures EventRowsAsWritten(ev, code, jets, mass) == EventRows(ev, code, jets, mass)
  {
    var hs := Where(ev, IsDecayedHiggs);
    forall i | 0 <= i < |hs|
      ensures RowAsWritten(code, ev, hs[i], jets, mass(hs[i])) == Row(code, ev, hs[i], jets, mass(hs[i]))
    {
      RowAgreesWhenUnambiguous(code, ev, hs[i], jets, mass(hs[i]));
    }
  }

  /** Every generated event's decay chains point forward. */
  ghost predicate Forward(attempts: seq<Attempt>)
  {
    forall i :: 0 <= i < |attempts| && attempts[i].Generated? ==> DaughtersForward(attempts[i].ev)
  }

  /** The rows of all attempts, in order, as written. */
  function RowsAsWritten(attempts: seq<Attempt>): seq<string>
    requires Forward(attempts)
  {
    if |attempts| == 0 then []
    else
      (match attempts[0]
       case Failed => []
       case Generated(ev, code, jets, mass) => EventRowsAsWritten(ev, code, jets, mass))
      + RowsAsWritten(attempts[1..])
  }

  /** The number of decayed Higgs records over all generated events. */
  function HiggsCount(attempts: seq<Attempt>): nat
  {
    if |attempts| == 0 then 0
    else
      (match attempts[0]
       case Failed => 0
       case Generated(ev, _, _, _) => |Where(ev, IsDecayedHiggs)|) + HiggsCount(attempts[1..])
  }

  /** One row slot per decayed Higgs record of every generated event (empty
      for a record with fewer than two products). */
  lemma {:induction false} RowsAsWrittenCount(attempts: seq<Attempt>)
    requires Forward(attempts)
    ensures |RowsAsWritten(attempts)| == HiggsCount(attempts)
  {
    if |attempts| > 0 {
      RowsAsWrittenCount(attempts[1..]);
    }
  }

  /** The output file: the header, then the rows of the attempts the driver makes. */
  function Output(d: Driver, attempts: seq<Attempt>): (out: string)
    requires Forward(attempts)
    ensures Header <= out
  {
    var tried := if |attempts| <= EventAttempts(d) then attempts else attempts[..EventAttempts(d)];
    Header + Concat(RowsAsWritten(tried))
  }
}
