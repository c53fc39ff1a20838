/**
 * The Higgs and diphoton counters of testScript5.cc and testScript4.cc.
 * Both scan every record of every generated event for species code 25,
 * count the selected ones, collect their decay products, count those whose
 * products are exactly two photons, write one line per record, and end with
 * the totals and the diphoton ratio. They differ in which records are
 * counted and which records are decay products.
 */
module HiggsCounters {
  import opened Wrappers
  import opened Text
  import opened EventRecord

  datatype Script =
    | StatusFiltered  // testScript5.cc
    | AnyStatus       // testScript4.cc

  /** The statuses testScript5.cc accepts for a decayed Higgs. */
  const ValidStatuses: seq<int> := [-62, -22, -44]

  const EventAttempts: nat := 1000

  predicate Counted(script: Script, p: Particle)
  {
    p.id == 25 && (script.AnyStatus? || p.status in ValidStatuses)
  }

  function Rule(script: Script): ProductRule
  {
    match script
    case StatusFiltered => EitherMotherStatus91
    case AnyStatus => FirstMotherOnly
  }

  /** Decay products of the record `j` under the script's rule. */
  function Products(script: Script, ev: Event, j: int): seq<int>
  {
    Ids(ev, ProductIndices(ev, j, Rule(script)))
  }

  predicate IsDiphoton(ids: seq<int>)
  {
    |ids| == 2 && ids[0] == 22 && ids[1] == 22
  }

  /** Each code followed by a space. */
  function Spaced(ids: seq<int>): string
  {
    if |ids| == 0 then "" else IntToString(ids[0]) + " " + Spaced(ids[1..])
  }

  const DecPrefix := "Higgs Decay Products: "

  /** The line of a counted record. */
  function CountedLine(script: Script, status: int, ids: seq<int>): string
  {
    match script
    case StatusFiltered => "Higgsdec" + IntToString(status) + " " + Spaced(ids) + "\n"
    case AnyStatus => DecPrefix + Spaced(ids) + "\n"
  }

  /** The line testScript5.cc writes for a species-25 record it does not count. */
  function ElseLine(status: int): string
  {
    "Higgselse" + IntToString(status) + "\n"
  }

  /** Lines written, records counted, diphoton decays counted. */
  datatype Tally = Tally(lines: seq<string>, total: nat, hgg: nat)

  const NoTally := Tally([], 0, 0)

  function Combine(a: Tally, b: Tally): Tally
  {
    Tally(a.lines + b.lines, a.total + b.total, a.hgg + b.hgg)
  }

  /** What the record `j` contributes. */
  function RecordTally(script: Script, ev: Event, j: int): (t: Tally)
    requires 0 <= j < |ev|
    ensures t.hgg <= t.total <= 1
    ensures |t.lines| == if ev[j].id == 25 then 1 else 0
  {
    var p := ev[j];
    if Counted(script, p) then
      var ids := Products(script, ev, j);
      Tally([CountedLine(script, p.status, ids)], 1, if IsDiphoton(ids) then 1 else 0)
    else if script.StatusFiltered? && p.id == 25 then Tally([ElseLine(p.status)], 0, 0)
    else NoTally
  }

  /** The record loop of one event from record `j` on. */
  function EventFrom(script: Script, ev: Event, j: nat): (t: Tally)
    ensures t.hgg <= t.total
    decreases |ev| - j
  {
    if j >= |ev| then NoTally else Combine(RecordTally(script, ev, j), EventFrom(script, ev, j + 1))
  }

  function EventTally(script: Script, ev: Event): (t: Tally)
    ensures t.hgg <= t.total
  {
    EventFrom(script, ev, 0)
  }

  /** The diphoton count of a record is 1 exactly when it is counted and its
      products are two photons, in that order and nothing else. */
  lemma DiphotonCounted(script: Script, ev: Event, j: int)
    requires 0 <= j < |ev|
    ensures RecordTally(script, ev, j).hgg == 1 <==>
            Counted(script, ev[j]) && Products(script, ev, j) == [22, 22]
  {
  }

  /** The count of an event is the number of records the script selects. */
  lemma {:induction false} TotalIsSelected(script: Script, ev: Event, j: nat)
    ensures EventFrom(script, ev, j).total == |WhereFrom(ev, (p: Particle) => Counted(script, p), j)|
    decreases |ev| - j
  {
    if j < |ev| {
      TotalIsSelected(script, ev, j + 1);
    }
  }

  /** Every species-25 record writes one line, whether it is counted or not. */
  lemma {:induction false} OneLinePerRecord(script: Script, ev: Event, j: nat)
    ensures |EventFrom(script, ev, j).lines| == |WhereFrom(ev, (p: Particle) => p.id == 25, j)|
    decreases |ev| - j
  {
    if j < |ev| {
      OneLinePerRecord(script, ev, j + 1);
    }
  }

  /** testScript4.cc counts every species-25 record; testScript5.cc only those
      with an accepted status, so it never counts more. */
  lemma {:induction false} FilteredCountsFewer(ev: Event, j: nat)
    ensures EventFrom(StatusFiltered, ev, j).total <= EventFrom(AnyStatus, ev, j).total
    ensures EventFrom(AnyStatus, ev, j).total == |EventFrom(AnyStatus, ev, j).lines|
    decreases |ev| - j
  {
    if j < |ev| {
      FilteredCountsFewer(ev, j + 1);
    }
  }

  // Reading the lines back.

  lemma {:induction false} SplitSpaced(ids: seq<int>)
    ensures Split(Spaced(ids), ' ') == IntStrings(ids) + [""]
  {
    if |ids| > 0 {
      SplitSpaced(ids[1..]);
      IntToStringFree(ids[0], ' ');
      SplitAtSeparator(IntToString(ids[0]), ' ', Spaced(ids[1..]));
      assert IntToString(ids[0]) + " " + Spaced(ids[1..]) == IntToString(ids[0]) + [' '] + Spaced(ids[1..]);
      assert IntStrings(ids) == [IntToString(ids[0])] + IntStrings(ids[1..]);
    }
  }

  const DecTag := "Higgsdec"

  /** Reads a `Higgsdec` line: the status and the product codes. */
  function DecodeDecLine(line: string): Option<(int, seq<int>)>
  {
    if |line| == 0 || line[|line| - 1] != '\n' then None
    else
      var parts := Split(line[..|line| - 1], ' ');
      var head := parts[0];
      if |parts| < 2 || parts[|parts| - 1] != "" || |head| < |DecTag| || head[..|DecTag|] != DecTag then None
      else
        var status := ParseInt(head[|DecTag|..]);
        var ids := ParseInts(parts[1..|parts| - 1]);
        if status.Some? && ids.Some? then Some((status.value, ids.value)) else None
  }

  /** Reads a `Higgs Decay Products:` line: the product codes. */
  function DecodeProductsLine(line: string): Option<seq<int>>
  {
    if |line| < |DecPrefix| + 1 || line[..|DecPrefix|] != DecPrefix || line[|line| - 1] != '\n' then None
    else
      var parts := Split(line[|DecPrefix|..|line| - 1], ' ');
      if parts[|parts| - 1] != "" then None else ParseInts(parts[..|parts| - 1])
  }

  lemma DecHead(status: int)
    ensures var head := DecTag + IntToString(status);
            Free(head, ' ') && head[..|DecTag|] == DecTag && head[|DecTag|..] == IntToString(status)
  {
    var head := DecTag + IntToString(status);
    IntToStringFree(status, ' ');
    forall i | 0 <= i < |head| ensures head[i] != ' ' {
      if i >= |DecTag| {
        assert head[i] == IntToString(status)[i - |DecTag|];
      }
    }
  }

  lemma DecParts(status: int, ids: seq<int>)
    ensures var line := CountedLine(StatusFiltered, status, ids);
            Split(line[..|line| - 1], ' ') == [DecTag + IntToString(status)] + (IntStrings(ids) + [""])
  {
    var head := DecTag + IntToString(status);
    var line := CountedLine(StatusFiltered, status, ids);
    assert line[..|line| - 1] == head + [' '] + Spaced(ids);
    DecHead(status);
    SplitAtSeparator(head, ' ', Spaced(ids));
    SplitSpaced(ids);
  }

  /** A counted line of testScript5.cc reads back as the record's status and products. */
  lemma DecLineRoundTrip(status: int, ids: seq<int>)
    ensures DecodeDecLine(CountedLine(StatusFiltered, status, ids)) == Some((status, ids))
  {
    var head := DecTag + IntToString(status);
    DecParts(status, ids);
    DecHead(status);
    var parts := [head] + (IntStrings(ids) + [""]);
    assert parts[1..|parts| - 1] == IntStrings(ids);
    IntToStringRoundTrip(status);
    ParseIntStrings(ids);
  }

  /** A line of testScript4.cc reads back as the record's products. */
  lemma ProductsLineRoundTrip(status: int, ids: seq<int>)
    ensures DecodeProductsLine(CountedLine(AnyStatus, status, ids)) == Some(ids)
  {
    var line := CountedLine(AnyStatus, status, ids);
    assert line[..|DecPrefix|] == DecPrefix;
    assert line[|DecPrefix|..|line| - 1] == Spaced(ids);
    SplitSpaced(ids);
    assert (IntStrings(ids) + [""])[..|ids|] == IntStrings(ids);
    ParseIntStrings(ids);
  }

  /** An uncounted record's line is never read as a counted one: it has no
      space to separate a product list. */
  lemma ElseLineIsNotDec(status: int)
    ensures DecodeDecLine(ElseLine(status)) == None
  {
    var line := ElseLine(status);
    var body := "Higgselse" + IntToString(status);
    assert line[..|line| - 1] == body;
    IntToStringFree(status, ' ');
    assert Free(body, ' ') by {
      forall i | 0 <= i < |body| ensures body[i] != ' ' {
        if i >= 9 {
          assert body[i] == IntToString(status)[i - 9];
        }
      }
    }
    SplitFree(body, ' ');
  }

  datatype Attempt = Failed | Generated(ev: Event)

  /** The event loop over the attempts. */
  function RunTally(script: Script, attempts: seq<Attempt>): (t: Tally)
    ensures t.hgg <= t.total
  {
    if |attempts| == 0 then NoTally
    else
      var here := match attempts[0] case Failed => NoTally case Generated(ev) => EventTally(script, ev);
      Combine(here, RunTally(script, attempts[1..]))
  }

  /** `hggCount / totalHCount` as a double; None where it divides 0 by 0. */
  function Ratio(t: Tally): (r: Option<real>)
    requires t.hgg <= t.total
    ensures r.None? <==> t.total == 0
    ensures r.Some? ==> 0.0 <= r.value <= 1.0
  {
    if t.total == 0 then None else Some(t.hgg as real / t.total as real)
  }

  /** The output file. The printed form of the ratio is opaque: `showRatio`. */
  function Output(script: Script, attempts: seq<Attempt>, showRatio: Option<real> -> string): (r: string)
    ensures var tried := if |attempts| <= EventAttempts then attempts else attempts[..EventAttempts];
            var lines := Concat(RunTally(script, tried).lines);
            && lines <= r
            && "\nTotal" <= r[|lines|..]
  {
    var tried := if |attempts| <= EventAttempts then attempts else attempts[..EventAttempts];
    var t := RunTally(script, tried);
    var lines := Concat(t.lines);
    var summary := Summary(script, t, showRatio);
    assert (lines + summary)[|lines|..] == summary;
    lines + summary
  }

  /** What follows the record lines: a blank line, the total and the ratio
      (and, unfiltered, the diphoton count). */
  function Summary(script: Script, t: Tally, showRatio: Option<real> -> string): (r: string)
    requires t.hgg <= t.total
    ensures "\nTotal" <= r
  {
    match script
    case StatusFiltered =>
      "\nTotalHiggsDecays: " + IntToString(t.total) + "\n" + "H2PRatio: " + showRatio(Ratio(t)) + "\n"
    case AnyStatus =>
      "\nTotal Higgs Decays: " + IntToString(t.total) + "\n"
      + "H \U{2192} \U{3B3}\U{3B3} Count: " + IntToString(t.hgg) + "\n"
      + "H \U{2192} \U{3B3}\U{3B3} Ratio: " + showRatio(Ratio(t)) + "\n"
  }
}
