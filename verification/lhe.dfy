/**
 * parseLHEProductionChannels (training_smeft100.cc): a line scan of a Les
 * Houches Event File. Each line containing `<event>` opens an event; the next
 * line (the event header) is skipped; then particle lines are read until one
 * contains `</event>` or two incoming partons (status -1) have been seen, and
 * the event's channel code is appended. The file is a sequence of lines.
 */
module LheScan {
  import opened Wrappers
  import opened Text
  import opened ProductionChannel

  const OpenTag := "<event>"
  const CloseTag := "</event>"

  /** `isspace` in the C locale. */
  predicate IsSpace(c: char)
  {
    c == ' ' || c == '\t' || c == '\n' || c == '\U{B}' || c == '\U{C}' || c == '\r'
  }

  function SkipSpace(s: string): (r: string)
    ensures |r| <= |s|
    ensures |r| > 0 ==> !IsSpace(r[0])
  {
    if |s| > 0 && IsSpace(s[0]) then SkipSpace(s[1..]) else s
  }

  /** The number of leading digits of `s`. */
  function DigitRun(s: string): (n: nat)
    ensures n <= |s| && AllDigits(s[..n])
    ensures n < |s| ==> !IsDigit(s[n])
  {
    if |s| > 0 && IsDigit(s[0]) then
      var n := 1 + DigitRun(s[1..]);
      assert s[..n] == [s[0]] + s[1..][..n - 1];
      n
    else 0
  }

  /** The longest run of digits at the head of `b` and the rest, if the run is not empty. */
  function ReadDigits(b: string): (r: Option<(int, string)>)
    ensures r.Some? ==> |r.value.1| < |b| && r.value.0 >= 0
  {
    var n := DigitRun(b);
    if n == 0 then None else Some((DigitsValue(b[..n]) as int, b[n..]))
  }

  /** `iss >> x` for an `int`: skip white space, take an optional sign and the
      longest run of digits; fail when there is no digit. The rest of the
      stream is returned with the value. */
  function ReadInt(s: string): (r: Option<(int, string)>)
    ensures r.Some? ==> |r.value.1| < |s|
  {
    var t := SkipSpace(s);
    if |t| > 0 && t[0] == '-' then
      var r := ReadDigits(t[1..]);
      if r.Some? then Some((-r.value.0, r.value.1)) else None
    else if |t| > 0 && t[0] == '+' then ReadDigits(t[1..])
    else ReadDigits(t)
  }

  lemma {:induction false} DigitRunOf(d: string, rest: string)
    requires AllDigits(d)
    requires |rest| == 0 || !IsDigit(rest[0])
    ensures DigitRun(d + rest) == |d|
  {
    if |d| > 0 {
      assert (d + rest)[1..] == d[1..] + rest;
      DigitRunOf(d[1..], rest);
    } else {
      assert d + rest == rest;
    }
  }

  lemma ReadDigitsOf(d: string, rest: string)
    requires |d| > 0 && AllDigits(d)
    requires |rest| == 0 || !IsDigit(rest[0])
    ensures ReadDigits(d + rest) == Some((DigitsValue(d) as int, rest))
  {
    DigitRunOf(d, rest);
    assert (d + rest)[..|d|] == d && (d + rest)[|d|..] == rest;
  }

  lemma ReadUnsigned(d: string, rest: string)
    requires |d| > 0 && AllDigits(d)
    requires |rest| == 0 || !IsDigit(rest[0])
    ensures ReadInt(d + rest) == Some((DigitsValue(d) as int, rest))
  {
    assert (d + rest)[0] == d[0];
    assert SkipSpace(d + rest) == d + rest;
    ReadDigitsOf(d, rest);
  }

  lemma ReadMinus(b: string)
    ensures var r := ReadDigits(b);
            ReadInt("-" + b) == if r.Some? then Some((-r.value.0, r.value.1)) else None
  {
    assert SkipSpace("-" + b) == "-" + b;
    assert ("-" + b)[1..] == b;
  }

  lemma ReadNegative(b: string, v: int, rest: string)
    requires ReadDigits(b) == Some((v, rest))
    ensures ReadInt("-" + b) == Some((-v, rest))
  {
    ReadMinus(b);
  }

  /** The reader takes back what `operator<<` wrote, up to the next non-digit. */
  lemma ReadIntRoundTrip(i: int, rest: string)
    requires |rest| == 0 || !IsDigit(rest[0])
    ensures ReadInt(IntToString(i) + rest) == Some((i, rest))
  {
    if i < 0 {
      ReadNegativeInt(i, rest);
    } else {
      NatToStringValue(i);
      ReadUnsigned(NatToString(i), rest);
    }
  }

  lemma ReadNegativeInt(i: int, rest: string)
    requires i < 0
    requires |rest| == 0 || !IsDigit(rest[0])
    ensures ReadInt(IntToString(i) + rest) == Some((i, rest))
  {
    var d := NatToString(-i);
    NatToStringValue(-i);
    ReadDigitsOf(d, rest);
    ReadNegative(d + rest, -i, rest);
    assert IntToString(i) == "-" + d;
    assert IntToString(i) + rest == "-" + (d + rest);
  }

  /** `iss >> id >> status` followed by `status == -1`: the species code of an
      incoming parton line, if the line is one. */
  function IncomingId(line: string): (r: Option<int>)
    ensures r.Some? ==> ReadInt(line).Some?
  {
    var first := ReadInt(line);
    if first.None? then None
    else
      var status := ReadInt(first.value.1);
      if status.Some? && status.value.0 == -1 then Some(first.value.0) else None
  }

  /** The `if (status == -1) push_back(id)` step. */
  function Push(ids: seq<int>, line: string): (r: seq<int>)
    ensures r == ids || (|r| == |ids| + 1 && ids <= r)
  {
    match IncomingId(line)
    case Some(id) => ids + [id]
    case None => ids
  }

  lemma ReadStatus(rest: string)
    requires |rest| == 0 || !IsDigit(rest[0])
    ensures ReadInt(" -1" + rest) == Some((-1, rest))
  {
    ReadSkipsSpace("-1" + rest);
    assert " -1" + rest == " " + ("-1" + rest);
    ReadMinusOne(rest);
  }

  lemma ReadMinusOne(rest: string)
    requires |rest| == 0 || !IsDigit(rest[0])
    ensures ReadInt("-1" + rest) == Some((-1, rest))
  {
    ReadOne(rest);
    ReadNegative("1" + rest, 1, rest);
    assert "-1" + rest == "-" + ("1" + rest);
  }

  lemma ReadOne(rest: string)
    requires |rest| == 0 || !IsDigit(rest[0])
    ensures ReadDigits("1" + rest) == Some((1, rest))
  {
    assert AllDigits("1");
    ReadDigitsOf("1", rest);
    assert DigitsValue("1") == 1;
  }

  lemma ReadSkipsSpace(x: string)
    ensures ReadInt(" " + x) == ReadInt(x)
  {
    assert (" " + x)[1..] == x;
    assert SkipSpace(" " + x) == SkipSpace(x);
  }

  /** A particle line that starts with a species code and status -1 is an incoming parton. */
  lemma IncomingLine(id: int, rest: string)
    requires |rest| == 0 || !IsDigit(rest[0])
    ensures IncomingId(IntToString(id) + " -1" + rest) == Some(id)
  {
    ReadIntRoundTrip(id, " -1" + rest);
    assert IntToString(id) + " -1" + rest == IntToString(id) + (" -1" + rest);
    ReadStatus(rest);
  }

  /** A particle line written as species code, then status: it is an incoming
      parton exactly when the status is -1. */
  lemma StatusLine(id: int, status: int, rest: string)
    requires |rest| == 0 || !IsDigit(rest[0])
    ensures IncomingId(IntToString(id) + " " + IntToString(status) + rest) ==
            if status == -1 then Some(id) else None
  {
    var tail := IntToString(status) + rest;
    var line := IntToString(id) + " " + IntToString(status) + rest;
    assert line == IntToString(id) + (" " + tail);
    ReadIntRoundTrip(id, " " + tail);
    assert ReadInt(line) == Some((id, " " + tail));
    ReadSkipsSpace(tail);
    ReadIntRoundTrip(status, rest);
    assert ReadInt(" " + tail) == Some((status, rest));
  }

  /** Push appends the species code of such a line exactly when its status is -1. */
  lemma PushStatusLine(ids: seq<int>, id: int, status: int, rest: string)
    requires |rest| == 0 || !IsDigit(rest[0])
    ensures Push(ids, IntToString(id) + " " + IntToString(status) + rest) ==
            if status == -1 then ids + [id] else ids
  {
    StatusLine(id, status, rest);
  }

  /** The inner loop. `ids` holds fewer than two codes. Returns the codes and
      the number of lines consumed (the line containing `</event>` included). */
  function Collect(lines: seq<string>, ids: seq<int>): (r: (seq<int>, nat))
    requires |ids| < 2
    ensures |ids| <= |r.0| <= 2 && ids <= r.0
    ensures r.1 <= |lines|
    decreases |lines|
  {
    if |lines| == 0 then (ids, 0)
    else if Contains(lines[0], CloseTag) then (ids, 1)
    else
      var ids' := Push(ids, lines[0]);
      if |ids'| == 2 then (ids', 1)
      else
        var (found, used) := Collect(lines[1..], ids');
        (found, used + 1)
  }

  /** The outer loop: one channel code per line containing `<event>` that it reaches. */
  function Scan(lines: seq<string>): (codes: seq<int>)
    ensures forall i :: 0 <= i < |codes| ==> codes[i] in {0, 1, 2, 3, 6, 7}
    ensures |codes| <= OpenCount(lines)
    decreases |lines|
  {
    if |lines| == 0 then []
    else if Contains(lines[0], OpenTag) then
      var rest := lines[1..];
      if |rest| == 0 then [Classify([])]
      else
        var (ids, used) := Collect(rest[1..], []);
        OpenCountSuffix(lines, 2 + used);
        [Classify(ids)] + Scan(rest[1..][used..])
    else Scan(lines[1..])
  }

  /** The number of lines containing `<event>`. */
  function OpenCount(lines: seq<string>): nat
  {
    if |lines| == 0 then 0 else (if Contains(lines[0], OpenTag) then 1 else 0) + OpenCount(lines[1..])
  }

  lemma {:induction false} OpenCountSuffix(lines: seq<string>, k: nat)
    requires 1 <= k <= |lines|
    ensures OpenCount(lines[k..]) <= OpenCount(lines) - (if Contains(lines[0], OpenTag) then 1 else 0)
  {
    if k > 1 {
      OpenCountSuffix(lines[1..], k - 1);
      assert lines[1..][k - 1..] == lines[k..];
    }
  }

  /** The species codes of the incoming-parton lines of an event body, in order. */
  function Incoming(body: seq<string>): seq<int>
  {
    if |body| == 0 then []
    else Push([], body[0]) + Incoming(body[1..])
  }

  function Take(xs: seq<int>, n: nat): (r: seq<int>)
    ensures r <= xs && |r| == if |xs| < n then |xs| else n
  {
    if |xs| <= n then xs else xs[..n]
  }

  /** An event as written in the file: its header line and its particle lines. */
  datatype Block = Block(header: string, body: seq<string>)

  function Render(b: Block): seq<string>
  {
    [OpenTag, b.header] + b.body + [CloseTag]
  }

  function RenderAll(bs: seq<Block>): seq<string>
  {
    if |bs| == 0 then [] else Render(bs[0]) + RenderAll(bs[1..])
  }

  predicate NoOpen(lines: seq<string>)
  {
    forall i :: 0 <= i < |lines| ==> !Contains(lines[i], OpenTag)
  }

  /** A body line never looks like either tag. */
  predicate WellFormed(b: Block)
  {
    forall i :: 0 <= i < |b.body| ==> !Contains(b.body[i], OpenTag) && !Contains(b.body[i], CloseTag)
  }

  lemma {:induction false} ShortLacks(s: string, pat: string)
    requires |s| < |pat|
    ensures !Contains(s, pat)
  {
    if |s| > 0 {
      ShortLacks(s[1..], pat);
    }
  }

  lemma TagsDiffer()
    ensures Contains(CloseTag, CloseTag)
    ensures !Contains(CloseTag, OpenTag)
    ensures Contains(OpenTag, OpenTag)
  {
    assert CloseTag[1] != OpenTag[1];
    assert CloseTag[1..][0] != OpenTag[0];
    ShortLacks(CloseTag[1..][1..], OpenTag);
  }

  /** Lines without `<event>` are passed over. */
  lemma {:induction false} ScanSkips(pre: seq<string>, lines: seq<string>)
    requires NoOpen(pre)
    ensures Scan(pre + lines) == Scan(lines)
  {
    if |pre| > 0 {
      var all := pre + lines;
      assert all[0] == pre[0];
      assert !Contains(pre[0], OpenTag);
      assert all[1..] == pre[1..] + lines;
      assert Scan(all) == Scan(all[1..]);
      ScanSkips(pre[1..], lines);
    } else {
      assert pre + lines == lines;
    }
  }

  lemma PushAppends(ids: seq<int>, line: string, more: seq<int>)
    ensures ids + (Push([], line) + more) == Push(ids, line) + more
  {
  }

  /** The inner loop on a body followed by `</event>`: it returns the first
      codes (up to two in all) and stops inside the block. */
  lemma {:induction false} CollectBody(body: seq<string>, ids: seq<int>, tail: seq<string>)
    requires |ids| < 2
    requires forall i :: 0 <= i < |body| ==> !Contains(body[i], CloseTag)
    ensures Collect(body + [CloseTag] + tail, ids).0 == Take(ids + Incoming(body), 2)
    ensures Collect(body + [CloseTag] + tail, ids).1 <= |body| + 1
  {
    var lines := body + [CloseTag] + tail;
    TagsDiffer();
    if |body| == 0 {
      assert lines[0] == CloseTag;
      assert ids + Incoming(body) == ids;
    } else {
      assert lines[0] == body[0];
      var rest := body[1..] + [CloseTag] + tail;
      assert lines[1..] == rest;
      var ids' := Push(ids, body[0]);
      PushAppends(ids, body[0], Incoming(body[1..]));
      if |ids'| < 2 {
        CollectBody(body[1..], ids', tail);
        var used := Collect(rest, ids').1;
        assert Collect(lines, ids) == (Collect(rest, ids').0, used + 1);
      } else {
        assert Collect(lines, ids) == (ids', 1);
        assert Take(ids' + Incoming(body[1..]), 2) == ids';
      }
    }
  }

  lemma SuffixOfConcat(xs: seq<string>, ys: seq<string>, k: nat)
    requires k <= |xs|
    ensures (xs + ys)[k..] == xs[k..] + ys
  {
  }

  /** The code of one block: its first two incoming partons, classified. */
  function BlockCode(b: Block): int
  {
    Classify(Take(Incoming(b.body), 2))
  }

  /** One well-formed block is scanned to its code, and the scan carries on after it. */
  lemma ScanOneBlock(b: Block, tail: seq<string>)
    requires WellFormed(b)
    ensures Scan(Render(b) + tail) == [BlockCode(b)] + Scan(tail)
  {
    var lines := Render(b) + tail;
    TagsDiffer();
    assert lines[0] == OpenTag;
    var inner := b.body + [CloseTag] + tail;
    assert lines[1..][1..] == inner;
    CollectBody(b.body, [], tail);
    assert [] + Incoming(b.body) == Incoming(b.body);
    var used := Collect(inner, []).1;
    SuffixOfConcat(b.body + [CloseTag], tail, used);
    var left := (b.body + [CloseTag])[used..];
    forall i | 0 <= i < |left| ensures !Contains(left[i], OpenTag) {
      assert left[i] == (b.body + [CloseTag])[used + i];
    }
    ScanSkips(left, tail);
  }

  lemma {:induction false} ScanAll(bs: seq<Block>, epilogue: seq<string>)
    requires forall i :: 0 <= i < |bs| ==> WellFormed(bs[i])
    requires NoOpen(epilogue)
    ensures Scan(RenderAll(bs) + epilogue) == BlockCodes(bs)
  {
    if |bs| > 0 {
      assert RenderAll(bs) + epilogue == Render(bs[0]) + (RenderAll(bs[1..]) + epilogue);
      ScanOneBlock(bs[0], RenderAll(bs[1..]) + epilogue);
      ScanAll(bs[1..], epilogue);
    } else {
      ScanSkips(epilogue, []);
      assert RenderAll(bs) + epilogue == epilogue + [];
      assert Scan([]) == [];
    }
  }

  /** One code per block, in file order. */
  function BlockCodes(bs: seq<Block>): (codes: seq<int>)
    ensures |codes| == |bs|
    ensures forall i :: 0 <= i < |bs| ==> codes[i] == BlockCode(bs[i])
  {
    if |bs| == 0 then [] else [BlockCode(bs[0])] + BlockCodes(bs[1..])
  }

  /** On a well-formed file (a prelude without `<event>`, then whole blocks,
      then an epilogue without `<event>`) the scan yields one code per block:
      the classification of the block's first two incoming partons. */
  lemma ScanBlocks(prelude: seq<string>, bs: seq<Block>, epilogue: seq<string>)
    requires NoOpen(prelude) && NoOpen(epilogue)
    requires forall i :: 0 <= i < |bs| ==> WellFormed(bs[i])
    ensures Scan(prelude + RenderAll(bs) + epilogue) == BlockCodes(bs)
  {
    assert prelude + RenderAll(bs) + epilogue == prelude + (RenderAll(bs) + epilogue);
    ScanSkips(prelude, RenderAll(bs) + epilogue);
    ScanAll(bs, epilogue);
  }
}
