/**
 * The parameter-card rewriter of coefficientUpdate.py. After a line starting
 * with `BLOCK SMEFT` (an SLHA block header), the next nine lines that are
 * not themselves headers form a window; a window line whose first
 * whitespace-separated word is a run of digits naming a coefficient gets its
 * second word replaced by that coefficient, and every window line with at
 * least two words and a numeric first word is re-joined with single spaces
 * and a newline. All other lines are written back unchanged. A coefficient
 * is carried as its printed `.6e` text.
 */
module ParamCard {
  import opened Wrappers
  import opened Text

  const HeaderTag := "BLOCK SMEFT"
  const WindowSize: nat := 9

  /** `str.isspace` for one character. */
  predicate IsWhite(c: char)
  {
    c == ' ' || c == '\t' || c == '\n' || c == '\r' || c == '\U{B}' || c == '\U{C}'
    || ('\U{1C}' <= c <= '\U{1F}') || c == '\U{85}' || c == '\U{A0}' || c == '\U{1680}'
    || ('\U{2000}' <= c <= '\U{200A}') || c == '\U{2028}' || c == '\U{2029}'
    || c == '\U{202F}' || c == '\U{205F}' || c == '\U{3000}'
  }

  /** A non-empty run of non-white characters. */
  predicate IsWord(w: string)
  {
    |w| > 0 && forall i :: 0 <= i < |w| ==> !IsWhite(w[i])
  }

  function DropWhite(s: string): (r: string)
    ensures |r| <= |s|
    ensures |r| > 0 ==> !IsWhite(r[0])
  {
    if |s| > 0 && IsWhite(s[0]) then DropWhite(s[1..]) else s
  }

  /** The length of the leading run of non-white characters. */
  function WordLength(s: string): (n: nat)
    ensures n <= |s|
    ensures n < |s| ==> IsWhite(s[n])
    ensures forall i :: 0 <= i < n ==> !IsWhite(s[i])
  {
    if |s| > 0 && !IsWhite(s[0]) then 1 + WordLength(s[1..]) else 0
  }

  /** `str.split()` with no argument: the maximal runs of non-white characters. */
  function Words(s: string): (ws: seq<string>)
    ensures forall i :: 0 <= i < |ws| ==> IsWord(ws[i])
    decreases |s|
  {
    var t := DropWhite(s);
    if |t| == 0 then []
    else
      var n := WordLength(t);
      assert n > 0;
      var w := t[..n];
      assert IsWord(w);
      [w] + Words(t[n..])
  }

  lemma {:induction false} WordLengthOf(w: string, rest: string)
    requires IsWord(w)
    requires |rest| == 0 || IsWhite(rest[0])
    ensures WordLength(w + rest) == |w|
  {
    if |w| > 1 {
      assert (w + rest)[1..] == w[1..] + rest;
      WordLengthOf(w[1..], rest);
    } else {
      assert (w + rest)[1..] == rest;
    }
  }

  /** A word followed by white space or nothing is split off whole. */
  lemma WordsCons(w: string, rest: string)
    requires IsWord(w)
    requires |rest| == 0 || IsWhite(rest[0])
    ensures Words(w + rest) == [w] + Words(rest)
  {
    var s := w + rest;
    assert s[0] == w[0];
    assert DropWhite(s) == s;
    WordLengthOf(w, rest);
    assert s[..|w|] == w && s[|w|..] == rest;
  }

  lemma NewlineHasNoWords()
    ensures Words("\n") == []
  {
    assert "\n"[1..] == "";
  }

  lemma WhiteThenWords(rest: string)
    ensures Words(" " + rest) == Words(rest)
  {
    assert (" " + rest)[1..] == rest;
  }

  lemma WordsOfOne(w: string)
    requires IsWord(w)
    ensures Words(w + "\n") == [w]
  {
    WordsCons(w, "\n");
    NewlineHasNoWords();
  }

  lemma WordsOfSpaced(w: string, rest: string)
    requires IsWord(w)
    ensures Words(w + " " + rest) == [w] + Words(rest)
  {
    assert w + " " + rest == w + (" " + rest);
    WordsCons(w, " " + rest);
    WhiteThenWords(rest);
  }

  /** Splitting a space-joined line of words gives the words back. */
  lemma {:induction false} WordsOfJoin(ws: seq<string>)
    requires forall i :: 0 <= i < |ws| ==> IsWord(ws[i])
    ensures Words(Join(ws, ' ') + "\n") == ws
  {
    if |ws| == 0 {
      NewlineHasNoWords();
    } else if |ws| == 1 {
      WordsOfOne(ws[0]);
    } else {
      WordsOfJoin(ws[1..]);
      var rest := Join(ws[1..], ' ') + "\n";
      assert Join(ws, ' ') + "\n" == ws[0] + " " + rest;
      WordsOfSpaced(ws[0], rest);
    }
  }

  predicate IsHeader(line: string)
  {
    |line| >= |HeaderTag| && line[..|HeaderTag|] == HeaderTag
  }

  /** One window line: a line whose first word is all digits and that has a
      second word is re-joined, with the second word replaced when the first
      names a coefficient. */
  function RewriteLine(line: string, coeffs: map<int, string>): string
  {
    var parts := Words(line);
    if |parts| > 1 && AllDigits(parts[0]) then
      var index := DigitsValue(parts[0]) as int;
      var parts' := if index in coeffs then parts[1 := coeffs[index]] else parts;
      Join(parts', ' ') + "\n"
    else line
  }

  /** Coefficient texts are single words, as `.6e` output is. */
  predicate WordValues(coeffs: map<int, string>)
  {
    forall k :: k in coeffs ==> IsWord(coeffs[k])
  }

  /** Only the second word changes, and only when the first names a coefficient;
      every other word is kept. */
  lemma RewriteWords(line: string, coeffs: map<int, string>)
    requires WordValues(coeffs)
    ensures var parts := Words(line);
            var r := Words(RewriteLine(line, coeffs));
            |r| == |parts| &&
            (forall i :: 0 <= i < |parts| && i != 1 ==> r[i] == parts[i]) &&
            (|parts| > 1 && AllDigits(parts[0]) && (DigitsValue(parts[0]) as int) in coeffs ==>
               r[1] == coeffs[DigitsValue(parts[0]) as int]) &&
            (|parts| > 1 && !(AllDigits(parts[0]) && (DigitsValue(parts[0]) as int) in coeffs) ==> r == parts)
  {
    var parts := Words(line);
    if |parts| > 1 && AllDigits(parts[0]) {
      var index := DigitsValue(parts[0]) as int;
      var parts' := if index in coeffs then parts[1 := coeffs[index]] else parts;
      WordsOfJoin(parts');
    }
  }

  /** The words a rewritten window line consists of. */
  function NewWords(parts: seq<string>, coeffs: map<int, string>): (r: seq<string>)
    requires |parts| > 1 && AllDigits(parts[0])
    ensures |r| == |parts| && r[0] == parts[0]
  {
    var index := DigitsValue(parts[0]) as int;
    if index in coeffs then parts[1 := coeffs[index]] else parts
  }

  lemma RewriteIsJoin(line: string, coeffs: map<int, string>)
    requires |Words(line)| > 1 && AllDigits(Words(line)[0])
    ensures RewriteLine(line, coeffs) == Join(NewWords(Words(line), coeffs), ' ') + "\n"
  {
  }

  lemma NewWordsIdempotent(parts: seq<string>, coeffs: map<int, string>)
    requires |parts| > 1 && AllDigits(parts[0])
    ensures NewWords(NewWords(parts, coeffs), coeffs) == NewWords(parts, coeffs)
  {
  }

  /** Rewriting a rewritten line changes nothing more. */
  lemma RewriteIdempotent(line: string, coeffs: map<int, string>)
    requires WordValues(coeffs)
    ensures RewriteLine(RewriteLine(line, coeffs), coeffs) == RewriteLine(line, coeffs)
  {
    var parts := Words(line);
    if |parts| > 1 && AllDigits(parts[0]) {
      RewriteIsJoin(line, coeffs);
      var parts' := NewWords(parts, coeffs);
      var r := Join(parts', ' ') + "\n";
      assert forall i :: 0 <= i < |parts'| ==> IsWord(parts'[i]);
      WordsOfJoin(parts');
      RewriteIsJoin(r, coeffs);
      NewWordsIdempotent(parts, coeffs);
    }
  }

  /** A rewritten line starts with a digit, so it is never a header. */
  lemma RewriteKeepsHeaders(line: string, coeffs: map<int, string>)
    ensures IsHeader(RewriteLine(line, coeffs)) == IsHeader(line)
  {
    var parts := Words(line);
    if |parts| > 1 && AllDigits(parts[0]) {
      RewriteIsJoin(line, coeffs);
      var parts' := NewWords(parts, coeffs);
      JoinStartsWith(parts', ' ');
      var r := Join(parts', ' ') + "\n";
      assert IsDigit(r[0]);
      HeaderStartsWithB(r);
      HeaderFirstWord(line);
    }
  }

  lemma JoinStartsWith(ws: seq<string>, sep: char)
    requires |ws| > 0 && |ws[0]| > 0
    ensures |Join(ws, sep)| > 0 && Join(ws, sep)[0] == ws[0][0]
  {
  }

  lemma HeaderStartsWithB(line: string)
    ensures IsHeader(line) ==> line[0] == 'B'
  {
    if IsHeader(line) {
      assert line[0] == line[..|HeaderTag|][0];
    }
  }

  /** A header line's first word starts with `B`, so it is not a number. */
  lemma HeaderFirstWord(line: string)
    ensures IsHeader(line) ==> |Words(line)| > 0 && Words(line)[0][0] == 'B'
  {
    HeaderStartsWithB(line);
    if IsHeader(line) {
      assert DropWhite(line) == line;
      assert WordLength(line) > 0;
    }
  }

  /** True when some line before position i is a header. */
  predicate HeaderBefore(lines: seq<string>, i: nat)
    requires i <= |lines|
  {
    i > 0 && (IsHeader(lines[i - 1]) || HeaderBefore(lines, i - 1))
  }

  /** The non-header lines before position i that follow a header. */
  function Seen(lines: seq<string>, i: nat): nat
    requires i <= |lines|
  {
    if i == 0 then 0
    else Seen(lines, i - 1) + (if !IsHeader(lines[i - 1]) && HeaderBefore(lines, i - 1) then 1 else 0)
  }

  /** The line at position i is one of the first nine non-header lines
      after the first header. A later header does not open a new window. */
  predicate InWindow(lines: seq<string>, i: nat)
    requires i < |lines|
  {
    !IsHeader(lines[i]) && HeaderBefore(lines, i) && Seen(lines, i) < WindowSize
  }

  /** The file as rewritten: window lines through RewriteLine, every other
      line as it was. */
  function Updated(lines: seq<string>, coeffs: map<int, string>): (out: seq<string>)
    ensures |out| == |lines|
    ensures forall i :: 0 <= i < |lines| ==> out[i] == UpdatedLine(lines, coeffs, i)
  {
    seq(|lines|, i requires 0 <= i < |lines| => UpdatedLine(lines, coeffs, i))
  }

  function UpdatedLine(lines: seq<string>, coeffs: map<int, string>, i: nat): string
    requires i < |lines|
  {
    if InWindow(lines, i) then RewriteLine(lines[i], coeffs) else lines[i]
  }

  /** The loop's counter stops at the window size. */
  function Capped(n: nat): nat
  {
    if n < WindowSize then n else WindowSize
  }

  lemma CounterStep(lines: seq<string>, i: nat)
    requires i < |lines|
    ensures HeaderBefore(lines, i + 1) == (IsHeader(lines[i]) || HeaderBefore(lines, i))
    ensures InWindow(lines, i) == (!IsHeader(lines[i]) && HeaderBefore(lines, i) && Capped(Seen(lines, i)) < WindowSize)
    ensures Capped(Seen(lines, i + 1)) == if InWindow(lines, i) then Capped(Seen(lines, i)) + 1 else Capped(Seen(lines, i))
  {
  }

  /** `update_wilson_coefficients`: the line loop with its `block_found`
      flag and its counter. */
  method UpdateWilsonCoefficients(lines: seq<string>, coeffs: map<int, string>) returns (out: seq<string>)
    ensures |out| == |lines|
    ensures forall i :: 0 <= i < |lines| && InWindow(lines, i) ==> out[i] == RewriteLine(lines[i], coeffs)
    ensures forall i :: 0 <= i < |lines| && !InWindow(lines, i) ==> out[i] == lines[i]
  {
    out := [];
    var found := false;
    var counter: nat := 0;
    var i := 0;
    while i < |lines|
      invariant 0 <= i <= |lines|
      invariant found == HeaderBefore(lines, i)
      invariant counter == Capped(Seen(lines, i))
      invariant |out| == i
      invariant forall k :: 0 <= k < i ==> out[k] == UpdatedLine(lines, coeffs, k)
    {
      CounterStep(lines, i);
      var line := lines[i];
      if IsHeader(line) {
        found := true;
      } else if found && counter < WindowSize {
        line := RewriteLine(line, coeffs);
        counter := counter + 1;
      }
      assert line == UpdatedLine(lines, coeffs, i);
      out := out + [line];
      i := i + 1;
    }
  }

  /** Nothing before the first header changes. */
  lemma BeforeHeaderUnchanged(lines: seq<string>, coeffs: map<int, string>, i: nat)
    requires i < |lines| && !HeaderBefore(lines, i)
    ensures Updated(lines, coeffs)[i] == lines[i]
  {
  }

  /** Header lines are copied as they are. */
  lemma HeadersCopied(lines: seq<string>, coeffs: map<int, string>, i: nat)
    requires i < |lines| && IsHeader(lines[i])
    ensures Updated(lines, coeffs)[i] == lines[i]
  {
  }

  /** The lines that can be rewritten: at most nine in the whole file. */
  function WindowCount(lines: seq<string>, n: nat): nat
    requires n <= |lines|
  {
    if n == 0 then 0 else WindowCount(lines, n - 1) + (if InWindow(lines, n - 1) then 1 else 0)
  }

  lemma {:induction false} WindowCountIsCapped(lines: seq<string>, n: nat)
    requires n <= |lines|
    ensures WindowCount(lines, n) == Capped(Seen(lines, n))
  {
    if n > 0 {
      WindowCountIsCapped(lines, n - 1);
    }
  }

  lemma AtMostNineRewritten(lines: seq<string>)
    ensures WindowCount(lines, |lines|) <= WindowSize
  {
    WindowCountIsCapped(lines, |lines|);
  }

  /** Rewriting never turns a line into a header or a header into something
      else, so the window of the output is the window of the input. */
  lemma {:induction false} SameHeaders(lines: seq<string>, coeffs: map<int, string>, i: nat)
    requires i <= |lines|
    ensures HeaderBefore(Updated(lines, coeffs), i) == HeaderBefore(lines, i)
  {
    if i > 0 {
      SameHeaders(lines, coeffs, i - 1);
      SameHeaderAt(lines, coeffs, i - 1);
    }
  }

  lemma SameHeaderAt(lines: seq<string>, coeffs: map<int, string>, i: nat)
    requires i < |lines|
    ensures IsHeader(Updated(lines, coeffs)[i]) == IsHeader(lines[i])
  {
    RewriteKeepsHeaders(lines[i], coeffs);
  }

  lemma {:induction false} SameSeen(lines: seq<string>, coeffs: map<int, string>, i: nat)
    requires i <= |lines|
    ensures Seen(Updated(lines, coeffs), i) == Seen(lines, i)
  {
    if i > 0 {
      SameSeen(lines, coeffs, i - 1);
      SameHeaders(lines, coeffs, i - 1);
      SameHeaderAt(lines, coeffs, i - 1);
    }
  }

  /** Running the rewriter twice gives what running it once gives. */
  lemma UpdateIdempotent(lines: seq<string>, coeffs: map<int, string>)
    requires WordValues(coeffs)
    ensures Updated(Updated(lines, coeffs), coeffs) == Updated(lines, coeffs)
  {
    var out := Updated(lines, coeffs);
    forall i | 0 <= i < |lines|
      ensures Updated(out, coeffs)[i] == out[i]
    {
      SameHeaders(lines, coeffs, i);
      SameSeen(lines, coeffs, i);
      SameHeaderAt(lines, coeffs, i);
      if InWindow(lines, i) {
        RewriteIdempotent(lines[i], coeffs);
      }
    }
  }

  /** `generate_random_coefficients`: keys 1 to `count`, the values drawn. */
  function Generate(count: nat, draw: int -> string): (m: map<int, string>)
    ensures forall k :: k in m <==> 1 <= k <= count
    ensures forall k :: k in m ==> m[k] == draw(k)
  {
    map k | 1 <= k <= count :: draw(k)
  }

  const CoefficientCount: nat := 9
}
