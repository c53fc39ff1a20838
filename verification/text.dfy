/**
 * Text helpers shared by the row writers and the line scanners: decimal
 * rendering of integers (what `operator<<` writes for an `int`), separator
 * joins, the matching splits, substring search, the `istream >> int`
 * extraction and Python's whitespace `str.split()`.
 */
module Text {
  import opened Wrappers

  predicate IsDigit(c: char) {
    '0' <= c <= '9'
  }

  predicate AllDigits(s: string) {
    forall i :: 0 <= i < |s| ==> IsDigit(s[i])
  }

  function DigitValue(c: char): (d: nat)
    requires IsDigit(c)
    ensures d < 10
  {
    (c as int) - ('0' as int)
  }

  function DigitChar(d: nat): (c: char)
    requires d < 10
    ensures IsDigit(c) && DigitValue(c) == d
  {
    (('0' as int) + d) as char
  }

  /** Value of a run of decimal digits, most significant first. */
  function DigitsValue(s: string): nat
    requires AllDigits(s)
  {
    if |s| == 0 then 0 else DigitsValue(s[..|s| - 1]) * 10 + DigitValue(s[|s| - 1])
  }

  /** Decimal digits of `n`, most significant first, without leading zeros. */
  function NatToString(n: nat): (s: string)
    ensures |s| > 0 && AllDigits(s)
    ensures s[0] == '0' ==> n == 0
  {
    if n < 10 then [DigitChar(n)] else NatToString(n / 10) + [DigitChar(n % 10)]
  }

  lemma {:induction false} NatToStringValue(n: nat)
    ensures DigitsValue(NatToString(n)) == n
  {
    if n >= 10 {
      var s := NatToString(n);
      assert s[..|s| - 1] == NatToString(n / 10);
      NatToStringValue(n / 10);
    }
  }

  /** The text `operator<<` writes for an integer: an optional `-`, then the digits. */
  function IntToString(i: int): (s: string)
    ensures |s| > 0
    ensures forall k :: 0 <= k < |s| ==> IsDigit(s[k]) || (k == 0 && s[k] == '-')
  {
    if i < 0 then "-" + NatToString(-i) else NatToString(i)
  }

  /** Reads back what IntToString writes: an optional `-` followed by at least one digit. */
  function ParseInt(s: string): (r: Option<int>)
    ensures r.Some? ==> |s| > 0
  {
    if |s| > 1 && s[0] == '-' && AllDigits(s[1..]) then Some(0 - DigitsValue(s[1..]) as int)
    else if |s| > 0 && AllDigits(s) then Some(DigitsValue(s))
    else None
  }

  lemma IntToStringRoundTrip(i: int)
    ensures ParseInt(IntToString(i)) == Some(i)
  {
    if i < 0 {
      var s := IntToString(i);
      assert s[1..] == NatToString(-i);
      NatToStringValue(-i);
    } else {
      NatToStringValue(i);
    }
  }

  /** `items` with `sep` between consecutive entries and none after the last:
      the `if (d < size - 1) out << ";"` loops of the row writers. */
  function Join(items: seq<string>, sep: char): (s: string)
    ensures |items| == 0 ==> s == ""
    ensures |items| == 1 ==> s == items[0]
  {
    if |items| == 0 then ""
    else if |items| == 1 then items[0]
    else items[0] + [sep] + Join(items[1..], sep)
  }

  lemma JoinCons(x: string, rest: seq<string>, sep: char)
    requires |rest| > 0
    ensures Join([x] + rest, sep) == x + [sep] + Join(rest, sep)
  {
    assert ([x] + rest)[1..] == rest;
  }

  /** Appending an item adds the separator and the item at the end. */
  lemma {:induction false} JoinSnoc(items: seq<string>, x: string, sep: char)
    requires |items| > 0
    ensures Join(items + [x], sep) == Join(items, sep) + [sep] + x
  {
    if |items| == 1 {
      assert items + [x] == [items[0], x];
    } else {
      JoinSnoc(items[1..], x, sep);
      assert (items + [x])[1..] == items[1..] + [x];
    }
  }

  /** The pieces written one after another. */
  function Concat(parts: seq<string>): string
  {
    if |parts| == 0 then "" else parts[0] + Concat(parts[1..])
  }

  /** Pieces of `s` between occurrences of `sep` (always at least one piece). */
  function Split(s: string, sep: char): (parts: seq<string>)
    ensures |parts| > 0
  {
    if |s| == 0 then [""]
    else if s[0] == sep then [""] + Split(s[1..], sep)
    else
      var rest := Split(s[1..], sep);
      [[s[0]] + rest[0]] + rest[1..]
  }

  predicate Free(s: string, c: char) {
    forall i :: 0 <= i < |s| ==> s[i] != c
  }

  lemma {:induction false} SplitFree(a: string, sep: char)
    requires Free(a, sep)
    ensures Split(a, sep) == [a]
  {
    if |a| > 0 {
      SplitFree(a[1..], sep);
      assert [a[0]] + a[1..] == a;
    }
  }

  lemma {:induction false} SplitAtSeparator(a: string, sep: char, b: string)
    requires Free(a, sep)
    ensures Split(a + [sep] + b, sep) == [a] + Split(b, sep)
  {
    if |a| == 0 {
      assert a + [sep] + b == [sep] + b;
      assert ([sep] + b)[1..] == b;
    } else {
      var s := a + [sep] + b;
      assert s[0] == a[0];
      assert s[1..] == a[1..] + [sep] + b;
      SplitAtSeparator(a[1..], sep, b);
      assert [a[0]] + a[1..] == a;
    }
  }

  /** Splitting a join on the same separator gives the items back, provided none contains it. */
  lemma {:induction false} SplitJoin(items: seq<string>, sep: char)
    requires |items| > 0
    requires forall i :: 0 <= i < |items| ==> Free(items[i], sep)
    ensures Split(Join(items, sep), sep) == items
  {
    if |items| == 1 {
      SplitFree(items[0], sep);
    } else {
      SplitJoin(items[1..], sep);
      SplitAtSeparator(items[0], sep, Join(items[1..], sep));
    }
  }

  /** Joining pieces that lack `c` on a different separator yields a string that lacks `c`. */
  lemma {:induction false} JoinFree(items: seq<string>, sep: char, c: char)
    requires sep != c
    requires forall i :: 0 <= i < |items| ==> Free(items[i], c)
    ensures Free(Join(items, sep), c)
  {
    if |items| > 1 {
      JoinFree(items[1..], sep, c);
      var rest := Join(items[1..], sep);
      var s := items[0] + [sep] + rest;
      forall i | 0 <= i < |s| ensures s[i] != c {
        if i < |items[0]| {
          assert s[i] == items[0][i];
        } else if i > |items[0]| {
          assert s[i] == rest[i - |items[0]| - 1];
        }
      }
    }
  }

  /** A string that ends with the separator splits into at least two pieces, the last one empty. */
  lemma {:induction false} SplitTrailingSeparator(s: string, sep: char)
    requires |s| > 0 && s[|s| - 1] == sep
    ensures |Split(s, sep)| >= 2
    ensures Split(s, sep)[|Split(s, sep)| - 1] == ""
  {
    if |s| == 1 {
      assert s[1..] == "";
    } else {
      SplitTrailingSeparator(s[1..], sep);
    }
  }

  lemma IntToStringFree(i: int, c: char)
    requires !IsDigit(c) && c != '-'
    ensures Free(IntToString(i), c)
  {
  }

  /** Renders every entry of `xs` with IntToString. */
  function IntStrings(xs: seq<int>): (r: seq<string>)
    ensures |r| == |xs|
    ensures forall i :: 0 <= i < |xs| ==> r[i] == IntToString(xs[i])
  {
    if |xs| == 0 then [] else [IntToString(xs[0])] + IntStrings(xs[1..])
  }

  lemma {:induction false} IntStringsFree(xs: seq<int>, c: char)
    requires !IsDigit(c) && c != '-'
    ensures forall i :: 0 <= i < |IntStrings(xs)| ==> Free(IntStrings(xs)[i], c)
  {
    forall i | 0 <= i < |xs| ensures Free(IntStrings(xs)[i], c) {
      IntToStringFree(xs[i], c);
    }
  }

  /** Two strings without `c` make one without `c`. */
  lemma FreeAppend(a: string, b: string, c: char)
    requires Free(a, c) && Free(b, c)
    ensures Free(a + b, c)
  {
    forall i | 0 <= i < |a + b| ensures (a + b)[i] != c {
      if i < |a| {
        assert (a + b)[i] == a[i];
      } else {
        assert (a + b)[i] == b[i - |a|];
      }
    }
  }

  /** Lines written one after another, each ended by the separator, split
      back into the lines and one empty piece after the last separator. */
  lemma {:induction false} SplitTerminated(parts: seq<string>, lines: seq<string>, sep: char)
    requires |parts| == |lines|
    requires forall i :: 0 <= i < |lines| ==> Free(lines[i], sep) && parts[i] == lines[i] + [sep]
    ensures Split(Concat(parts), sep) == lines + [""]
  {
    if |parts| > 0 {
      SplitTerminated(parts[1..], lines[1..], sep);
      assert Concat(parts) == lines[0] + [sep] + Concat(parts[1..]);
      SplitAtSeparator(lines[0], sep, Concat(parts[1..]));
      assert lines == [lines[0]] + lines[1..];
    }
  }

  /** Parses every piece with ParseInt; None when any piece is not an integer. */
  function ParseInts(parts: seq<string>): (r: Option<seq<int>>)
    ensures r.Some? ==> |r.value| == |parts|
  {
    if |parts| == 0 then Some([])
    else
      var x := ParseInt(parts[0]);
      var xs := ParseInts(parts[1..]);
      if x.Some? && xs.Some? then Some([x.value] + xs.value) else None
  }

  /** A `;`-joined list of integers reads back as the same list. */
  lemma {:induction false} IntListRoundTrip(xs: seq<int>, sep: char)
    requires |xs| > 0
    requires !IsDigit(sep) && sep != '-'
    ensures ParseInts(Split(Join(IntStrings(xs), sep), sep)) == Some(xs)
  {
    var strs := IntStrings(xs);
    forall i | 0 <= i < |strs| ensures Free(strs[i], sep) {
      IntToStringFree(xs[i], sep);
    }
    SplitJoin(strs, sep);
    ParseIntStrings(xs);
  }

  lemma {:induction false} ParseIntStrings(xs: seq<int>)
    ensures ParseInts(IntStrings(xs)) == Some(xs)
  {
    if |xs| > 0 {
      var strs := IntStrings(xs);
      assert strs[1..] == IntStrings(xs[1..]);
      IntToStringRoundTrip(xs[0]);
      ParseIntStrings(xs[1..]);
      assert [xs[0]] + xs[1..] == xs;
    }
  }

  /** `line.find(pat) != npos`: `pat` occurs somewhere in `s`. */
  predicate Contains(s: string, pat: string)
  {
    pat <= s || (|s| > 0 && Contains(s[1..], pat))
  }
}
