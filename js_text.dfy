/**
  The JavaScript string built-ins the backend relies on: `slice`, `split`,
  `join` and `String(n)` for a non-negative integer. A JavaScript string is a
  sequence of UTF-16 code units and its `length` counts code units; here a
  `char` is a Unicode scalar value, so it stands for one code unit only in
  text within the Basic Multilingual Plane. On text with characters outside
  it, lengths and window offsets differ from the source's.
*/
module JsText {

  function Min(a: int, b: int): int { if a <= b then a else b }

  /** `s.slice(start, end)` for non-negative arguments: both ends are clamped
      to the length, and the result is empty when the clamped start is not
      before the clamped end. */
  function Slice(s: string, start: nat, end: nat): (r: string)
    ensures |r| == if Min(start, |s|) < Min(end, |s|) then Min(end, |s|) - start else 0
    ensures forall k :: 0 <= k < |r| ==> r[k] == s[start + k]
  {
    var b, e := Min(start, |s|), Min(end, |s|);
    if b < e then s[b..e] else []
  }

  /** Number of occurrences of `c` in `s`. */
  function Count(s: string, c: char): nat
  {
    if s == [] then 0 else (if s[0] == c then 1 else 0) + Count(s[1..], c)
  }

  /** `s.split(sep)` for a one-character separator: the maximal runs between
      separators, including the empty runs before a leading separator, after
      a trailing one and between two adjacent ones. `"".split(sep)` is `[""]`. */
  function Split(s: string, sep: char): (r: seq<string>)
    ensures |r| >= 1
    ensures forall i :: 0 <= i < |r| ==> sep !in r[i]
  {
    if s == [] then [[]]
    else
      var rest := Split(s[1..], sep);
      if s[0] == sep then [[]] + rest
      else [[s[0]] + rest[0]] + rest[1..]
  }

  /** `parts.join(sep)` for a one-character separator; `[].join(sep)` is `""`.
      The result holds no separator exactly when there is at most one piece
      and that piece holds none. */
  function Join(parts: seq<string>, sep: char): (r: string)
    ensures |parts| == 0 ==> r == []
    ensures |parts| == 1 ==> r == parts[0]
    ensures sep !in r <==> |parts| <= 1 && forall i :: 0 <= i < |parts| ==> sep !in parts[i]
  {
    if |parts| == 0 then []
    else if |parts| == 1 then parts[0]
    else
      var r := parts[0] + [sep] + Join(parts[1..], sep);
      assert r[|parts[0]|] == sep;
      r
  }

  /** Splitting yields one more piece than there are separators. */
  lemma {:induction false} SplitCount(s: string, sep: char)
    ensures |Split(s, sep)| == Count(s, sep) + 1
  {
    if s != [] {
      SplitCount(s[1..], sep);
    }
  }

  /** Joining the pieces of a split with the same separator gives back the
      original string, so no character is lost or added by splitting. */
  lemma {:induction false} JoinSplit(s: string, sep: char)
    ensures Join(Split(s, sep), sep) == s
  {
    if s != [] {
      var rest := Split(s[1..], sep);
      JoinSplit(s[1..], sep);
      if s[0] == sep {
        assert Split(s, sep) == [[]] + rest;
        assert ([[]] + rest)[1..] == rest;
        assert s == [sep] + s[1..];
      } else if |rest| == 1 {
        assert Split(s, sep) == [[s[0]] + rest[0]];
        assert s == [s[0]] + s[1..];
      } else {
        var parts := Split(s, sep);
        assert parts == [[s[0]] + rest[0]] + rest[1..];
        assert parts[1..] == rest[1..];
        assert Join(rest, sep) == rest[0] + [sep] + Join(rest[1..], sep);
        assert s == [s[0]] + s[1..];
      }
    }
  }

  lemma {:induction false} SplitNoSeparator(x: string, sep: char)
    requires sep !in x
    ensures Split(x, sep) == [x]
  {
    if x != [] {
      SplitNoSeparator(x[1..], sep);
      assert x == [x[0]] + x[1..];
    }
  }

  lemma {:induction false} SplitPrepend(x: string, t: string, sep: char)
    requires sep !in x
    ensures Split(x + [sep] + t, sep) == [x] + Split(t, sep)
  {
    var s := x + [sep] + t;
    if x == [] {
      assert s[1..] == t;
    } else {
      assert s[1..] == x[1..] + [sep] + t;
      SplitPrepend(x[1..], t, sep);
      assert x == [x[0]] + x[1..];
    }
  }

  /** When no piece contains the separator, splitting a join recovers the
      pieces exactly. */
  lemma {:induction false} SplitJoin(parts: seq<string>, sep: char)
    requires |parts| >= 1
    requires forall i :: 0 <= i < |parts| ==> sep !in parts[i]
    ensures Split(Join(parts, sep), sep) == parts
  {
    if |parts| == 1 {
      SplitNoSeparator(parts[0], sep);
    } else {
      SplitJoin(parts[1..], sep);
      SplitPrepend(parts[0], Join(parts[1..], sep), sep);
      assert [parts[0]] + parts[1..] == parts;
    }
  }

  /** Offset at which `parts[j]` starts inside `Join(parts, sep)`. */
  function JoinOffset(parts: seq<string>, j: nat): nat
    requires j < |parts|
  {
    if j == 0 then 0 else |parts[0]| + 1 + JoinOffset(parts[1..], j - 1)
  }

  /** Every piece appears in the join, in order: piece `j` sits at its
      offset, and between two consecutive pieces stands exactly one
      separator. */
  lemma {:induction false} JoinPieceAt(parts: seq<string>, sep: char, j: nat)
    requires j < |parts|
    ensures JoinOffset(parts, j) + |parts[j]| <= |Join(parts, sep)|
    ensures Join(parts, sep)[JoinOffset(parts, j)..JoinOffset(parts, j) + |parts[j]|] == parts[j]
    ensures j + 1 < |parts| ==>
              JoinOffset(parts, j) + |parts[j]| < |Join(parts, sep)| &&
              Join(parts, sep)[JoinOffset(parts, j) + |parts[j]|] == sep
    ensures j + 1 < |parts| ==> JoinOffset(parts, j + 1) == JoinOffset(parts, j) + |parts[j]| + 1
    ensures j + 1 == |parts| ==> JoinOffset(parts, j) + |parts[j]| == |Join(parts, sep)|
  {
    if |parts| > 1 {
      var tail := Join(parts[1..], sep);
      assert Join(parts, sep) == parts[0] + [sep] + tail;
      if j > 0 {
        JoinPieceAt(parts[1..], sep, j - 1);
        var o := JoinOffset(parts[1..], j - 1);
        assert JoinOffset(parts, j) == |parts[0]| + 1 + o;
        assert Join(parts, sep)[|parts[0]| + 1..] == tail;
      }
    }
  }

  /** Length of a join: the pieces plus one separator between each pair. */
  lemma {:induction false} JoinLength(parts: seq<string>, sep: char)
    requires |parts| >= 1
    ensures |Join(parts, sep)| + 1 == TotalLength(parts) + |parts|
  {
    if |parts| > 1 {
      JoinLength(parts[1..], sep);
    }
  }

  function TotalLength(parts: seq<string>): nat
  {
    if parts == [] then 0 else |parts[0]| + TotalLength(parts[1..])
  }

  function Digit(d: nat): (c: char)
    requires d < 10
    ensures '0' <= c <= '9'
  {
    ('0' as int + d) as char
  }

  predicate IsDigits(s: string)
  {
    forall k :: 0 <= k < |s| ==> '0' <= s[k] <= '9'
  }

  /** `String(n)` for a non-negative integer: its decimal digits, without
      leading zeros. */
  function DecimalString(n: nat): (r: string)
    ensures |r| >= 1 && IsDigits(r)
    ensures r[0] == '0' ==> n == 0
    ensures |r| > 1 ==> r[0] != '0'
    decreases n
  {
    if n < 10 then [Digit(n)] else DecimalString(n / 10) + [Digit(n % 10)]
  }

  /** The number a string of decimal digits denotes. */
  function DecimalValue(s: string): nat
    requires IsDigits(s)
  {
    if s == [] then 0
    else DecimalValue(s[..|s| - 1]) * 10 + (s[|s| - 1] as int - '0' as int)
  }

  /** Reading back the decimal representation gives the number again. */
  lemma {:induction false} DecimalRoundTrip(n: nat)
    ensures DecimalValue(DecimalString(n)) == n
    decreases n
  {
    if n >= 10 {
      DecimalRoundTrip(n / 10);
      var s := DecimalString(n);
      assert s[..|s| - 1] == DecimalString(n / 10);
    }
  }

  /** Distinct numbers have distinct decimal representations. */
  lemma DecimalStringInjective(m: nat, n: nat)
    requires m != n
    ensures DecimalString(m) != DecimalString(n)
  {
    DecimalRoundTrip(m);
    DecimalRoundTrip(n);
  }
}
