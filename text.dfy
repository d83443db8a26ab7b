/**
 * The string operations the code generators use: Python's `str.join`,
 * `str.split`, `str(n)` for a natural number, `n * s` and the slice `s[k:]`.
 */
module Text {

  /** `sep.join(parts)` */
  function Join(sep: string, parts: seq<string>): string
    decreases |parts|
  {
    if |parts| == 0 then ""
    else if |parts| == 1 then parts[0]
    else parts[0] + sep + Join(sep, parts[1..])
  }

  /** `s.split(sep)` for a non-empty separator: cut at each leftmost occurrence. */
  function SplitOn(s: string, sep: string): (r: seq<string>)
    requires |sep| > 0
    ensures |r| >= 1
    decreases |s|
  {
    if |s| < |sep| then [s]
    else if s[..|sep|] == sep then [""] + SplitOn(s[|sep|..], sep)
    else
      var rest := SplitOn(s[1..], sep);
      [[s[0]] + rest[0]] + rest[1..]
  }

  lemma {:induction false} SplitNoSeparator(p: string, sep: string)
    requires |sep| > 0 && sep[0] !in p
    ensures SplitOn(p, sep) == [p]
    decreases |p|
  {
    if |p| >= |sep| {
      assert p[..|sep|][0] != sep[0];
      SplitNoSeparator(p[1..], sep);
      assert [p[0]] + p[1..] == p;
    }
  }

  lemma {:induction false} SplitAfterPart(p: string, sep: string, t: string)
    requires |sep| > 0 && sep[0] !in p
    ensures SplitOn(p + sep + t, sep) == [p] + SplitOn(t, sep)
    decreases |p|
  {
    var s := p + sep + t;
    if |p| == 0 {
      assert s == sep + t;
      assert s[..|sep|] == sep;
      assert s[|sep|..] == t;
    } else {
      assert s[..|sep|][0] == p[0] != sep[0];
      assert s[1..] == p[1..] + sep + t;
      SplitAfterPart(p[1..], sep, t);
      assert [p[0]] + p[1..] == p;
    }
  }

  /** Splitting a join on its separator gives the parts back, when no part contains the separator's first character. */
  lemma {:induction false} SplitJoin(parts: seq<string>, sep: string)
    requires |parts| >= 1 && |sep| > 0
    requires forall k :: 0 <= k < |parts| ==> sep[0] !in parts[k]
    ensures SplitOn(Join(sep, parts), sep) == parts
    decreases |parts|
  {
    if |parts| == 1 {
      SplitNoSeparator(parts[0], sep);
    } else {
      SplitJoin(parts[1..], sep);
      SplitAfterPart(parts[0], sep, Join(sep, parts[1..]));
      assert [parts[0]] + parts[1..] == parts;
    }
  }

  /** A character in neither the separator nor any part is not in their join. */
  lemma {:induction false} JoinExcludes(c: char, sep: string, parts: seq<string>)
    requires c !in sep && forall k :: 0 <= k < |parts| ==> c !in parts[k]
    ensures c !in Join(sep, parts)
    decreases |parts|
  {
    if |parts| > 1 {
      JoinExcludes(c, sep, parts[1..]);
    }
  }

  /** Appending to a join appends to its last part. */
  lemma {:induction false} JoinAppendLast(sep: string, parts: seq<string>, x: string)
    requires |parts| >= 1
    ensures Join(sep, parts) + x == Join(sep, parts[..|parts| - 1] + [parts[|parts| - 1] + x])
    decreases |parts|
  {
    var q := parts[..|parts| - 1] + [parts[|parts| - 1] + x];
    if |parts| == 1 {
      assert q == [parts[0] + x];
    } else {
      var rest := parts[1..];
      JoinAppendLast(sep, rest, x);
      assert q[0] == parts[0] && |q| >= 2;
      assert q[1..] == rest[..|rest| - 1] + [rest[|rest| - 1] + x];
      assert Join(sep, q) == parts[0] + sep + (Join(sep, rest) + x);
      assert parts[0] + sep + (Join(sep, rest) + x) == (parts[0] + sep + Join(sep, rest)) + x;
    }
  }

  predicate IsDigit(c: char) { '0' <= c <= '9' }

  function DigitChar(d: nat): (c: char)
    requires d < 10
    ensures IsDigit(c) && c as int - '0' as int == d
  {
    (d + '0' as int) as char
  }

  /** `str(n)`: the decimal digits of `n`, most significant first. */
  function NatToString(n: nat): (s: string)
    ensures |s| >= 1
    ensures forall k :: 0 <= k < |s| ==> IsDigit(s[k])
  {
    if n < 10 then [DigitChar(n)] else NatToString(n / 10) + [DigitChar(n % 10)]
  }

  /** The number a string of decimal digits denotes. */
  function DecimalValue(s: string): nat
    requires forall k :: 0 <= k < |s| ==> IsDigit(s[k])
  {
    if |s| == 0 then 0
    else
      var last := s[|s| - 1];
      assert IsDigit(last);
      DecimalValue(s[..|s| - 1]) * 10 + (last as int - '0' as int)
  }

  /** `str(n)` is read back as `n`: the rendering is the base-10 numeral. */
  lemma {:induction false} DecimalRoundTrip(n: nat)
    ensures DecimalValue(NatToString(n)) == n
  {
    if n >= 10 {
      DecimalRoundTrip(n / 10);
      var s := NatToString(n);
      assert s[..|s| - 1] == NatToString(n / 10);
    }
  }

  lemma NatToStringInjective(m: nat, n: nat)
    requires NatToString(m) == NatToString(n)
    ensures m == n
  {
    DecimalRoundTrip(m);
    DecimalRoundTrip(n);
  }

  /** `n * s`: empty unless `n` is positive. */
  function Repeat(s: string, n: int): (r: string)
    ensures n >= 0 ==> |r| == n * |s|
    ensures n <= 0 ==> r == ""
    decreases n
  {
    if n <= 0 then "" else s + Repeat(s, n - 1)
  }

  /** `s[start:]` with Python's clamping and negative start counted from the end. */
  function SliceFrom(s: string, start: int): (r: string)
    ensures |r| <= |s| && r == s[|s| - |r|..]
    ensures start >= 0 ==> |r| == if start >= |s| then 0 else |s| - start
    ensures start < 0 ==> |r| == if -start >= |s| then |s| else -start
  {
    if start >= 0 then (if start >= |s| then "" else s[start..])
    else (if -start >= |s| then s else s[|s| + start..])
  }

  predicate AllSpaces(s: string) { forall k :: 0 <= k < |s| ==> s[k] == ' ' }

  lemma RepeatSpaces(n: int)
    ensures AllSpaces(Repeat("    ", n))
    decreases n
  {
    if n > 0 {
      RepeatSpaces(n - 1);
    }
  }

  lemma AllSpacesEqual(s: string, t: string)
    requires AllSpaces(s) && AllSpaces(t) && |s| == |t|
    ensures s == t
  {
  }

  /** Number of occurrences of `x` in `xs`. */
  function Count<T(==)>(xs: seq<T>, x: T): nat
  {
    if |xs| == 0 then 0 else Count(xs[..|xs| - 1], x) + (if xs[|xs| - 1] == x then 1 else 0)
  }

  lemma {:induction false} CountAppend<T>(xs: seq<T>, ys: seq<T>, x: T)
    ensures Count(xs + ys, x) == Count(xs, x) + Count(ys, x)
    decreases |ys|
  {
    if |ys| > 0 {
      assert (xs + ys)[..|xs + ys| - 1] == xs + ys[..|ys| - 1];
      CountAppend(xs, ys[..|ys| - 1], x);
    } else {
      assert xs + ys == xs;
    }
  }

  lemma {:induction false} CountAbsent<T>(xs: seq<T>, x: T)
    requires forall k :: 0 <= k < |xs| ==> xs[k] != x
    ensures Count(xs, x) == 0
    decreases |xs|
  {
    if |xs| > 0 {
      CountAbsent(xs[..|xs| - 1], x);
    }
  }

  lemma AppendAssoc<T>(xs: seq<T>, ys: seq<T>, zs: seq<T>)
    ensures (xs + ys) + zs == xs + (ys + zs)
  {
  }

  /** Concatenation of a sequence of sequences. */
  function Flatten<T>(xss: seq<seq<T>>): seq<T>
  {
    if |xss| == 0 then [] else Flatten(xss[..|xss| - 1]) + xss[|xss| - 1]
  }

  /** Every element of a part is an element of the concatenation. */
  lemma {:induction false} FlattenContains<T>(xss: seq<seq<T>>, k: nat, x: T)
    requires k < |xss| && x in xss[k]
    ensures x in Flatten(xss)
    decreases |xss|
  {
    var front := xss[..|xss| - 1];
    if k < |xss| - 1 {
      assert front[k] == xss[k];
      FlattenContains(front, k, x);
    }
  }

  lemma FlattenSnoc<T>(xss: seq<seq<T>>, xs: seq<T>)
    ensures Flatten(xss + [xs]) == Flatten(xss) + xs
  {
    assert (xss + [xs])[..|xss|] == xss;
  }
}
