/**
 * Support intervals of tensor-product B-splines and the Gauss ranges the
 * assembly routines derive from them. The mesh support of basis function `i`
 * along an axis is the half-open range of knot spans `[a, b)` on which it is
 * non-zero; the routines intersect the supports of the two functions of an
 * entry axis by axis, return zero as soon as one intersection is empty
 * (`intv.a >= intv.b`), and otherwise integrate over the Gauss nodes
 * `[nqp*a, nqp*b)` of the common spans, `nqp` nodes per span.
 */
module Support {

  /** What the assembler reads from a knot vector: degree, number of basis functions, their mesh supports. */
  datatype KnotVector = KnotVector(p: nat, numdofs: nat, meshsupp: seq<Interval>)

  predicate WellFormedKnotVector(kv: KnotVector)
  {
    kv.numdofs > 0 && |kv.meshsupp| == kv.numdofs
  }

  /** `IntInterval`: the knot spans `a, a+1, ..., b-1`. */
  datatype Interval = Intv(a: int, b: int)

  predicate Contains(iv: Interval, c: int)
  {
    iv.a <= c < iv.b
  }

  /** The emptiness test of the generated routines. */
  predicate IsEmpty(iv: Interval)
  {
    iv.a >= iv.b
  }

  /** The emptiness test means exactly that no span lies in the interval. */
  lemma EmptyIffNoSpan(iv: Interval)
    ensures IsEmpty(iv) <==> forall c :: !Contains(iv, c)
  {
    if !IsEmpty(iv) {
      assert Contains(iv, iv.a);
    }
  }

  function Max(x: int, y: int): int { if x >= y then x else y }

  function Min(x: int, y: int): int { if x <= y then x else y }

  /** `intersect_intervals(x, y)`: the spans common to both. */
  function IntersectIntervals(x: Interval, y: Interval): (r: Interval)
    ensures forall c :: Contains(r, c) <==> Contains(x, c) && Contains(y, c)
  {
    Intv(Max(x.a, y.a), Min(x.b, y.b))
  }

  /** The Gauss nodes of an interval of spans: `[nqp*a, nqp*b)`. */
  function GaussNodes(nqp: nat, iv: Interval): Interval
  {
    Intv(nqp * iv.a, nqp * iv.b)
  }

  /** A Gauss node lies in the range exactly when the span it belongs to (`g / nqp`) lies in the interval. */
  lemma GaussNodeSpan(nqp: nat, iv: Interval, g: int)
    requires nqp > 0
    ensures Contains(GaussNodes(nqp, iv), g) <==> Contains(iv, g / nqp)
  {
    var c, q := g / nqp, g % nqp;
    assert g == nqp * c + q && 0 <= q < nqp;
    if Contains(iv, c) {
      assert nqp * iv.a <= nqp * c by { MulLeftMono(nqp, iv.a, c); }
      assert nqp * (c + 1) <= nqp * iv.b by { MulLeftMono(nqp, c + 1, iv.b); }
    } else if c < iv.a {
      MulLeftMono(nqp, c + 1, iv.a);
    } else {
      MulLeftMono(nqp, iv.b, c);
    }
  }

  lemma MulLeftMono(m: nat, x: int, y: int)
    requires x <= y
    ensures m * x <= m * y
  {
    assert m * y - m * x == m * (y - x);
  }

  /** How many of the nodes `lo, ..., hi-1` belong to a span of `iv`. */
  function SpanNodeCount(nqp: nat, iv: Interval, lo: int, hi: int): nat
    requires nqp > 0
    decreases hi - lo
  {
    if hi <= lo then 0
    else SpanNodeCount(nqp, iv, lo, hi - 1) + (if Contains(iv, (hi - 1) / nqp) then 1 else 0)
  }

  lemma {:induction false} SpanNodeCountSplit(nqp: nat, iv: Interval, lo: int, mid: int, hi: int)
    requires nqp > 0 && lo <= mid <= hi
    ensures SpanNodeCount(nqp, iv, lo, hi) == SpanNodeCount(nqp, iv, lo, mid) + SpanNodeCount(nqp, iv, mid, hi)
    decreases hi - mid
  {
    if hi > mid {
      SpanNodeCountSplit(nqp, iv, lo, mid, hi - 1);
    }
  }

  /** Nodes outside `[nqp*a, nqp*b)` belong to no span of the interval. */
  lemma {:induction false} SpanNodeCountOutside(nqp: nat, iv: Interval, lo: int, hi: int)
    requires nqp > 0 && (hi <= nqp * iv.a || nqp * iv.b <= lo)
    ensures SpanNodeCount(nqp, iv, lo, hi) == 0
    decreases hi - lo
  {
    if hi > lo {
      GaussNodeSpan(nqp, iv, hi - 1);
      SpanNodeCountOutside(nqp, iv, lo, hi - 1);
    }
  }

  /** Every node inside `[nqp*a, nqp*b)` belongs to a span of the interval. */
  lemma {:induction false} SpanNodeCountInside(nqp: nat, iv: Interval, lo: int, hi: int)
    requires nqp > 0 && nqp * iv.a <= lo <= hi <= nqp * iv.b
    ensures SpanNodeCount(nqp, iv, lo, hi) == hi - lo
    decreases hi - lo
  {
    if hi > lo {
      GaussNodeSpan(nqp, iv, hi - 1);
      SpanNodeCountInside(nqp, iv, lo, hi - 1);
    }
  }

  /**
   * The number of Gauss nodes is `nqp` per common span: in any window of
   * nodes covering `[nqp*a, nqp*b)`, exactly `nqp*(b - a)` belong to a span
   * of the interval.
   */
  lemma GaussNodeCount(nqp: nat, iv: Interval, lo: int, hi: int)
    requires nqp > 0 && !IsEmpty(iv)
    requires lo <= nqp * iv.a && nqp * iv.b <= hi
    ensures SpanNodeCount(nqp, iv, lo, hi) == nqp * (iv.b - iv.a)
  {
    var first, last := nqp * iv.a, nqp * iv.b;
    MulLeftMono(nqp, iv.a, iv.b);
    SpanNodeCountSplit(nqp, iv, lo, first, hi);
    SpanNodeCountSplit(nqp, iv, first, last, hi);
    SpanNodeCountOutside(nqp, iv, lo, first);
    SpanNodeCountInside(nqp, iv, first, last);
    SpanNodeCountOutside(nqp, iv, last, hi);
    MulSub(nqp, iv.a, iv.b);
  }

  lemma MulSub(m: nat, x: int, y: int)
    ensures m * y - m * x == m * (y - x)
  {
  }

  /** `max([kv.p for kv in kvs]) + 1`: Gauss points per span, enough for every degree. */
  function NumQuadPoints(degrees: seq<nat>): (nqp: nat)
    requires |degrees| >= 1
    ensures forall k :: 0 <= k < |degrees| ==> degrees[k] < nqp
    ensures exists k :: 0 <= k < |degrees| && degrees[k] + 1 == nqp
  {
    if |degrees| == 1 then degrees[0] + 1
    else
      var rest := NumQuadPoints(degrees[..|degrees| - 1]);
      var last := degrees[|degrees| - 1];
      if last + 1 > rest then last + 1 else rest
  }

  /** What the support part of an entry routine leaves for the kernel. */
  datatype HeaderOutcome =
    | NoOverlap
    | GaussRanges(gSta: seq<int>, gEnd: seq<int>)

  /** Some axis on which the supports of the two functions do not meet. */
  predicate Disjoint(xs: seq<Interval>, ys: seq<Interval>)
    requires |xs| == |ys|
  {
    exists k :: 0 <= k < |xs| && IsEmpty(IntersectIntervals(xs[k], ys[k]))
  }

  /**
   * Outcome of the per-axis support loop for the supports `xs` and `ys` of the
   * two functions of an entry.
   */
  function PairHeader(nqp: nat, xs: seq<Interval>, ys: seq<Interval>): HeaderOutcome
    requires |xs| == |ys|
  {
    if Disjoint(xs, ys) then NoOverlap
    else GaussRanges(
      seq(|xs|, k requires 0 <= k < |xs| => GaussNodes(nqp, IntersectIntervals(xs[k], ys[k])).a),
      seq(|xs|, k requires 0 <= k < |xs| => GaussNodes(nqp, IntersectIntervals(xs[k], ys[k])).b))
  }

  /** The same loop for a linear form: one function, no intersection and no early return. */
  function SingleHeader(nqp: nat, xs: seq<Interval>): (h: HeaderOutcome)
    ensures h.GaussRanges? && |h.gSta| == |h.gEnd| == |xs|
  {
    GaussRanges(
      seq(|xs|, k requires 0 <= k < |xs| => GaussNodes(nqp, xs[k]).a),
      seq(|xs|, k requires 0 <= k < |xs| => GaussNodes(nqp, xs[k]).b))
  }

  /**
   * `assemble_impl_header`, run: for each axis intersect the two supports,
   * return zero on the first empty intersection, and record the Gauss range.
   */
  method IntersectSupports(nqp: nat, xs: seq<Interval>, ys: seq<Interval>) returns (h: HeaderOutcome)
    requires |xs| == |ys|
    ensures h == PairHeader(nqp, xs, ys)
  {
    var gSta := new int[|xs|];
    var gEnd := new int[|xs|];
    var k := 0;
    while k < |xs|
      invariant 0 <= k <= |xs|
      invariant forall m :: 0 <= m < k ==> !IsEmpty(IntersectIntervals(xs[m], ys[m]))
      invariant forall m :: 0 <= m < k ==> gSta[m] == nqp * IntersectIntervals(xs[m], ys[m]).a
      invariant forall m :: 0 <= m < k ==> gEnd[m] == nqp * IntersectIntervals(xs[m], ys[m]).b
    {
      var intv := IntersectIntervals(xs[k], ys[k]);
      if intv.a >= intv.b {
        return NoOverlap;
      }
      gSta[k] := nqp * intv.a;
      gEnd[k] := nqp * intv.b;
      k := k + 1;
    }
    h := GaussRanges(gSta[..], gEnd[..]);
  }

  /** No span lies in the support of both functions. */
  ghost predicate NoCommonSpan(x: Interval, y: Interval)
  {
    forall c :: !(Contains(x, c) && Contains(y, c))
  }

  /**
   * The kernel is reached exactly when every axis has a common span, and then
   * the Gauss range of each axis holds exactly the nodes of spans in both supports.
   */
  lemma PairHeaderRanges(nqp: nat, xs: seq<Interval>, ys: seq<Interval>, k: nat, g: int)
    requires |xs| == |ys| && k < |xs| && nqp > 0
    ensures PairHeader(nqp, xs, ys).NoOverlap? <==> exists m :: 0 <= m < |xs| && NoCommonSpan(xs[m], ys[m])
    ensures PairHeader(nqp, xs, ys).GaussRanges? ==>
      (PairHeader(nqp, xs, ys).gSta[k] <= g < PairHeader(nqp, xs, ys).gEnd[k] <==>
       Contains(xs[k], g / nqp) && Contains(ys[k], g / nqp))
  {
    if Disjoint(xs, ys) {
      var m :| 0 <= m < |xs| && IsEmpty(IntersectIntervals(xs[m], ys[m]));
      EmptyIffNoSpan(IntersectIntervals(xs[m], ys[m]));
      assert NoCommonSpan(xs[m], ys[m]);
    } else {
      forall m | 0 <= m < |xs| ensures !NoCommonSpan(xs[m], ys[m]) {
        EmptyIffNoSpan(IntersectIntervals(xs[m], ys[m]));
      }
    }
    GaussNodeSpan(nqp, IntersectIntervals(xs[k], ys[k]), g);
  }
}
