/**
 * The COO triples `generic_assemble` records: a pair of linear indices on or
 * above the diagonal yields the entry and, off the diagonal, its mirror
 * image, so the recorded pattern is symmetric.
 */
module Triples {
  import opened Text

  /** One COO triple: row, column, value. */
  datatype Triple = Triple(row: nat, col: nat, value: real)

  /**
   * The triples recorded for the pair `(ii, jj)` with value `v`: nothing below
   * the diagonal, one triple on it, and the entry and its mirror above it.
   */
  function PairTriples(ii: nat, jj: nat, v: real): seq<Triple>
  {
    if jj < ii then []
    else if ii == jj then [Triple(ii, jj, v)]
    else [Triple(ii, jj, v), Triple(jj, ii, v)]
  }

  function Mirror(t: Triple): Triple
  {
    Triple(t.col, t.row, t.value)
  }

  /** Every triple of `ts` mirrored, in the same order. */
  function Mirrored(ts: seq<Triple>): (ms: seq<Triple>)
    ensures |ms| == |ts|
  {
    seq(|ts|, k requires 0 <= k < |ts| => Mirror(ts[k]))
  }

  /** Mirroring every triple leaves the multiset of triples as it is. */
  ghost predicate MirrorBalanced(ts: seq<Triple>)
  {
    multiset(Mirrored(ts)) == multiset(ts)
  }

  /** Mirroring every triple turns the count of `Mirror(t)` into the count of `t`. */
  lemma {:induction false} MirroredCount(ts: seq<Triple>, t: Triple)
    ensures multiset(Mirrored(ts))[Mirror(t)] == multiset(ts)[t]
  {
    if |ts| > 0 {
      var front, last := ts[..|ts| - 1], ts[|ts| - 1];
      assert ts == front + [last];
      assert Mirrored(ts) == Mirrored(front) + [Mirror(last)];
      MirroredCount(front, t);
      assert Mirror(last) == Mirror(t) <==> last == t;
    }
  }

  /** In a balanced sequence a triple occurs as often as its mirror image. */
  lemma BalancedCount(ts: seq<Triple>, t: Triple)
    requires MirrorBalanced(ts)
    ensures multiset(ts)[t] == multiset(ts)[Mirror(t)]
  {
    MirroredCount(ts, t);
  }

  lemma PairTriplesBalanced(ii: nat, jj: nat, v: real)
    ensures MirrorBalanced(PairTriples(ii, jj, v))
  {
    var ps := PairTriples(ii, jj, v);
    if jj > ii {
      assert Mirrored(ps) == [ps[1], ps[0]];
    } else if jj == ii {
      assert Mirrored(ps) == ps;
    } else {
      assert Mirrored(ps) == ps;
    }
  }

  /** The triples `(rows[k], cols[k], values[k])` held by the three parallel vectors. */
  function Zip(rows: seq<nat>, cols: seq<nat>, values: seq<real>): (ts: seq<Triple>)
    requires |rows| == |cols| == |values|
    ensures |ts| == |values|
  {
    seq(|values|, k requires 0 <= k < |values| => Triple(rows[k], cols[k], values[k]))
  }

  /** `push_back` on all three vectors appends one triple. */
  lemma ZipSnoc(rows: seq<nat>, cols: seq<nat>, values: seq<real>, r: nat, c: nat, v: real)
    requires |rows| == |cols| == |values|
    ensures Zip(rows + [r], cols + [c], values + [v]) == Zip(rows, cols, values) + [Triple(r, c, v)]
  {
  }

  lemma BalancedAppend(xs: seq<Triple>, ys: seq<Triple>)
    requires MirrorBalanced(xs) && MirrorBalanced(ys)
    ensures MirrorBalanced(xs + ys)
  {
    assert Mirrored(xs + ys) == Mirrored(xs) + Mirrored(ys);
  }

  /** Concatenating balanced parts gives a balanced sequence. */
  lemma {:induction false} FlattenBalanced(parts: seq<seq<Triple>>)
    requires forall k :: 0 <= k < |parts| ==> MirrorBalanced(parts[k])
    ensures MirrorBalanced(Flatten(parts))
  {
    if |parts| > 0 {
      var front := parts[..|parts| - 1];
      FlattenBalanced(front);
      BalancedAppend(Flatten(front), parts[|parts| - 1]);
    }
  }

  /** Every triple of the concatenation comes from one of the parts. */
  lemma {:induction false} FlattenMember(parts: seq<seq<Triple>>, x: Triple) returns (k: nat)
    requires x in Flatten(parts)
    ensures k < |parts| && x in parts[k]
  {
    var front := parts[..|parts| - 1];
    if x in parts[|parts| - 1] {
      k := |parts| - 1;
    } else {
      k := FlattenMember(front, x);
    }
  }

  // ---------------------------------------------------------------------
  // Positions: how often a `(row, col)` position occurs among the triples

  /** The number of triples of `ts` at position `(r, c)`, whatever their values. */
  function PosCount(ts: seq<Triple>, r: nat, c: nat): nat
  {
    if |ts| == 0 then 0
    else PosCount(ts[..|ts| - 1], r, c) + (if ts[|ts| - 1].row == r && ts[|ts| - 1].col == c then 1 else 0)
  }

  lemma {:induction false} PosCountAppend(xs: seq<Triple>, ys: seq<Triple>, r: nat, c: nat)
    ensures PosCount(xs + ys, r, c) == PosCount(xs, r, c) + PosCount(ys, r, c)
    decreases |ys|
  {
    if |ys| == 0 {
      assert xs + ys == xs;
    } else {
      var front := ys[..|ys| - 1];
      assert (xs + ys)[..|xs + ys| - 1] == xs + front;
      PosCountAppend(xs, front, r, c);
    }
  }

  /**
   * The pair `(ii, jj)` occupies `(ii, jj)` and `(jj, ii)` once each when
   * `jj >= ii` (a single position on the diagonal), and nothing below it.
   */
  lemma PairPositions(ii: nat, jj: nat, v: real, r: nat, c: nat)
    ensures PosCount(PairTriples(ii, jj, v), r, c) ==
            if jj >= ii && ((r == ii && c == jj) || (r == jj && c == ii)) then 1 else 0
  {
    var ps := PairTriples(ii, jj, v);
    if jj > ii {
      var first := [Triple(ii, jj, v)];
      assert ps[..1] == first && first[..0] == [];
      assert PosCount(first, r, c) == if r == ii && c == jj then 1 else 0;
      assert PosCount(ps, r, c) == PosCount(first, r, c) + (if r == jj && c == ii then 1 else 0);
    } else if jj == ii {
      assert ps[..0] == [];
      assert PosCount(ps, r, c) == if r == ii && c == jj then 1 else 0;
    } else {
      assert ps == [];
    }
  }

  /** A count that is one exactly on a hit, extended by a part that is one exactly on a hit never seen before. */
  lemma OnceStep(prev: nat, last: nat, prevHit: bool, lastHit: bool)
    requires prev == (if prevHit then 1 else 0) && last == (if lastHit then 1 else 0)
    requires !(prevHit && lastHit)
    ensures prev + last == if prevHit || lastHit then 1 else 0
  {
  }

  /** The triple at index `a` is counted at its own position. */
  lemma {:induction false} PosCountPositive(ts: seq<Triple>, a: nat)
    requires a < |ts|
    ensures PosCount(ts, ts[a].row, ts[a].col) >= 1
    decreases |ts|
  {
    if a < |ts| - 1 {
      var front := ts[..|ts| - 1];
      PosCountPositive(front, a);
    }
  }

  /** No position occurs twice: distinct indices hold distinct positions. */
  predicate PositionsDistinct(ts: seq<Triple>)
  {
    forall a, b :: 0 <= a < b < |ts| ==> (ts[a].row, ts[a].col) != (ts[b].row, ts[b].col)
  }

  /** Counting at most one triple at every position means the positions are distinct. */
  lemma AtMostOnceDistinct(ts: seq<Triple>)
    requires forall r: nat, c: nat :: PosCount(ts, r, c) <= 1
    ensures PositionsDistinct(ts)
  {
    forall a, b | 0 <= a < b < |ts|
      ensures (ts[a].row, ts[a].col) != (ts[b].row, ts[b].col)
    {
      if (ts[a].row, ts[a].col) == (ts[b].row, ts[b].col) {
        var r, c := ts[a].row, ts[a].col;
        var xs, ys := ts[..b], ts[b..];
        assert ts == xs + ys && xs[a] == ts[a] && ys[0] == ts[b];
        PosCountAppend(xs, ys, r, c);
        PosCountPositive(xs, a);
        PosCountPositive(ys, 0);
        assert false;
      }
    }
  }
}
