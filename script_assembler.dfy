/**
 * The `BaseAssembler{DIM}D` runtime of the assembler-generation script: a
 * tensor-product space of `DIM` knot vectors, the conversion between linear
 * and multi-indices, the entry routine's support test, batch evaluation of
 * entries, and the symmetric sparse assembly over neighbouring basis
 * functions that produces COO triples.
 *
 * The floating-point kernel the script generates per bilinear form
 * (`combine`) is an abstract function of the two multi-indices and their
 * Gauss ranges; `find_joint_support_functions`, which gives the range of
 * basis functions whose support meets that of a given one, is an abstract
 * function of the axis and the index, with the range it must lie in stated
 * by `NeighboursValid`.
 */
module ScriptAssembler {
  import opened Text
  import opened Indexing
  import opened Support
  import opened Triples

  /** The generated kernel: an entry from the two multi-indices and the per-axis Gauss ranges. */
  type Kernel = (seq<nat>, seq<nat>, seq<int>, seq<int>) -> real

  class Assembler {
    const dim: nat
    const nqp: nat
    const ndofs: seq<nat>
    const meshsupp: seq<seq<Interval>>
    const combine: Kernel
    const jointSupport: (nat, nat) -> Interval

    /** `base_init(kvs)`: one knot vector per axis; `nqp` is the largest degree plus one. */
    constructor (kvs: seq<KnotVector>, combine: Kernel, jointSupport: (nat, nat) -> Interval)
      requires |kvs| >= 1 && forall k :: 0 <= k < |kvs| ==> WellFormedKnotVector(kvs[k])
      ensures Valid()
      ensures dim == |kvs|
      ensures nqp == NumQuadPoints(seq(|kvs|, k requires 0 <= k < |kvs| => kvs[k].p))
      ensures ndofs == seq(|kvs|, k requires 0 <= k < |kvs| => kvs[k].numdofs)
      ensures meshsupp == seq(|kvs|, k requires 0 <= k < |kvs| => kvs[k].meshsupp)
      ensures this.combine == combine && this.jointSupport == jointSupport
    {
      dim := |kvs|;
      nqp := NumQuadPoints(seq(|kvs|, k requires 0 <= k < |kvs| => kvs[k].p));
      ndofs := seq(|kvs|, k requires 0 <= k < |kvs| => kvs[k].numdofs);
      meshsupp := seq(|kvs|, k requires 0 <= k < |kvs| => kvs[k].meshsupp);
      this.combine := combine;
      this.jointSupport := jointSupport;
    }

    /** Every axis has basis functions and a mesh support for each of them; at least one Gauss node per span. */
    predicate Valid()
    {
      dim >= 1 && nqp >= 1 && |ndofs| == dim && |meshsupp| == dim &&
      forall k :: 0 <= k < dim ==> ndofs[k] > 0 && |meshsupp[k]| == ndofs[k]
    }

    /** Neighbour ranges lie within the basis functions of their axis and are not empty. */
    predicate NeighboursValid()
    {
      forall k: nat, x: nat :: k < |ndofs| && x < ndofs[k] ==>
        0 <= jointSupport(k, x).a < jointSupport(k, x).b <= ndofs[k]
    }

    /** Total number of basis functions, `N`. */
    function Size(): nat
    {
      Prod(ndofs)
    }

    function Supports(I: seq<nat>): (r: seq<Interval>)
      requires Valid() && InRange(I, ndofs)
      ensures |r| == dim
    {
      seq(dim, k requires 0 <= k < dim => meshsupp[k][I[k]])
    }

    /** The value `assemble_impl(I, J)` returns. */
    function EntryValue(I: seq<nat>, J: seq<nat>): real
      requires Valid() && InRange(I, ndofs) && InRange(J, ndofs)
    {
      match PairHeader(nqp, Supports(I), Supports(J))
      case NoOverlap => 0.0
      case GaussRanges(gSta, gEnd) => combine(I, J, gSta, gEnd)
    }

    /** The entry at the linear indices `i`, `j`. */
    function LinearEntry(i: nat, j: nat): real
      requires Valid() && i < Size() && j < Size()
    {
      UnrankInRange(i, ndofs);
      UnrankInRange(j, ndofs);
      EntryValue(Unrank(i, ndofs), Unrank(j, ndofs))
    }

    /**
     * `assemble_impl(i, j)`: zero when the supports miss each other on some
     * axis, else the kernel over the Gauss ranges of the common spans.
     */
    method AssembleImpl(I: seq<nat>, J: seq<nat>) returns (r: real)
      requires Valid() && InRange(I, ndofs) && InRange(J, ndofs)
      ensures r == EntryValue(I, J)
    {
      var h := IntersectSupports(nqp, Supports(I), Supports(J));
      if h.NoOverlap? {
        return 0.0;
      }
      r := combine(I, J, h.gSta, h.gEnd);
    }

    /** The kernel is never reached when the two supports share no span on some axis: the entry is zero. */
    lemma EntryVanishesOffSupport(I: seq<nat>, J: seq<nat>, k: nat)
      requires Valid() && InRange(I, ndofs) && InRange(J, ndofs) && k < dim
      requires NoCommonSpan(meshsupp[k][I[k]], meshsupp[k][J[k]])
      ensures EntryValue(I, J) == 0.0
    {
      PairHeaderRanges(nqp, Supports(I), Supports(J), k, 0);
    }

    /**
     * When the supports share a span on every axis, the entry is the kernel
     * over Gauss ranges that hold, per axis, exactly the nodes `g` whose span
     * `g / nqp` lies in both supports.
     */
    lemma EntryOnCommonSpans(I: seq<nat>, J: seq<nat>)
      requires Valid() && InRange(I, ndofs) && InRange(J, ndofs)
      requires forall k :: 0 <= k < dim ==> !NoCommonSpan(meshsupp[k][I[k]], meshsupp[k][J[k]])
      ensures PairHeader(nqp, Supports(I), Supports(J)).GaussRanges?
      ensures var h := PairHeader(nqp, Supports(I), Supports(J));
        EntryValue(I, J) == combine(I, J, h.gSta, h.gEnd) &&
        |h.gSta| == |h.gEnd| == dim &&
        forall k, g :: 0 <= k < dim ==>
          (h.gSta[k] <= g < h.gEnd[k] <==> Contains(meshsupp[k][I[k]], g / nqp) && Contains(meshsupp[k][J[k]], g / nqp))
    {
      var xs, ys := Supports(I), Supports(J);
      PairHeaderRanges(nqp, xs, ys, 0, 0);
      forall k, g | 0 <= k < dim
        ensures PairHeader(nqp, xs, ys).gSta[k] <= g < PairHeader(nqp, xs, ys).gEnd[k] <==> Contains(xs[k], g / nqp) && Contains(ys[k], g / nqp)
      {
        PairHeaderRanges(nqp, xs, ys, k, g);
      }
    }

    /** `assemble(i, j)`: the entry at the linear indices `i`, `j`. */
    method Assemble(i: nat, j: nat) returns (r: real)
      requires Valid() && i < Size() && j < Size()
      ensures r == LinearEntry(i, j)
    {
      var I := new nat[dim];
      var J := new nat[dim];
      FromSeq(i, ndofs, I);
      FromSeq(j, ndofs, J);
      UnrankInRange(i, ndofs);
      UnrankInRange(j, ndofs);
      r := AssembleImpl(I[..], J[..]);
    }

    /** `multi_assemble_chunk(idx_arr, out)`: `out[k]` is the entry of the `k`-th index pair, in order. */
    method MultiAssembleChunk(idx: seq<(nat, nat)>, out: array<real>)
      requires Valid() && out.Length >= |idx|
      requires forall k :: 0 <= k < |idx| ==> idx[k].0 < Size() && idx[k].1 < Size()
      modifies out
      ensures forall k :: 0 <= k < |idx| ==> out[k] == LinearEntry(idx[k].0, idx[k].1)
      ensures forall k :: |idx| <= k < out.Length ==> out[k] == old(out[k])
    {
      var k := 0;
      while k < |idx|
        invariant 0 <= k <= |idx|
        invariant forall m :: 0 <= m < k ==> out[m] == LinearEntry(idx[m].0, idx[m].1)
        invariant forall m :: |idx| <= m < out.Length ==> out[m] == old(out[m])
      {
        out[k] := Assemble(idx[k].0, idx[k].1);
        k := k + 1;
      }
    }

    // -------------------------------------------------------------------
    // generic_assemble_{DIM}d

    /** Lower corner of the rows assembled: zero, or `chunk_start` on axis 0 when it is non-negative. */
    function DofStart(chunkStart: int): (s: seq<nat>)
      requires Valid()
      ensures |s| == dim
    {
      seq(dim, k requires 0 <= k < dim => if k == 0 && chunkStart >= 0 then chunkStart as nat else 0)
    }

    /** Upper corner: `ndofs`, or `chunk_end` on axis 0 when it is non-negative. */
    function DofEnd(chunkEnd: int): (e: seq<nat>)
      requires Valid()
      ensures |e| == dim
    {
      seq(dim, k requires 0 <= k < dim => if k == 0 && chunkEnd >= 0 then chunkEnd as nat else ndofs[k])
    }

    /** The row chunk handed to `generic_assemble`: a non-empty box of valid multi-indices. */
    predicate ValidChunk(chunkStart: int, chunkEnd: int)
      requires Valid()
    {
      NonemptyBox(DofStart(chunkStart), DofEnd(chunkEnd)) && DofEnd(chunkEnd)[0] <= ndofs[0]
    }

    function NeighStart(I: seq<nat>): (s: seq<nat>)
      requires Valid() && NeighboursValid() && InRange(I, ndofs)
      ensures |s| == dim
    {
      seq(dim, k requires 0 <= k < dim => jointSupport(k, I[k]).a)
    }

    function NeighEnd(I: seq<nat>): (e: seq<nat>)
      requires Valid() && NeighboursValid() && InRange(I, ndofs)
      ensures |e| == dim
    {
      seq(dim, k requires 0 <= k < dim => jointSupport(k, I[k]).b)
    }

    /** The `s`-th neighbour of `I` in lexicographic order. */
    function Neighbour(I: seq<nat>, s: nat): (J: seq<nat>)
      requires Valid() && NeighboursValid() && InRange(I, ndofs)
      ensures |J| == dim
    {
      BoxElem(s, NeighStart(I), NeighEnd(I))
    }

    function NumNeighbours(I: seq<nat>): nat
      requires Valid() && NeighboursValid() && InRange(I, ndofs)
    {
      BoxSize(NeighStart(I), NeighEnd(I))
    }

    lemma NeighbourInRange(I: seq<nat>, s: nat)
      requires Valid() && NeighboursValid() && InRange(I, ndofs) && s < NumNeighbours(I)
      ensures NonemptyBox(NeighStart(I), NeighEnd(I))
      ensures InRange(Neighbour(I, s), ndofs)
    {
      BoxElemInBox(s, NeighStart(I), NeighEnd(I));
    }

    /** Every basis function has at least one neighbour: the box of neighbours is not empty. */
    lemma NeighboursNonempty(I: seq<nat>)
      requires Valid() && NeighboursValid() && InRange(I, ndofs)
      ensures NonemptyBox(NeighStart(I), NeighEnd(I)) && NumNeighbours(I) > 0
    {
      BoxSizePositive(NeighStart(I), NeighEnd(I));
    }

    /** The triples recorded for the pair of `I` and its `k`-th neighbour. */
    function NeighbourTriples(I: seq<nat>, k: nat): seq<Triple>
      requires Valid() && NeighboursValid() && InRange(I, ndofs) && k < NumNeighbours(I)
    {
      NeighbourInRange(I, k);
      var J := Neighbour(I, k);
      PairTriples(Rank(I, ndofs), Rank(J, ndofs), EntryValue(I, J))
    }

    /** The triples of the first `s` neighbours of row `I`, one part per neighbour. */
    function RowParts(I: seq<nat>, s: nat): (parts: seq<seq<Triple>>)
      requires Valid() && NeighboursValid() && InRange(I, ndofs) && s <= NumNeighbours(I)
      ensures |parts| == s && forall k :: 0 <= k < s ==> parts[k] == NeighbourTriples(I, k)
    {
      seq(s, k requires 0 <= k < s => NeighbourTriples(I, k))
    }

    lemma RowPartsSnoc(I: seq<nat>, s: nat)
      requires Valid() && NeighboursValid() && InRange(I, ndofs) && 0 < s <= NumNeighbours(I)
      ensures RowParts(I, s) == RowParts(I, s - 1) + [NeighbourTriples(I, s - 1)]
    {
    }

    /** The triples for row `I` after visiting its first `s` neighbours. */
    function RowTriples(I: seq<nat>, s: nat): seq<Triple>
      requires Valid() && NeighboursValid() && InRange(I, ndofs) && s <= NumNeighbours(I)
    {
      Flatten(RowParts(I, s))
    }

    lemma ChunkRowInRange(chunkStart: int, chunkEnd: int, t: nat)
      requires Valid() && ValidChunk(chunkStart, chunkEnd) && t < BoxSize(DofStart(chunkStart), DofEnd(chunkEnd))
      ensures InRange(BoxElem(t, DofStart(chunkStart), DofEnd(chunkEnd)), ndofs)
    {
      var I := BoxElem(t, DofStart(chunkStart), DofEnd(chunkEnd));
      BoxElemInBox(t, DofStart(chunkStart), DofEnd(chunkEnd));
    }

    /** The triples of row `t` of the chunk, all of its neighbours visited. */
    function ChunkRow(chunkStart: int, chunkEnd: int, t: nat): seq<Triple>
      requires Valid() && NeighboursValid() && ValidChunk(chunkStart, chunkEnd)
      requires t < BoxSize(DofStart(chunkStart), DofEnd(chunkEnd))
    {
      ChunkRowInRange(chunkStart, chunkEnd, t);
      var I := BoxElem(t, DofStart(chunkStart), DofEnd(chunkEnd));
      RowTriples(I, NumNeighbours(I))
    }

    /** The triples of the first `t` rows of the chunk, one part per row. */
    function ChunkParts(chunkStart: int, chunkEnd: int, t: nat): (parts: seq<seq<Triple>>)
      requires Valid() && NeighboursValid() && ValidChunk(chunkStart, chunkEnd)
      requires t <= BoxSize(DofStart(chunkStart), DofEnd(chunkEnd))
      ensures |parts| == t && forall r :: 0 <= r < t ==> parts[r] == ChunkRow(chunkStart, chunkEnd, r)
    {
      seq(t, r requires 0 <= r < t => ChunkRow(chunkStart, chunkEnd, r))
    }

    lemma ChunkPartsSnoc(chunkStart: int, chunkEnd: int, t: nat)
      requires Valid() && NeighboursValid() && ValidChunk(chunkStart, chunkEnd)
      requires 0 < t <= BoxSize(DofStart(chunkStart), DofEnd(chunkEnd))
      ensures ChunkParts(chunkStart, chunkEnd, t) == ChunkParts(chunkStart, chunkEnd, t - 1) + [ChunkRow(chunkStart, chunkEnd, t - 1)]
    {
    }

    /** The triples of the first `t` rows of the chunk. */
    function ChunkTriples(chunkStart: int, chunkEnd: int, t: nat): seq<Triple>
      requires Valid() && NeighboursValid() && ValidChunk(chunkStart, chunkEnd)
      requires t <= BoxSize(DofStart(chunkStart), DofEnd(chunkEnd))
    {
      Flatten(ChunkParts(chunkStart, chunkEnd, t))
    }

    /** Only the chunk bound overrides axis 0; every other axis spans all of its basis functions. */
    lemma ChunkBoxAxes(chunkStart: int, chunkEnd: int)
      requires Valid()
      ensures DofStart(chunkStart)[0] == (if chunkStart >= 0 then chunkStart else 0)
      ensures DofEnd(chunkEnd)[0] == (if chunkEnd >= 0 then chunkEnd else ndofs[0])
      ensures forall k :: 1 <= k < dim ==> DofStart(chunkStart)[k] == 0 && DofEnd(chunkEnd)[k] == ndofs[k]
    {
    }

    /**
     * What a recorded triple holds: both indices below `N`, and the value of
     * the entry at the smaller index as row and the larger one as column,
     * so a mirrored triple carries the value computed above the diagonal.
     */
    predicate Recorded(x: Triple)
      requires Valid()
    {
      x.row < Size() && x.col < Size() && x.value == LinearEntry(Min(x.row, x.col), Max(x.row, x.col))
    }

    lemma PairTriplesRecorded(I: seq<nat>, J: seq<nat>)
      requires Valid() && InRange(I, ndofs) && InRange(J, ndofs)
      ensures AllRecorded(PairTriples(Rank(I, ndofs), Rank(J, ndofs), EntryValue(I, J)))
    {
      RankBound(I, ndofs);
      RankBound(J, ndofs);
      UnrankOfRank(I, ndofs);
      UnrankOfRank(J, ndofs);
    }

    /** Every triple of `ts` is recorded as above. */
    predicate AllRecorded(ts: seq<Triple>)
      requires Valid()
    {
      forall x :: x in ts ==> Recorded(x)
    }

    /** One neighbour more: the triples of the pair of `I` and its neighbour `J` are appended. */
    lemma RowUnfold(I: seq<nat>, s: nat) returns (J: seq<nat>)
      requires Valid() && NeighboursValid() && InRange(I, ndofs) && 0 < s <= NumNeighbours(I)
      ensures InRange(J, ndofs) && J == Neighbour(I, s - 1)
      ensures RowTriples(I, s) == RowTriples(I, s - 1) + PairTriples(Rank(I, ndofs), Rank(J, ndofs), EntryValue(I, J))
    {
      NeighbourInRange(I, s - 1);
      J := Neighbour(I, s - 1);
      assert InRange(J, ndofs);
      RowPartsSnoc(I, s);
      FlattenSnoc(RowParts(I, s - 1), NeighbourTriples(I, s - 1));
      assert NeighbourTriples(I, s - 1) == PairTriples(Rank(I, ndofs), Rank(J, ndofs), EntryValue(I, J));
    }

    /** The triples of a row are recorded as above. */
    lemma RowTriplesRecorded(I: seq<nat>, s: nat)
      requires Valid() && NeighboursValid() && InRange(I, ndofs) && s <= NumNeighbours(I)
      ensures AllRecorded(RowTriples(I, s))
    {
      forall x | x in RowTriples(I, s)
        ensures Recorded(x)
      {
        var k := FlattenMember(RowParts(I, s), x);
        NeighbourInRange(I, k);
        PairTriplesRecorded(I, Neighbour(I, k));
      }
    }

    /** The triples of a row occur as often as their mirror images. */
    lemma RowTriplesBalanced(I: seq<nat>, s: nat)
      requires Valid() && NeighboursValid() && InRange(I, ndofs) && s <= NumNeighbours(I)
      ensures MirrorBalanced(RowTriples(I, s))
    {
      forall k | 0 <= k < s
        ensures MirrorBalanced(RowParts(I, s)[k])
      {
        NeighbourInRange(I, k);
        var J := Neighbour(I, k);
        PairTriplesBalanced(Rank(I, ndofs), Rank(J, ndofs), EntryValue(I, J));
      }
      FlattenBalanced(RowParts(I, s));
    }

    /**
     * Everything `generic_assemble` records for a chunk has its row and column
     * below `N` and holds the entry on or above the diagonal.
     */
    lemma ChunkTriplesRecorded(chunkStart: int, chunkEnd: int, t: nat)
      requires Valid() && NeighboursValid() && ValidChunk(chunkStart, chunkEnd)
      requires t <= BoxSize(DofStart(chunkStart), DofEnd(chunkEnd))
      ensures AllRecorded(ChunkTriples(chunkStart, chunkEnd, t))
    {
      forall x | x in ChunkTriples(chunkStart, chunkEnd, t)
        ensures Recorded(x)
      {
        var r := FlattenMember(ChunkParts(chunkStart, chunkEnd, t), x);
        ChunkRowInRange(chunkStart, chunkEnd, r);
        var I := BoxElem(r, DofStart(chunkStart), DofEnd(chunkEnd));
        RowTriplesRecorded(I, NumNeighbours(I));
      }
    }

    /** The triples recorded for a chunk form a symmetric pattern: `(r, c, v)` occurs as often as `(c, r, v)`. */
    lemma ChunkTriplesBalanced(chunkStart: int, chunkEnd: int, t: nat)
      requires Valid() && NeighboursValid() && ValidChunk(chunkStart, chunkEnd)
      requires t <= BoxSize(DofStart(chunkStart), DofEnd(chunkEnd))
      ensures MirrorBalanced(ChunkTriples(chunkStart, chunkEnd, t))
    {
      forall r | 0 <= r < t
        ensures MirrorBalanced(ChunkParts(chunkStart, chunkEnd, t)[r])
      {
        ChunkRowInRange(chunkStart, chunkEnd, r);
        var I := BoxElem(r, DofStart(chunkStart), DofEnd(chunkEnd));
        RowTriplesBalanced(I, NumNeighbours(I));
      }
      FlattenBalanced(ChunkParts(chunkStart, chunkEnd, t));
    }

    // -------------------------------------------------------------------
    // Each position of the assembled matrix is recorded exactly once

    /**
     * Row `I` visiting neighbour `J` occupies position `(r, c)`: the pair is on
     * or above the diagonal and `(r, c)` is `(rank I, rank J)` or its mirror.
     */
    predicate PairAt(I: seq<nat>, J: seq<nat>, r: nat, c: nat)
      requires Valid() && |I| == dim && |J| == dim
    {
      Rank(J, ndofs) >= Rank(I, ndofs) &&
      ((r == Rank(I, ndofs) && c == Rank(J, ndofs)) || (r == Rank(J, ndofs) && c == Rank(I, ndofs)))
    }

    /** A pair occupying `(r, c)` has the smaller of the two as its row's rank and the larger as its neighbour's. */
    lemma PairAtRanks(I: seq<nat>, J: seq<nat>, r: nat, c: nat)
      requires Valid() && |I| == dim && |J| == dim && PairAt(I, J, r, c)
      ensures Rank(I, ndofs) == Min(r, c) && Rank(J, ndofs) == Max(r, c)
    {
    }

    /** Some one of the first `s` neighbours of `I` occupies `(r, c)`. */
    predicate RowHit(I: seq<nat>, s: nat, r: nat, c: nat)
      requires Valid() && NeighboursValid() && InRange(I, ndofs)
    {
      exists k :: 0 <= k < s && PairAt(I, Neighbour(I, k), r, c)
    }

    /** Two neighbours of `I` occupying the same position are the same neighbour. */
    lemma NeighbourPositionInjective(I: seq<nat>, k: nat, l: nat, r: nat, c: nat)
      requires Valid() && NeighboursValid() && InRange(I, ndofs)
      requires k < NumNeighbours(I) && l < NumNeighbours(I)
      requires PairAt(I, Neighbour(I, k), r, c) && PairAt(I, Neighbour(I, l), r, c)
      ensures k == l
    {
      NeighbourInRange(I, k);
      NeighbourInRange(I, l);
      PairAtRanks(I, Neighbour(I, k), r, c);
      PairAtRanks(I, Neighbour(I, l), r, c);
      RankInjective(Neighbour(I, k), Neighbour(I, l), ndofs);
      BoxElemInjective(k, l, NeighStart(I), NeighEnd(I));
    }

    /** One neighbour more: a hit among the first `s` neighbours is a hit among the first `s - 1` or at neighbour `s - 1`. */
    lemma RowHitSnoc(I: seq<nat>, s: nat, r: nat, c: nat)
      requires Valid() && NeighboursValid() && InRange(I, ndofs) && 0 < s
      ensures RowHit(I, s, r, c) <==> RowHit(I, s - 1, r, c) || PairAt(I, Neighbour(I, s - 1), r, c)
    {
      if RowHit(I, s, r, c) {
        var k :| 0 <= k < s && PairAt(I, Neighbour(I, k), r, c);
        if k < s - 1 {
          assert RowHit(I, s - 1, r, c);
        }
      }
    }

    /** Neighbour `s - 1` occupying `(r, c)` excludes every earlier neighbour of the row from it. */
    lemma RowHitExclusive(I: seq<nat>, s: nat, r: nat, c: nat)
      requires Valid() && NeighboursValid() && InRange(I, ndofs) && 0 < s <= NumNeighbours(I)
      requires PairAt(I, Neighbour(I, s - 1), r, c)
      ensures !RowHit(I, s - 1, r, c)
    {
      if RowHit(I, s - 1, r, c) {
        var k :| 0 <= k < s - 1 && PairAt(I, Neighbour(I, k), r, c);
        NeighbourPositionInjective(I, k, s - 1, r, c);
      }
    }

    /** Within a row, position `(r, c)` is recorded once if a visited neighbour occupies it, and never otherwise. */
    lemma {:induction false} RowPositions(I: seq<nat>, s: nat, r: nat, c: nat)
      requires Valid() && NeighboursValid() && InRange(I, ndofs) && s <= NumNeighbours(I)
      ensures PosCount(RowTriples(I, s), r, c) == if RowHit(I, s, r, c) then 1 else 0
      decreases s
    {
      if s == 0 {
        assert RowParts(I, 0) == [];
        assert !RowHit(I, 0, r, c);
      } else {
        RowPositions(I, s - 1, r, c);
        RowPositionsStep(I, s, r, c);
      }
    }

    /** One neighbour more keeps position `(r, c)` recorded at most once. */
    lemma RowPositionsStep(I: seq<nat>, s: nat, r: nat, c: nat)
      requires Valid() && NeighboursValid() && InRange(I, ndofs) && 0 < s <= NumNeighbours(I)
      requires PosCount(RowTriples(I, s - 1), r, c) == if RowHit(I, s - 1, r, c) then 1 else 0
      ensures PosCount(RowTriples(I, s), r, c) == if RowHit(I, s, r, c) then 1 else 0
    {
      RowCountSplit(I, s, r, c);
      var lastHit := PairAt(I, Neighbour(I, s - 1), r, c);
      RowHitSnoc(I, s, r, c);
      if lastHit {
        RowHitExclusive(I, s, r, c);
      }
      OnceStep(PosCount(RowTriples(I, s - 1), r, c), if lastHit then 1 else 0, RowHit(I, s - 1, r, c), lastHit);
    }

    /** Neighbour `s - 1` adds one triple at `(r, c)` if it occupies that position, and none otherwise. */
    lemma RowCountSplit(I: seq<nat>, s: nat, r: nat, c: nat)
      requires Valid() && NeighboursValid() && InRange(I, ndofs) && 0 < s <= NumNeighbours(I)
      ensures PosCount(RowTriples(I, s), r, c) ==
              PosCount(RowTriples(I, s - 1), r, c) + (if PairAt(I, Neighbour(I, s - 1), r, c) then 1 else 0)
    {
      var J := RowUnfold(I, s);
      var pair := PairTriples(Rank(I, ndofs), Rank(J, ndofs), EntryValue(I, J));
      PosCountAppend(RowTriples(I, s - 1), pair, r, c);
      PairPositions(Rank(I, ndofs), Rank(J, ndofs), EntryValue(I, J), r, c);
    }

    /** Row `p` of the chunk visits a neighbour occupying `(r, c)`. */
    predicate ChunkHit(chunkStart: int, chunkEnd: int, p: nat, r: nat, c: nat)
      requires Valid() && NeighboursValid() && ValidChunk(chunkStart, chunkEnd)
      requires p < BoxSize(DofStart(chunkStart), DofEnd(chunkEnd))
    {
      ChunkRowInRange(chunkStart, chunkEnd, p);
      var I := BoxElem(p, DofStart(chunkStart), DofEnd(chunkEnd));
      RowHit(I, NumNeighbours(I), r, c)
    }

    /** Two rows of the chunk occupying the same position are the same row: the row's rank is the smaller index. */
    lemma ChunkRowPositionInjective(chunkStart: int, chunkEnd: int, p: nat, q: nat, r: nat, c: nat)
      requires Valid() && NeighboursValid() && ValidChunk(chunkStart, chunkEnd)
      requires p < BoxSize(DofStart(chunkStart), DofEnd(chunkEnd)) && q < BoxSize(DofStart(chunkStart), DofEnd(chunkEnd))
      requires ChunkHit(chunkStart, chunkEnd, p, r, c) && ChunkHit(chunkStart, chunkEnd, q, r, c)
      ensures p == q
    {
      var lo, hi := DofStart(chunkStart), DofEnd(chunkEnd);
      ChunkRowInRange(chunkStart, chunkEnd, p);
      ChunkRowInRange(chunkStart, chunkEnd, q);
      var I, I' := BoxElem(p, lo, hi), BoxElem(q, lo, hi);
      var k :| 0 <= k < NumNeighbours(I) && PairAt(I, Neighbour(I, k), r, c);
      var k' :| 0 <= k' < NumNeighbours(I') && PairAt(I', Neighbour(I', k'), r, c);
      PairAtRanks(I, Neighbour(I, k), r, c);
      PairAtRanks(I', Neighbour(I', k'), r, c);
      RankInjective(I, I', ndofs);
      BoxElemInjective(p, q, lo, hi);
    }

    /** Some one of the first `t` rows of the chunk visits a neighbour occupying `(r, c)`. */
    predicate ChunkHitBefore(chunkStart: int, chunkEnd: int, t: nat, r: nat, c: nat)
      requires Valid() && NeighboursValid() && ValidChunk(chunkStart, chunkEnd)
      requires t <= BoxSize(DofStart(chunkStart), DofEnd(chunkEnd))
    {
      exists p :: 0 <= p < t && ChunkHit(chunkStart, chunkEnd, p, r, c)
    }

    lemma ChunkHitSnoc(chunkStart: int, chunkEnd: int, t: nat, r: nat, c: nat)
      requires Valid() && NeighboursValid() && ValidChunk(chunkStart, chunkEnd)
      requires 0 < t <= BoxSize(DofStart(chunkStart), DofEnd(chunkEnd))
      ensures ChunkHitBefore(chunkStart, chunkEnd, t, r, c) <==>
              ChunkHitBefore(chunkStart, chunkEnd, t - 1, r, c) || ChunkHit(chunkStart, chunkEnd, t - 1, r, c)
    {
      if ChunkHitBefore(chunkStart, chunkEnd, t, r, c) {
        var p :| 0 <= p < t && ChunkHit(chunkStart, chunkEnd, p, r, c);
        if p < t - 1 {
          assert ChunkHitBefore(chunkStart, chunkEnd, t - 1, r, c);
        }
      }
    }

    lemma ChunkHitExclusive(chunkStart: int, chunkEnd: int, t: nat, r: nat, c: nat)
      requires Valid() && NeighboursValid() && ValidChunk(chunkStart, chunkEnd)
      requires 0 < t <= BoxSize(DofStart(chunkStart), DofEnd(chunkEnd))
      requires ChunkHit(chunkStart, chunkEnd, t - 1, r, c)
      ensures !ChunkHitBefore(chunkStart, chunkEnd, t - 1, r, c)
    {
      if ChunkHitBefore(chunkStart, chunkEnd, t - 1, r, c) {
        var p :| 0 <= p < t - 1 && ChunkHit(chunkStart, chunkEnd, p, r, c);
        ChunkRowPositionInjective(chunkStart, chunkEnd, p, t - 1, r, c);
      }
    }

    /**
     * Over the first `t` rows of a chunk, position `(r, c)` is recorded exactly
     * once if one of those rows visits a neighbour occupying it, and never otherwise.
     */
    lemma {:induction false} ChunkPositions(chunkStart: int, chunkEnd: int, t: nat, r: nat, c: nat)
      requires Valid() && NeighboursValid() && ValidChunk(chunkStart, chunkEnd)
      requires t <= BoxSize(DofStart(chunkStart), DofEnd(chunkEnd))
      ensures PosCount(ChunkTriples(chunkStart, chunkEnd, t), r, c) ==
              if ChunkHitBefore(chunkStart, chunkEnd, t, r, c) then 1 else 0
      decreases t
    {
      if t == 0 {
        assert ChunkParts(chunkStart, chunkEnd, 0) == [];
        assert !ChunkHitBefore(chunkStart, chunkEnd, 0, r, c);
      } else {
        ChunkPositions(chunkStart, chunkEnd, t - 1, r, c);
        ChunkPositionsStep(chunkStart, chunkEnd, t, r, c);
      }
    }

    /** One row more keeps position `(r, c)` recorded at most once. */
    lemma ChunkPositionsStep(chunkStart: int, chunkEnd: int, t: nat, r: nat, c: nat)
      requires Valid() && NeighboursValid() && ValidChunk(chunkStart, chunkEnd)
      requires 0 < t <= BoxSize(DofStart(chunkStart), DofEnd(chunkEnd))
      requires PosCount(ChunkTriples(chunkStart, chunkEnd, t - 1), r, c) ==
               if ChunkHitBefore(chunkStart, chunkEnd, t - 1, r, c) then 1 else 0
      ensures PosCount(ChunkTriples(chunkStart, chunkEnd, t), r, c) ==
              if ChunkHitBefore(chunkStart, chunkEnd, t, r, c) then 1 else 0
    {
      ChunkCountSplit(chunkStart, chunkEnd, t, r, c);
      var lastHit := ChunkHit(chunkStart, chunkEnd, t - 1, r, c);
      ChunkHitSnoc(chunkStart, chunkEnd, t, r, c);
      if lastHit {
        ChunkHitExclusive(chunkStart, chunkEnd, t, r, c);
      }
      OnceStep(PosCount(ChunkTriples(chunkStart, chunkEnd, t - 1), r, c), if lastHit then 1 else 0,
               ChunkHitBefore(chunkStart, chunkEnd, t - 1, r, c), lastHit);
    }

    /** Row `t - 1` of the chunk adds one triple at `(r, c)` if it visits a neighbour occupying it, and none otherwise. */
    lemma ChunkCountSplit(chunkStart: int, chunkEnd: int, t: nat, r: nat, c: nat)
      requires Valid() && NeighboursValid() && ValidChunk(chunkStart, chunkEnd)
      requires 0 < t <= BoxSize(DofStart(chunkStart), DofEnd(chunkEnd))
      ensures PosCount(ChunkTriples(chunkStart, chunkEnd, t), r, c) ==
              PosCount(ChunkTriples(chunkStart, chunkEnd, t - 1), r, c) + (if ChunkHit(chunkStart, chunkEnd, t - 1, r, c) then 1 else 0)
    {
      var I := ChunkUnfold(chunkStart, chunkEnd, t);
      var row := RowTriples(I, NumNeighbours(I));
      PosCountAppend(ChunkTriples(chunkStart, chunkEnd, t - 1), row, r, c);
      RowPositions(I, NumNeighbours(I), r, c);
    }

    /**
     * No position occurs twice among the triples of a chunk, so the COO
     * conversion, which sums duplicates, never adds an entry to itself.
     */
    lemma ChunkTriplesDistinct(chunkStart: int, chunkEnd: int, t: nat)
      requires Valid() && NeighboursValid() && ValidChunk(chunkStart, chunkEnd)
      requires t <= BoxSize(DofStart(chunkStart), DofEnd(chunkEnd))
      ensures PositionsDistinct(ChunkTriples(chunkStart, chunkEnd, t))
    {
      var ts := ChunkTriples(chunkStart, chunkEnd, t);
      forall r: nat, c: nat
        ensures PosCount(ts, r, c) <= 1
      {
        ChunkPositions(chunkStart, chunkEnd, t, r, c);
      }
      AtMostOnceDistinct(ts);
    }

    /**
     * Every neighbour `J` of a row `I` among the first `t` rows of the chunk with
     * `rank J >= rank I` is recorded at `(rank I, rank J)` with its entry, and
     * when `rank J > rank I` also at the mirrored position.
     */
    lemma ChunkTriplesCover(chunkStart: int, chunkEnd: int, t: nat, p: nat, I: seq<nat>, s: nat)
      requires Valid() && NeighboursValid() && ValidChunk(chunkStart, chunkEnd)
      requires p < t <= BoxSize(DofStart(chunkStart), DofEnd(chunkEnd))
      requires I == BoxElem(p, DofStart(chunkStart), DofEnd(chunkEnd)) && InRange(I, ndofs)
      requires s < NumNeighbours(I)
      ensures var J := Neighbour(I, s);
        InRange(J, ndofs) &&
        (Rank(J, ndofs) >= Rank(I, ndofs) ==>
          Triple(Rank(I, ndofs), Rank(J, ndofs), EntryValue(I, J)) in ChunkTriples(chunkStart, chunkEnd, t)) &&
        (Rank(J, ndofs) > Rank(I, ndofs) ==>
          Triple(Rank(J, ndofs), Rank(I, ndofs), EntryValue(I, J)) in ChunkTriples(chunkStart, chunkEnd, t))
    {
      NeighbourInRange(I, s);
      var J := Neighbour(I, s);
      var ii, jj, v := Rank(I, ndofs), Rank(J, ndofs), EntryValue(I, J);
      var parts := ChunkParts(chunkStart, chunkEnd, t);
      assert parts[p] == RowTriples(I, NumNeighbours(I));
      assert RowParts(I, NumNeighbours(I))[s] == PairTriples(ii, jj, v);
      if jj >= ii {
        FlattenContains(RowParts(I, NumNeighbours(I)), s, Triple(ii, jj, v));
        FlattenContains(parts, p, Triple(ii, jj, v));
      }
      if jj > ii {
        FlattenContains(RowParts(I, NumNeighbours(I)), s, Triple(jj, ii, v));
        FlattenContains(parts, p, Triple(jj, ii, v));
      }
    }

    /** One row more: the triples of row `t - 1` of the chunk, a valid multi-index `I`, are appended. */
    lemma ChunkUnfold(chunkStart: int, chunkEnd: int, t: nat) returns (I: seq<nat>)
      requires Valid() && NeighboursValid() && ValidChunk(chunkStart, chunkEnd)
      requires 0 < t <= BoxSize(DofStart(chunkStart), DofEnd(chunkEnd))
      ensures InRange(I, ndofs) && I == BoxElem(t - 1, DofStart(chunkStart), DofEnd(chunkEnd))
      ensures ChunkTriples(chunkStart, chunkEnd, t) == ChunkTriples(chunkStart, chunkEnd, t - 1) + RowTriples(I, NumNeighbours(I))
    {
      ChunkRowInRange(chunkStart, chunkEnd, t - 1);
      I := BoxElem(t - 1, DofStart(chunkStart), DofEnd(chunkEnd));
      assert InRange(I, ndofs);
      ChunkPartsSnoc(chunkStart, chunkEnd, t);
      FlattenSnoc(ChunkParts(chunkStart, chunkEnd, t - 1), ChunkRow(chunkStart, chunkEnd, t - 1));
    }

    /** The inner loop of `generic_assemble`: push the triples of row `I`, one neighbour `j` at a time. */
    method AssembleRow(I: seq<nat>, entries0: seq<real>, entriesI0: seq<nat>, entriesJ0: seq<nat>)
      returns (entries: seq<real>, entriesI: seq<nat>, entriesJ: seq<nat>)
      requires Valid() && NeighboursValid() && InRange(I, ndofs)
      requires |entriesI0| == |entriesJ0| == |entries0|
      ensures |entriesI| == |entriesJ| == |entries|
      ensures Zip(entriesI, entriesJ, entries) == Zip(entriesI0, entriesJ0, entries0) + RowTriples(I, NumNeighbours(I))
    {
      var lo, hi := NeighbourBox(I);
      var j := StartIndex(lo);
      NeighboursNonempty(I);
      BoxElemFirst(lo, hi);
      var ii := Rank(I, ndofs);
      ghost var s := 0;
      ghost var z0 := Zip(entriesI0, entriesJ0, entries0);
      entries, entriesI, entriesJ := entries0, entriesI0, entriesJ0;
      assert z0 + RowTriples(I, 0) == z0;
      while true
        invariant s < BoxSize(lo, hi) == NumNeighbours(I)
        invariant j[..] == BoxElem(s, lo, hi)
        invariant |entriesI| == |entriesJ| == |entries|
        invariant Zip(entriesI, entriesJ, entries) == z0 + RowTriples(I, s)
        decreases BoxSize(lo, hi) - s
      {
        var jj := Rank(j[..], ndofs);
        RowStep(z0, I, s, j[..], ii, jj);
        entries, entriesI, entriesJ := VisitPair(I, j[..], ii, jj, entries, entriesI, entriesJ);
        var more := NextLexicographic(j, lo, hi, s);
        if !more {
          assert s + 1 == NumNeighbours(I);
          return;
        }
        s := s + 1;
      }
    }

    /** The neighbour box of row `I`: `find_joint_support_functions` on every axis. */
    method NeighbourBox(I: seq<nat>) returns (lo: seq<nat>, hi: seq<nat>)
      requires Valid() && NeighboursValid() && InRange(I, ndofs)
      ensures lo == NeighStart(I) && hi == NeighEnd(I)
    {
      var nStart := new nat[dim];
      var nEnd := new nat[dim];
      var k := 0;
      while k < dim
        invariant 0 <= k <= dim
        invariant forall m :: 0 <= m < k ==> nStart[m] == jointSupport(m, I[m]).a && nEnd[m] == jointSupport(m, I[m]).b
      {
        var intv := jointSupport(k, I[k]);
        nStart[k] := intv.a;
        nEnd[k] := intv.b;
        k := k + 1;
      }
      lo, hi := nStart[..], nEnd[..];
    }

    /**
     * The body of the inner loop: compute the entry only on or above the
     * diagonal (`jj >= ii`), push it at `(ii, jj)` and, off the diagonal, at `(jj, ii)`.
     */
    method VisitPair(I: seq<nat>, J: seq<nat>, ii: nat, jj: nat, entries0: seq<real>, entriesI0: seq<nat>, entriesJ0: seq<nat>)
      returns (entries: seq<real>, entriesI: seq<nat>, entriesJ: seq<nat>)
      requires Valid() && InRange(I, ndofs) && InRange(J, ndofs)
      requires |entriesI0| == |entriesJ0| == |entries0|
      ensures |entriesI| == |entriesJ| == |entries|
      ensures Zip(entriesI, entriesJ, entries) == Zip(entriesI0, entriesJ0, entries0) + PairTriples(ii, jj, EntryValue(I, J))
    {
      entries, entriesI, entriesJ := entries0, entriesI0, entriesJ0;
      if jj >= ii {
        var entry := AssembleImpl(I, J);
        ZipSnoc(entriesI, entriesJ, entries, ii, jj, entry);
        entries, entriesI, entriesJ := entries + [entry], entriesI + [ii], entriesJ + [jj];
        if ii != jj {
          ZipSnoc(entriesI, entriesJ, entries, jj, ii, entry);
          entries, entriesI, entriesJ := entries + [entry], entriesI + [jj], entriesJ + [ii];
        }
      }
    }

    /** One neighbour more: its pair triples are appended. */
    lemma RowStep(z0: seq<Triple>, I: seq<nat>, s: nat, J: seq<nat>, ii: nat, jj: nat)
      requires Valid() && NeighboursValid() && InRange(I, ndofs) && s < NumNeighbours(I)
      requires J == Neighbour(I, s) && ii == Rank(I, ndofs) && jj == Rank(J, ndofs)
      ensures InRange(J, ndofs)
      ensures z0 + RowTriples(I, s + 1) == (z0 + RowTriples(I, s)) + PairTriples(ii, jj, EntryValue(I, J))
    {
      var J' := RowUnfold(I, s + 1);
      AppendAssoc(z0, RowTriples(I, s), PairTriples(ii, jj, EntryValue(I, J)));
    }

    /** The row box of `generic_assemble`: `[0, ndofs)` on every axis, with axis 0 overridden by a non-negative chunk bound. */
    method ChunkBox(chunkStart: int, chunkEnd: int) returns (lo: seq<nat>, hi: seq<nat>)
      requires Valid()
      ensures lo == DofStart(chunkStart) && hi == DofEnd(chunkEnd)
    {
      var dofStart := new nat[dim];
      var dofEnd := new nat[dim];
      var k := 0;
      while k < dim
        invariant 0 <= k <= dim
        invariant forall m :: 0 <= m < k ==> dofStart[m] == 0 && dofEnd[m] == ndofs[m]
      {
        dofStart[k] := 0;
        dofEnd[k] := ndofs[k];
        k := k + 1;
      }
      if chunkStart >= 0 {
        dofStart[0] := chunkStart;
      }
      if chunkEnd >= 0 {
        dofEnd[0] := chunkEnd;
      }
      lo, hi := dofStart[..], dofEnd[..];
      assert forall m :: 0 <= m < dim ==> lo[m] == DofStart(chunkStart)[m] && hi[m] == DofEnd(chunkEnd)[m];
    }

    /**
     * `generic_assemble_{DIM}d(asm, chunk_start, chunk_end)`: for every row
     * multi-index of the chunk and every neighbour, the value is computed once
     * when `jj >= ii` and recorded at `(ii, jj)` and, off the diagonal, at `(jj, ii)`.
     */
    method GenericAssemble(chunkStart: int, chunkEnd: int) returns (entries: seq<real>, entriesI: seq<nat>, entriesJ: seq<nat>)
      requires Valid() && NeighboursValid() && ValidChunk(chunkStart, chunkEnd)
      ensures |entriesI| == |entriesJ| == |entries|
      ensures Zip(entriesI, entriesJ, entries) == ChunkTriples(chunkStart, chunkEnd, BoxSize(DofStart(chunkStart), DofEnd(chunkEnd)))
    {
      var lo, hi := ChunkBox(chunkStart, chunkEnd);
      var i := StartIndex(lo);
      BoxElemFirst(lo, hi);
      BoxSizePositive(lo, hi);
      ghost var t := 0;
      entries, entriesI, entriesJ := [], [], [];
      while true
        invariant t < BoxSize(lo, hi)
        invariant i[..] == BoxElem(t, lo, hi)
        invariant |entriesI| == |entriesJ| == |entries|
        invariant Zip(entriesI, entriesJ, entries) == ChunkTriples(chunkStart, chunkEnd, t)
        decreases BoxSize(lo, hi) - t
      {
        ChunkRowInRange(chunkStart, chunkEnd, t);
        entries, entriesI, entriesJ := AssembleRow(i[..], entries, entriesI, entriesJ);
        var I := ChunkUnfold(chunkStart, chunkEnd, t + 1);
        var more := NextLexicographic(i, lo, hi, t);
        if !more {
          assert t + 1 == BoxSize(DofStart(chunkStart), DofEnd(chunkEnd));
          return;
        }
        t := t + 1;
      }
    }
  }
}
