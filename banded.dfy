/**
 * The candidate pattern of the banded assembly kernels
 * (`generic_assemble_core_{DIM}d` and its vector variant).
 *
 * Along axis `k` the pattern lists pairs `bidx_k[mu] = (i, j)` of 1D basis
 * functions: `i` of the test space, `j` of the trial space. The entries array
 * has one slot per multi-index `mu = (mu_0, ..., mu_{DIM-1})`, laid out in C
 * order, so slot `p` belongs to `Unrank(p, shape)`. In symmetric mode a
 * kernel skips a slot when the first non-zero axis offset `j - i` is positive
 * (the pair lies above the diagonal) and, for every slot it computes off the
 * diagonal, writes the value also into the transposed slot, whose pairs are
 * swapped on every axis.
 */
module Banded {
  import opened Wrappers
  import opened Indexing

  /** The pairs `(i, j)` listed for one axis. */
  type AxisPairs = seq<(nat, nat)>

  /**
   * `entry_impl(i, j)`: the value for test multi-index `i` and trial
   * multi-index `j`; a linear form passes no `j` (a null pointer).
   */
  type EntryKernel = (seq<nat>, Option<seq<nat>>) -> real

  /** `(MU0, ..., MU{DIM-1})`: the number of pairs per axis. */
  function Shape(bidx: seq<AxisPairs>): (n: seq<nat>)
    ensures |n| == |bidx|
  {
    seq(|bidx|, k requires 0 <= k < |bidx| => |bidx[k]|)
  }

  /** Number of slots of the entries array. */
  function Size(bidx: seq<AxisPairs>): nat
  {
    Prod(Shape(bidx))
  }

  /**
   * `get_transpose_idx_for_bidx`: `tr[m]` is the position of the swapped
   * pair, and swapping twice leads back.
   */
  predicate TransposeAxis(pairs: AxisPairs, tr: seq<nat>)
  {
    |tr| == |pairs| &&
    forall m :: 0 <= m < |pairs| ==>
      tr[m] < |pairs| && pairs[tr[m]] == (pairs[m].1, pairs[m].0) && tr[tr[m]] == m
  }

  predicate TransposeOf(bidx: seq<AxisPairs>, transp: seq<seq<nat>>)
  {
    |transp| == |bidx| && forall k :: 0 <= k < |bidx| ==> TransposeAxis(bidx[k], transp[k])
  }

  /** The multi-index `mu` of slot `p`. */
  function Slot(bidx: seq<AxisPairs>, p: nat): (mu: seq<nat>)
    requires |bidx| >= 1 && p < Size(bidx)
    ensures InRange(mu, Shape(bidx))
  {
    ProdFactorsPositive(Shape(bidx));
    UnrankInRange(p, Shape(bidx));
    Unrank(p, Shape(bidx))
  }

  /** `i[k] = bidx_k[mu_k, 0]`: the test multi-index of `mu`. */
  function TestIndex(bidx: seq<AxisPairs>, mu: seq<nat>): (i: seq<nat>)
    requires InRange(mu, Shape(bidx))
    ensures |i| == |mu|
  {
    seq(|mu|, k requires 0 <= k < |mu| => bidx[k][mu[k]].0)
  }

  /** `j[k] = bidx_k[mu_k, 1]`: the trial multi-index of `mu`. */
  function TrialIndex(bidx: seq<AxisPairs>, mu: seq<nat>): (j: seq<nat>)
    requires InRange(mu, Shape(bidx))
    ensures |j| == |mu|
  {
    seq(|mu|, k requires 0 <= k < |mu| => bidx[k][mu[k]].1)
  }

  /** `diag_k = j[k] - i[k]` on every axis. */
  function Offsets(bidx: seq<AxisPairs>, mu: seq<nat>): (d: seq<int>)
    requires InRange(mu, Shape(bidx))
    ensures |d| == |mu|
  {
    seq(|mu|, k requires 0 <= k < |mu| => bidx[k][mu[k]].1 as int - bidx[k][mu[k]].0 as int)
  }

  /**
   * Some level `k` has `diag_0 == ... == diag_{k-1} == 0` and `diag_k > 0`:
   * the first non-zero offset is positive and the symmetric kernel skips the pair.
   */
  predicate AboveDiagonal(d: seq<int>)
  {
    exists k :: 0 <= k < |d| && d[k] > 0 && forall m :: 0 <= m < k ==> d[m] == 0
  }

  /** `diag_0 != 0 or ... or diag_{DIM-1} != 0`. */
  predicate OffDiagonal(d: seq<int>)
  {
    exists k :: 0 <= k < |d| && d[k] != 0
  }

  function Negate(d: seq<int>): (e: seq<int>)
    ensures |e| == |d|
  {
    seq(|d|, k requires 0 <= k < |d| => -d[k])
  }

  /** Position of the first non-zero offset, or `|d|` when there is none. */
  function FirstNonzero(d: seq<int>): (k: nat)
    ensures k <= |d| && (k < |d| ==> d[k] != 0)
    ensures forall m :: 0 <= m < k ==> d[m] == 0
  {
    if |d| == 0 then 0
    else if d[0] != 0 then 0
    else
      var k := FirstNonzero(d[1..]);
      assert forall m :: 1 <= m < k + 1 ==> d[m] == d[1..][m - 1];
      k + 1
  }

  /** Both diagonal tests read off the first non-zero offset. */
  lemma FirstNonzeroDecides(d: seq<int>)
    ensures OffDiagonal(d) <==> FirstNonzero(d) < |d|
    ensures AboveDiagonal(d) <==> FirstNonzero(d) < |d| && d[FirstNonzero(d)] > 0
  {
    var f := FirstNonzero(d);
    if AboveDiagonal(d) {
      var k :| 0 <= k < |d| && d[k] > 0 && forall m :: 0 <= m < k ==> d[m] == 0;
      assert !(f < k) && !(k < f);
    }
    if OffDiagonal(d) {
      var k :| 0 <= k < |d| && d[k] != 0;
      assert f <= k;
    }
  }

  /**
   * A pair whose offsets are the negation of those of `d` lies above the
   * diagonal exactly when `d` is off the diagonal and not above it.
   */
  lemma MirrorAbove(d: seq<int>)
    ensures AboveDiagonal(Negate(d)) <==> OffDiagonal(d) && !AboveDiagonal(d)
  {
    var e := Negate(d);
    assert forall m :: 0 <= m < |d| ==> (e[m] == 0 <==> d[m] == 0);
    assert FirstNonzero(e) == FirstNonzero(d) by {
      var f, g := FirstNonzero(e), FirstNonzero(d);
      assert !(f < g) && !(g < f);
    }
    FirstNonzeroDecides(d);
    FirstNonzeroDecides(e);
  }

  /** `transp_k[mu_k]` on every axis. */
  function TransposedIndex(transp: seq<seq<nat>>, mu: seq<nat>): (nu: seq<nat>)
    requires |transp| == |mu| && forall k :: 0 <= k < |mu| ==> mu[k] < |transp[k]|
    ensures |nu| == |mu|
  {
    seq(|mu|, k requires 0 <= k < |mu| => transp[k][mu[k]])
  }

  /** The transposed multi-index lies in the pattern and swaps the pair on every axis. */
  lemma TransposedIndexFacts(bidx: seq<AxisPairs>, transp: seq<seq<nat>>, mu: seq<nat>)
    requires TransposeOf(bidx, transp) && InRange(mu, Shape(bidx))
    ensures InRange(TransposedIndex(transp, mu), Shape(bidx))
    ensures TransposedIndex(transp, TransposedIndex(transp, mu)) == mu
    ensures TestIndex(bidx, TransposedIndex(transp, mu)) == TrialIndex(bidx, mu)
    ensures TrialIndex(bidx, TransposedIndex(transp, mu)) == TestIndex(bidx, mu)
    ensures Offsets(bidx, TransposedIndex(transp, mu)) == Negate(Offsets(bidx, mu))
  {
    var nu := TransposedIndex(transp, mu);
    forall k | 0 <= k < |mu|
      ensures nu[k] < |bidx[k]| && bidx[k][nu[k]] == (bidx[k][mu[k]].1, bidx[k][mu[k]].0)
      ensures transp[k][nu[k]] == mu[k]
    {
      assert TransposeAxis(bidx[k], transp[k]);
    }
  }

  /** The slot holding the swapped pairs of slot `p`. */
  function TransposedSlot(bidx: seq<AxisPairs>, transp: seq<seq<nat>>, p: nat): nat
    requires |bidx| >= 1 && p < Size(bidx) && TransposeOf(bidx, transp)
  {
    Rank(TransposedIndex(transp, Slot(bidx, p)), Shape(bidx))
  }

  /**
   * Transposition of slots is an involution of the pattern: the transposed
   * slot exists, transposing it again gives back `p`, and its pair is the
   * swapped pair of `p` with negated offsets.
   */
  lemma TransposedSlotFacts(bidx: seq<AxisPairs>, transp: seq<seq<nat>>, p: nat)
    requires |bidx| >= 1 && p < Size(bidx) && TransposeOf(bidx, transp)
    ensures TransposedSlot(bidx, transp, p) < Size(bidx)
    ensures Slot(bidx, TransposedSlot(bidx, transp, p)) == TransposedIndex(transp, Slot(bidx, p))
    ensures TransposedSlot(bidx, transp, TransposedSlot(bidx, transp, p)) == p
  {
    var n := Shape(bidx);
    var mu := Slot(bidx, p);
    var nu := TransposedIndex(transp, mu);
    TransposedIndexFacts(bidx, transp, mu);
    RankBound(nu, n);
    ProdFactorsPositive(n);
    UnrankOfRank(nu, n);
    RankOfUnrank(p, n);
  }

  /** Slot `p` is left for its transposed slot to fill. */
  predicate Skipped(bidx: seq<AxisPairs>, symmetric: bool, p: nat)
    requires |bidx| >= 1 && p < Size(bidx)
  {
    symmetric && AboveDiagonal(Offsets(bidx, Slot(bidx, p)))
  }

  /** `entry_impl(i, j)` for the pair of slot `p`. */
  function SlotEntry(bidx: seq<AxisPairs>, entry: EntryKernel, p: nat): real
    requires |bidx| >= 1 && p < Size(bidx)
  {
    var mu := Slot(bidx, p);
    entry(TestIndex(bidx, mu), Some(TrialIndex(bidx, mu)))
  }

  /**
   * The slot whose computation fills slot `p`: `p` itself, or its transposed
   * slot when `p` is skipped. Without symmetry nothing is skipped, so every
   * slot is filled from its own pair.
   */
  function FilledFrom(bidx: seq<AxisPairs>, transp: seq<seq<nat>>, symmetric: bool, p: nat): (q: nat)
    requires |bidx| >= 1 && p < Size(bidx) && (symmetric ==> TransposeOf(bidx, transp))
    ensures q < Size(bidx)
  {
    if Skipped(bidx, symmetric, p) then
      TransposedSlotFacts(bidx, transp, p);
      TransposedSlot(bidx, transp, p)
    else p
  }

  /** The slot whose value slot `p` holds once the kernel has visited the slots below `t`; none while `p` still holds zero. */
  function Source(bidx: seq<AxisPairs>, transp: seq<seq<nat>>, symmetric: bool, p: nat, t: nat): Option<nat>
    requires |bidx| >= 1 && p < Size(bidx) && (symmetric ==> TransposeOf(bidx, transp))
  {
    var q := FilledFrom(bidx, transp, symmetric, p);
    if q < t then Some(q) else None
  }

  /** What slot `p` of the scalar entries array holds once the kernel has visited the slots below `t`. */
  function Partial(bidx: seq<AxisPairs>, transp: seq<seq<nat>>, symmetric: bool, entry: EntryKernel, p: nat, t: nat): real
    requires |bidx| >= 1 && p < Size(bidx) && (symmetric ==> TransposeOf(bidx, transp))
  {
    match Source(bidx, transp, symmetric, p, t)
    case None => 0.0
    case Some(q) => SlotEntry(bidx, entry, q)
  }

  /** What the scalar kernel leaves in slot `p` once it has visited every slot. */
  function Assembled(bidx: seq<AxisPairs>, transp: seq<seq<nat>>, symmetric: bool, entry: EntryKernel, p: nat): real
    requires |bidx| >= 1 && p < Size(bidx) && (symmetric ==> TransposeOf(bidx, transp))
  {
    SlotEntry(bidx, entry, FilledFrom(bidx, transp, symmetric, p))
  }

  /**
   * Exactly-once coverage in symmetric mode: a skipped slot's transposed slot
   * is computed and off the diagonal, and a computed off-diagonal slot's
   * transposed slot is a different, skipped one.
   */
  lemma SkippedPartner(bidx: seq<AxisPairs>, transp: seq<seq<nat>>, p: nat)
    requires |bidx| >= 1 && p < Size(bidx) && TransposeOf(bidx, transp)
    ensures TransposedSlot(bidx, transp, p) < Size(bidx)
    ensures Skipped(bidx, true, TransposedSlot(bidx, transp, p)) <==>
      OffDiagonal(Offsets(bidx, Slot(bidx, p))) && !Skipped(bidx, true, p)
    ensures OffDiagonal(Offsets(bidx, Slot(bidx, p))) ==> TransposedSlot(bidx, transp, p) != p
  {
    var mu := Slot(bidx, p);
    var d := Offsets(bidx, mu);
    TransposedSlotFacts(bidx, transp, p);
    TransposedIndexFacts(bidx, transp, mu);
    MirrorAbove(d);
  }

  /**
   * Visiting slot `t` fills slot `t` when it is computed and, off the
   * diagonal in symmetric mode, its transposed slot; every other slot keeps its source.
   */
  lemma SourceStep(bidx: seq<AxisPairs>, transp: seq<seq<nat>>, symmetric: bool, t: nat, p: nat)
    requires |bidx| >= 1 && t < Size(bidx) && p < Size(bidx) && (symmetric ==> TransposeOf(bidx, transp))
    ensures Source(bidx, transp, symmetric, p, t + 1) ==
      if !Skipped(bidx, symmetric, t) && (p == t || (symmetric && OffDiagonal(Offsets(bidx, Slot(bidx, t))) && p == TransposedSlot(bidx, transp, t)))
      then Some(t)
      else Source(bidx, transp, symmetric, p, t)
  {
    if symmetric {
      TransposedSlotFacts(bidx, transp, t);
      SkippedPartner(bidx, transp, t);
      if p == t {
      } else if p == TransposedSlot(bidx, transp, t) {
        SkippedPartner(bidx, transp, p);
      } else if Skipped(bidx, true, p) {
        TransposedSlotFacts(bidx, transp, p);
        assert TransposedSlot(bidx, transp, p) != t;
      }
    }
  }

  /**
   * The symmetric kernel assembles the same matrix as the plain one when the
   * entry is symmetric in its two arguments: every slot holds `entry_impl(i, j)`
   * for its own pair.
   */
  lemma SymmetricAssemblyIsFull(bidx: seq<AxisPairs>, transp: seq<seq<nat>>, entry: EntryKernel, p: nat)
    requires |bidx| >= 1 && p < Size(bidx) && TransposeOf(bidx, transp)
    requires forall i, j :: entry(i, Some(j)) == entry(j, Some(i))
    ensures Assembled(bidx, transp, true, entry, p) == SlotEntry(bidx, entry, p)
  {
    if Skipped(bidx, true, p) {
      TransposedSlotFacts(bidx, transp, p);
      TransposedIndexFacts(bidx, transp, Slot(bidx, p));
    }
  }

  /**
   * A vector-valued `entry_impl`: the value it writes to component `c` of the
   * block for a test index and an optional trial index.
   */
  type BlockKernel = (seq<nat>, Option<seq<nat>>, nat) -> real

  /**
   * Where component `s` of an `nc x nc` block stored row by row goes when
   * the block is transposed: `row * nc + col` becomes `col * nc + row`.
   */
  function TransposedComponent(nc: nat, s: nat): (r: nat)
    requires nc > 0 && s < nc * nc
    ensures r < nc * nc
  {
    DivBound(s, nc, nc);
    MulAddBound(s % nc, s / nc, nc, nc);
    (s % nc) * nc + s / nc
  }

  /** Transposing a block twice gives it back: the components are permuted. */
  lemma TransposedComponentInvolution(nc: nat, s: nat)
    requires nc > 0 && s < nc * nc
    ensures TransposedComponent(nc, TransposedComponent(nc, s)) == s
  {
    var row, col := s / nc, s % nc;
    DivBound(s, nc, nc);
    DivModOfMulAdd(col, nc, row);
  }

  /** Component `s` of the block the vector kernel computes for slot `p`. */
  function BlockEntry(bidx: seq<AxisPairs>, entry: BlockKernel, p: nat, s: nat): real
    requires |bidx| >= 1 && p < Size(bidx)
  {
    var mu := Slot(bidx, p);
    entry(TestIndex(bidx, mu), Some(TrialIndex(bidx, mu)), s)
  }

  /**
   * Component `s` of the block in slot `p` once the vector kernel has visited
   * the slots below `t`: a skipped block holds the transposed block of its
   * transposed slot.
   */
  function BlockPartial(bidx: seq<AxisPairs>, transp: seq<seq<nat>>, symmetric: bool, entry: BlockKernel,
                        nc: nat, p: nat, s: nat, t: nat): real
    requires |bidx| >= 1 && p < Size(bidx) && (symmetric ==> TransposeOf(bidx, transp) && nc > 0 && s < nc * nc)
  {
    match Source(bidx, transp, symmetric, p, t)
    case None => 0.0
    case Some(q) => BlockEntry(bidx, entry, q, if Skipped(bidx, symmetric, p) then TransposedComponent(nc, s) else s)
  }

  /** Component `s` of the block in slot `p` once the vector kernel has visited every slot. */
  function BlockAssembled(bidx: seq<AxisPairs>, transp: seq<seq<nat>>, symmetric: bool, entry: BlockKernel,
                          nc: nat, p: nat, s: nat): real
    requires |bidx| >= 1 && p < Size(bidx) && (symmetric ==> TransposeOf(bidx, transp) && nc > 0 && s < nc * nc)
  {
    BlockEntry(bidx, entry, FilledFrom(bidx, transp, symmetric, p),
               if Skipped(bidx, symmetric, p) then TransposedComponent(nc, s) else s)
  }

  /**
   * When the block of a swapped pair is the transposed block, the symmetric
   * vector kernel assembles what the plain one does.
   */
  lemma SymmetricBlockAssemblyIsFull(bidx: seq<AxisPairs>, transp: seq<seq<nat>>, entry: BlockKernel, nc: nat, p: nat, s: nat)
    requires |bidx| >= 1 && p < Size(bidx) && TransposeOf(bidx, transp) && nc > 0 && s < nc * nc
    requires forall i, j, c :: 0 <= c < nc * nc ==> entry(i, Some(j), c) == entry(j, Some(i), TransposedComponent(nc, c))
    ensures BlockAssembled(bidx, transp, true, entry, nc, p, s) == BlockEntry(bidx, entry, p, s)
  {
    if Skipped(bidx, true, p) {
      TransposedSlotFacts(bidx, transp, p);
      TransposedIndexFacts(bidx, transp, Slot(bidx, p));
      TransposedComponentInvolution(nc, s);
    }
  }
}
