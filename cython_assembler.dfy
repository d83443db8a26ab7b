/**
 * The assembler base classes of the generated Cython module: the space
 * descriptors, the per-entry evaluation (`entry1`, `entry`,
 * `multi_entries_chunk`), vector assembly over all basis functions in
 * C order, and the banded matrix kernels `generic_assemble_core` with
 * their symmetric variant, scalar and vector valued.
 *
 * The generated `entry_impl` of a concrete assembler is a kernel parameter:
 * a function of the test index, the optional trial index (`NULL` for a
 * linear form) and, for vector assemblers, the component.
 */
module CythonAssembler {
  import opened Wrappers
  import opened Indexing
  import opened Support
  import opened Banded

  /** `SpaceInfo{DIM}`: per axis the number of basis functions, the degree and the mesh supports. */
  datatype SpaceInfo = SpaceInfo(ndofs: seq<nat>, p: seq<nat>, meshsupp: seq<seq<Interval>>)

  predicate ValidSpace(S: SpaceInfo, dim: nat)
  {
    dim >= 1 && |S.ndofs| == dim && |S.p| == dim && |S.meshsupp| == dim &&
    forall k :: 0 <= k < dim ==> S.ndofs[k] > 0 && |S.meshsupp[k]| == S.ndofs[k]
  }

  predicate WellFormedKnotVectors(kvs: seq<KnotVector>)
  {
    forall k :: 0 <= k < |kvs| ==> WellFormedKnotVector(kvs[k])
  }

  /** `init_spaceinfo{DIM}(S, kvs)`: one entry per axis, taken from that axis' knot vector. */
  function InitSpaceInfo(kvs: seq<KnotVector>): (S: SpaceInfo)
    ensures |kvs| >= 1 && WellFormedKnotVectors(kvs) ==> ValidSpace(S, |kvs|)
    ensures |S.ndofs| == |S.p| == |S.meshsupp| == |kvs|
    ensures forall k :: 0 <= k < |kvs| ==>
      S.ndofs[k] == kvs[k].numdofs && S.p[k] == kvs[k].p && S.meshsupp[k] == kvs[k].meshsupp
  {
    SpaceInfo(seq(|kvs|, k requires 0 <= k < |kvs| => kvs[k].numdofs),
              seq(|kvs|, k requires 0 <= k < |kvs| => kvs[k].p),
              seq(|kvs|, k requires 0 <= k < |kvs| => kvs[k].meshsupp))
  }

  function Degrees(kvs: seq<KnotVector>): (ps: seq<nat>)
    ensures |ps| == |kvs| && forall k :: 0 <= k < |kvs| ==> ps[k] == kvs[k].p
  {
    seq(|kvs|, k requires 0 <= k < |kvs| => kvs[k].p)
  }

  /**
   * `base_init(kvs0, kvs1=None)`: the trial space comes from `kvs0`, the test
   * space from `kvs1` or, when it is absent, from `kvs0` as well; one Gauss
   * rule with one node more than the highest degree of either space. `None`
   * when either list does not hold `dim` knot vectors, where the assertion in
   * `init_spaceinfo` fails.
   */
  function BaseInit(dim: nat, kvs0: seq<KnotVector>, kvs1: Option<seq<KnotVector>>): (r: Option<(SpaceInfo, SpaceInfo, nat)>)
    requires dim >= 1
    ensures r.Some? <==> |kvs0| == dim && (kvs1.Some? ==> |kvs1.value| == dim)
    ensures r.Some? ==>
      var kvsTest := if kvs1.Some? then kvs1.value else kvs0;
      r.value.0 == InitSpaceInfo(kvs0) && r.value.1 == InitSpaceInfo(kvsTest) &&
      (forall k :: 0 <= k < dim ==> kvs0[k].p < r.value.2 && kvsTest[k].p < r.value.2) &&
      exists k :: 0 <= k < dim && (kvs0[k].p + 1 == r.value.2 || kvsTest[k].p + 1 == r.value.2)
  {
    var kvsTest := if kvs1.Some? then kvs1.value else kvs0;
    if |kvs0| != dim || |kvsTest| != dim then None
    else
      QuadRuleOfBoth(kvs0, kvsTest);
      Some((InitSpaceInfo(kvs0), InitSpaceInfo(kvsTest), NumQuadPoints(Degrees(kvs0 + kvsTest))))
  }

  /** One more Gauss node than the highest degree found in either list of knot vectors. */
  lemma QuadRuleOfBoth(kvsA: seq<KnotVector>, kvsB: seq<KnotVector>)
    requires |kvsA| >= 1 && |kvsB| == |kvsA|
    ensures var n := NumQuadPoints(Degrees(kvsA + kvsB));
      (forall k :: 0 <= k < |kvsA| ==> kvsA[k].p < n && kvsB[k].p < n) &&
      exists k :: 0 <= k < |kvsA| && (kvsA[k].p + 1 == n || kvsB[k].p + 1 == n)
  {
    var dim := |kvsA|;
    var ds := Degrees(kvsA + kvsB);
    var n := NumQuadPoints(ds);
    forall k | 0 <= k < dim
      ensures kvsA[k].p < n && kvsB[k].p < n
    {
      assert ds[k] == kvsA[k].p && ds[dim + k] == kvsB[k].p;
    }
    var k :| 0 <= k < |ds| && ds[k] + 1 == n;
    if k < dim {
      assert kvsA[k].p + 1 == n;
    } else {
      assert kvsB[k - dim].p + 1 == n;
    }
  }

  /** `BaseAssembler{DIM}D`: a scalar assembler for a linear (arity 1) or bilinear (arity 2) form. */
  class BaseAssembler {
    const dim: nat
    const arity: int
    const nqp: nat
    /** The trial space `S0` and the test space `S1`. */
    const S0: SpaceInfo
    const S1: SpaceInfo
    const kvs: (seq<KnotVector>, seq<KnotVector>)
    const entryImpl: EntryKernel

    predicate Valid()
    {
      dim >= 1 && ValidSpace(S0, dim) && ValidSpace(S1, dim) && nqp >= 1
    }

    constructor (dim: nat, arity: int, kvs0: seq<KnotVector>, kvs1: Option<seq<KnotVector>>, entryImpl: EntryKernel)
      requires dim >= 1 && |kvs0| == dim && WellFormedKnotVectors(kvs0)
      requires kvs1.Some? ==> |kvs1.value| == dim && WellFormedKnotVectors(kvs1.value)
      ensures Valid()
      ensures this.dim == dim && this.arity == arity && this.entryImpl == entryImpl
      ensures kvs == (kvs0, if kvs1.Some? then kvs1.value else kvs0)
      ensures BaseInit(dim, kvs0, kvs1) == Some((S0, S1, nqp))
    {
      this.dim := dim;
      this.arity := arity;
      this.entryImpl := entryImpl;
      var init := BaseInit(dim, kvs0, kvs1).value;
      S0 := init.0;
      S1 := init.1;
      nqp := init.2;
      kvs := (kvs0, if kvs1.Some? then kvs1.value else kvs0);
    }

    /** The vector entry for the basis function of `S0` with C-order index `i`. */
    function VectorEntry(i: nat): real
      requires Valid()
    {
      entryImpl(Unrank(i, S0.ndofs), None)
    }

    /** The matrix entry for the test function with index `i` and the trial function with index `j`. */
    function MatrixEntry(i: nat, j: nat): real
      requires Valid()
    {
      entryImpl(Unrank(i, S1.ndofs), Some(Unrank(j, S0.ndofs)))
    }

    /** The vector entry at the C-order position of a basis function is the kernel at that function. */
    lemma VectorEntryAt(I: seq<nat>)
      requires Valid() && InRange(I, S0.ndofs)
      ensures Rank(I, S0.ndofs) < Prod(S0.ndofs) && VectorEntry(Rank(I, S0.ndofs)) == entryImpl(I, None)
    {
      RankBound(I, S0.ndofs);
      UnrankOfRank(I, S0.ndofs);
    }

    /** The matrix entry at the C-order positions of two basis functions is the kernel at that pair. */
    lemma MatrixEntryAt(I: seq<nat>, J: seq<nat>)
      requires Valid() && InRange(I, S1.ndofs) && InRange(J, S0.ndofs)
      ensures Rank(I, S1.ndofs) < Prod(S1.ndofs) && Rank(J, S0.ndofs) < Prod(S0.ndofs)
      ensures MatrixEntry(Rank(I, S1.ndofs), Rank(J, S0.ndofs)) == entryImpl(I, Some(J))
    {
      RankBound(I, S1.ndofs);
      UnrankOfRank(I, S1.ndofs);
      RankBound(J, S0.ndofs);
      UnrankOfRank(J, S0.ndofs);
    }

    /** `entry1(i)`: the vector entry `i`, or zero when the form is not linear. */
    method Entry1(i: nat) returns (r: real)
      requires Valid()
      ensures r == if arity == 1 then VectorEntry(i) else 0.0
    {
      if arity != 1 {
        return 0.0;
      }
      var I := new nat[dim];
      FromSeq(i, S0.ndofs, I);
      r := entryImpl(I[..], None);
    }

    /** `entry(i, j)`: the matrix entry `(i, j)`, or zero when the form is not bilinear. */
    method Entry(i: nat, j: nat) returns (r: real)
      requires Valid()
      ensures r == if arity == 2 then MatrixEntry(i, j) else 0.0
    {
      if arity != 2 {
        return 0.0;
      }
      var I := new nat[dim];
      var J := new nat[dim];
      FromSeq(i, S1.ndofs, I);
      FromSeq(j, S0.ndofs, J);
      r := entryImpl(I[..], Some(J[..]));
    }

    /**
     * `multi_entries_chunk(idx_arr, out)`: for a bilinear form, `out[k]` becomes
     * the matrix entry at the `k`-th index pair; otherwise nothing is written.
     */
    method MultiEntriesChunk(idx: seq<(nat, nat)>, out: array<real>)
      requires Valid() && |idx| <= out.Length
      modifies out
      ensures arity != 2 ==> out[..] == old(out[..])
      ensures arity == 2 ==> forall k :: 0 <= k < |idx| ==> out[k] == MatrixEntry(idx[k].0, idx[k].1)
      ensures forall k :: |idx| <= k < out.Length ==> out[k] == old(out[k])
    {
      if arity != 2 {
        return;
      }
      var I := new nat[dim];
      var J := new nat[dim];
      for k := 0 to |idx|
        invariant forall m :: 0 <= m < k ==> out[m] == MatrixEntry(idx[m].0, idx[m].1)
        invariant forall m :: k <= m < out.Length ==> out[m] == old(out[m])
      {
        FromSeq(idx[k].0, S1.ndofs, I);
        FromSeq(idx[k].1, S0.ndofs, J);
        out[k] := entryImpl(I[..], Some(J[..]));
      }
    }

    /**
     * `assemble_vector()`: for a linear form, the entries for all basis
     * functions of `S0`, written in C order while `next_lexicographic` walks
     * the index box; `None` for any other form.
     */
    method AssembleVector() returns (result: Option<array<real>>)
      requires Valid()
      ensures result.Some? <==> arity == 1
      ensures result.Some? ==>
        fresh(result.value) && result.value.Length == Prod(S0.ndofs) &&
        forall t :: 0 <= t < Prod(S0.ndofs) ==> result.value[t] == VectorEntry(t)
    {
      if arity != 1 {
        return None;
      }
      var n := S0.ndofs;
      var zero := Zeros(dim);
      BoxFromZero(0, n);
      UnrankZero(n);
      ProdPositive(n);
      var a := new real[Prod(n)];
      var I := StartIndex(zero);
      var out := 0;
      while true
        invariant out < Prod(n) && I[..] == BoxElem(out, zero, n)
        invariant forall t :: 0 <= t < out ==> a[t] == VectorEntry(t)
        decreases Prod(n) - out
      {
        BoxFromZero(out, n);
        a[out] := entryImpl(I[..], None);
        assert a[out] == VectorEntry(out);
        var more := NextLexicographic(I, zero, n, out);
        assert forall t :: 0 <= t <= out ==> a[t] == VectorEntry(t);
        if !more {
          assert out + 1 == Prod(n);
          return Some(a);
        }
        out := out + 1;
      }
    }
  }

  /**
   * The skip test of the banded kernels: scanning the axes in order, a block is
   * above the diagonal when the first nonzero offset `diag_k = j_k - i_k` is
   * positive; it is off the diagonal when any offset is nonzero.
   */
  method DiagonalTest(d: seq<int>) returns (above: bool, offDiagonal: bool)
    ensures above <==> AboveDiagonal(d)
    ensures offDiagonal <==> OffDiagonal(d)
  {
    var k := 0;
    while k < |d| && d[k] == 0
      invariant k <= |d| && forall m :: 0 <= m < k ==> d[m] == 0
    {
      k := k + 1;
    }
    FirstNonzeroDecides(d);
    assert k == FirstNonzero(d);
    above := k < |d| && d[k] > 0;
    offDiagonal := k < |d|;
  }

  /**
   * The body of `_asm_core_{DIM}d_kernel` for the block `mu` in slot `t`: in
   * symmetric mode a block above the diagonal is skipped; otherwise its entry
   * is written to slot `t` and, off the diagonal in symmetric mode, also to
   * the transposed slot.
   */
  method AsmCoreKernelSlot(asm: BaseAssembler, symmetric: bool, bidx: seq<AxisPairs>, transp: seq<seq<nat>>,
                           entries: array<real>, t: nat)
    requires |bidx| >= 1 && t < Size(bidx) && entries.Length == Size(bidx)
    requires symmetric ==> TransposeOf(bidx, transp)
    requires forall p :: 0 <= p < Size(bidx) ==> entries[p] == Partial(bidx, transp, symmetric, asm.entryImpl, p, t)
    modifies entries
    ensures forall p :: 0 <= p < Size(bidx) ==> entries[p] == Partial(bidx, transp, symmetric, asm.entryImpl, p, t + 1)
  {
    var mu := Slot(bidx, t);
    var i := TestIndex(bidx, mu);
    var j := TrialIndex(bidx, mu);
    var above, offDiagonal := false, false;
    if symmetric {
      above, offDiagonal := DiagonalTest(Offsets(bidx, mu));
      SkippedPartner(bidx, transp, t);
    }
    if !above {
      var entry := asm.entryImpl(i, Some(j));
      entries[t] := entry;
      if symmetric && offDiagonal {
        entries[TransposedSlot(bidx, transp, t)] := entry;
      }
    }
    forall p | 0 <= p < Size(bidx)
      ensures entries[p] == Partial(bidx, transp, symmetric, asm.entryImpl, p, t + 1)
    {
      SourceStep(bidx, transp, symmetric, t, p);
    }
  }

  /**
   * `generic_assemble_core_{DIM}d(asm, bidx, symmetric)`: for a bilinear form,
   * the entries of every block of the banded index set, in C order over the
   * blocks; in symmetric mode the blocks above the diagonal are filled from
   * their transposed blocks. `None` for any other form.
   */
  method GenericAssembleCore(asm: BaseAssembler, bidx: seq<AxisPairs>, transp: seq<seq<nat>>, symmetric: bool)
    returns (result: Option<array<real>>)
    requires asm.Valid() && |bidx| == asm.dim
    requires symmetric ==> TransposeOf(bidx, transp)
    ensures result.Some? <==> asm.arity == 2
    ensures result.Some? ==>
      fresh(result.value) && result.value.Length == Size(bidx) &&
      forall p :: 0 <= p < Size(bidx) ==> result.value[p] == Assembled(bidx, transp, symmetric, asm.entryImpl, p)
  {
    if asm.arity != 2 {
      return None;
    }
    var entries := new real[Size(bidx)](_ => 0.0);
    for t := 0 to Size(bidx)
      invariant forall p :: 0 <= p < Size(bidx) ==> entries[p] == Partial(bidx, transp, symmetric, asm.entryImpl, p, t)
    {
      AsmCoreKernelSlot(asm, symmetric, bidx, transp, entries, t);
    }
    return Some(entries);
  }

  /** `BaseVectorAssembler{DIM}D`: an assembler whose basis functions have several components. */
  class BaseVectorAssembler {
    const dim: nat
    const arity: int
    const nqp: nat
    const S0: SpaceInfo
    const S1: SpaceInfo
    /** The number of components of the trial (`.0`) and of the test (`.1`) functions. */
    const numcomp: (nat, nat)
    const kvs: (seq<KnotVector>, seq<KnotVector>)
    const entryImpl: BlockKernel

    predicate Valid()
    {
      dim >= 1 && ValidSpace(S0, dim) && ValidSpace(S1, dim) && nqp >= 1 && numcomp.0 >= 1
    }

    constructor (dim: nat, arity: int, kvs0: seq<KnotVector>, kvs1: Option<seq<KnotVector>>,
                 numcomp: (nat, nat), entryImpl: BlockKernel)
      requires dim >= 1 && |kvs0| == dim && WellFormedKnotVectors(kvs0)
      requires kvs1.Some? ==> |kvs1.value| == dim && WellFormedKnotVectors(kvs1.value)
      requires numcomp.0 >= 1
      ensures Valid()
      ensures this.dim == dim && this.arity == arity && this.numcomp == numcomp && this.entryImpl == entryImpl
      ensures kvs == (kvs0, if kvs1.Some? then kvs1.value else kvs0)
      ensures BaseInit(dim, kvs0, kvs1) == Some((S0, S1, nqp))
    {
      this.dim := dim;
      this.arity := arity;
      this.numcomp := numcomp;
      this.entryImpl := entryImpl;
      var init := BaseInit(dim, kvs0, kvs1).value;
      S0 := init.0;
      S1 := init.1;
      nqp := init.2;
      kvs := (kvs0, if kvs1.Some? then kvs1.value else kvs0);
    }

    /** Component `c` of the vector entry for the basis function of `S0` with C-order index `i`. */
    function VectorEntry(i: nat, c: nat): real
      requires Valid()
    {
      entryImpl(Unrank(i, S0.ndofs), None, c)
    }

    /**
     * `from_seq(i, out)`: split a flat index into the multi-index of a basis
     * function of `S0` followed by the component, which varies fastest.
     */
    method FromSeq(i: nat, out: array<nat>)
      requires Valid() && out.Length == dim + 1
      modifies out
      ensures out[..] == Unrank(i, S0.ndofs + [numcomp.0])
    {
      Indexing.FromSeq(i, S0.ndofs + [numcomp.0], out);
    }

    /**
     * The flat index of component `c` of basis function `I` is `rank(I) * numcomp[0] + c`;
     * `from_seq` recovers `I` and `c` from it.
     */
    lemma ComponentLayout(I: seq<nat>, c: nat)
      requires Valid() && InRange(I, S0.ndofs) && c < numcomp.0
      ensures Rank(I, S0.ndofs) * numcomp.0 + c < Prod(S0.ndofs) * numcomp.0
      ensures Rank(I + [c], S0.ndofs + [numcomp.0]) == Rank(I, S0.ndofs) * numcomp.0 + c
      ensures Unrank(Rank(I, S0.ndofs) * numcomp.0 + c, S0.ndofs + [numcomp.0]) == I + [c]
    {
      AppendAxis(I, S0.ndofs, numcomp.0, c);
    }

    /**
     * The generated `entry_impl(i, j, result)`: the kernel adds its contribution
     * to each of the `len` components of the block at `result[base ..]`
     * (`result[c] += ...`), so the block must be zero beforehand for it to end
     * up holding the entry; an empty support adds nothing.
     */
    method EntryImpl(I: seq<nat>, J: Option<seq<nat>>, result: array<real>, base: nat, len: nat)
      requires base + len <= result.Length
      modifies result
      ensures forall q :: base <= q < base + len ==> result[q] == old(result[q]) + entryImpl(I, J, q - base)
      ensures forall q :: 0 <= q < result.Length && !(base <= q < base + len) ==> result[q] == old(result[q])
    {
      forall c | 0 <= c < len {
        result[base + c] := result[base + c] + entryImpl(I, J, c);
      }
    }

    /**
     * `assemble_vector()`: for a linear form, the `numcomp[0]` components of the
     * entry for every basis function of `S0`, basis functions in C order and
     * components fastest; `None` for any other form.
     */
    method AssembleVector() returns (result: Option<array<real>>)
      requires Valid()
      ensures result.Some? <==> arity == 1
      ensures result.Some? ==>
        fresh(result.value) && result.value.Length == Prod(S0.ndofs) * numcomp.0 &&
        forall q :: 0 <= q < result.value.Length ==> result.value[q] == VectorEntry(q / numcomp.0, q % numcomp.0)
    {
      if arity != 1 {
        return None;
      }
      var n := S0.ndofs;
      var nc := numcomp.0;
      var zero := Zeros(dim);
      BoxFromZero(0, n);
      UnrankZero(n);
      ProdPositive(n);
      var a := new real[Prod(n) * nc](_ => 0.0);
      var I := StartIndex(zero);
      var out := 0;
      ghost var t := 0;
      while true
        invariant t < Prod(n) && out == BlockStart(t, nc) && out <= a.Length && I[..] == BoxElem(t, zero, n)
        invariant VectorFilled(a, out) && ZeroFrom(a, out)
        decreases Prod(n) - t
      {
        BoxFromZero(t, n);
        BlockInside(t, Prod(n), nc);
        out := VectorStep(a, I[..], t, out);
        var more := NextLexicographic(I, zero, n, t);
        if !more {
          assert t + 1 == Prod(n);
          BlockStartIsProduct(t + 1, nc);
          assert out == a.Length;
          return Some(a);
        }
        t := t + 1;
      }
    }

    /** Every position of `a` from `from` on still holds its initial zero. */
    predicate ZeroFrom(a: array<real>, from: nat)
      reads a
    {
      forall q :: from <= q < a.Length ==> a[q] == 0.0
    }

    /** The first `upto` positions of `a` hold their entries, components fastest. */
    predicate VectorFilled(a: array<real>, upto: nat)
      requires Valid()
      reads a
    {
      upto <= a.Length && forall q :: 0 <= q < upto ==> a[q] == VectorEntry(q / numcomp.0, q % numcomp.0)
    }

    /**
     * One pass of the `assemble_vector` loop: `entry_impl(I, NULL, out)` fills
     * the block of basis function `t`, and `out` moves past it.
     */
    method VectorStep(a: array<real>, I: seq<nat>, ghost t: nat, out: nat) returns (out': nat)
      requires Valid() && I == Unrank(t, S0.ndofs)
      requires out == BlockStart(t, numcomp.0) && out + numcomp.0 <= a.Length
      requires VectorFilled(a, out) && ZeroFrom(a, out)
      modifies a
      ensures out' == out + numcomp.0 && VectorFilled(a, out') && ZeroFrom(a, out')
    {
      var nc := numcomp.0;
      BlockStartIsProduct(t, nc);
      EntryImpl(I, None, a, out, nc);
      forall q | out <= q < out + nc
        ensures a[q] == VectorEntry(q / nc, q % nc)
      {
        DivModOfMulAdd(t, nc, q - out);
      }
      out' := out + nc;
    }
  }

  /** Where block `t` of length `len` starts in a flat array of blocks: after `t` whole blocks. */
  function BlockStart(t: nat, len: nat): nat
  {
    if t == 0 then 0 else BlockStart(t - 1, len) + len
  }

  lemma {:induction false} BlockStartIsProduct(t: nat, len: nat)
    ensures BlockStart(t, len) == t * len
    decreases t
  {
    if t > 0 {
      BlockStartIsProduct(t - 1, len);
    }
  }

  /** Block `t` of length `len` lies inside an array of `n` such blocks. */
  lemma BlockInside(t: nat, n: nat, len: nat)
    requires t < n
    ensures BlockStart(t, len) + len == BlockStart(t + 1, len) <= n * len
  {
    BlockStartIsProduct(t + 1, len);
    MulMono(t + 1, n, len);
  }

  /** Distinct blocks do not overlap. */
  lemma BlocksDisjoint(p: nat, q: nat, len: nat)
    requires p != q
    ensures BlockStart(p, len) + len <= BlockStart(q, len) || BlockStart(q, len) + len <= BlockStart(p, len)
  {
    BlockStartIsProduct(p, len);
    BlockStartIsProduct(q, len);
    if p < q {
      MulMono(p + 1, q, len);
    } else {
      MulMono(q + 1, p, len);
    }
  }

  /** Position `p * len + s` of a component lies in block `q` exactly when `p == q`. */
  lemma BlockPosition(p: nat, s: nat, q: nat, len: nat)
    requires s < len
    ensures BlockStart(q, len) <= p * len + s < BlockStart(q, len) + len <==> p == q
  {
    BlockStartIsProduct(q, len);
    if p < q {
      MulMono(p + 1, q, len);
    } else if p > q {
      MulMono(q + 1, p, len);
    }
  }

  lemma CellPosition(nc: nat, row: nat, col: nat)
    requires row < nc && col < nc
    ensures col * nc + row < nc * nc && (col * nc + row) / nc == col && (col * nc + row) % nc == row
  {
    MulAddBound(col, row, nc, nc);
    DivModOfMulAdd(col, nc, row);
  }

  /** Position `col * nc + row` of a square block of side `nc` stored row by row. */
  function Cell(nc: nat, row: nat, col: nat): (w: nat)
    requires row < nc && col < nc
    ensures w < nc * nc && w / nc == col && w % nc == row
  {
    CellPosition(nc, row, col);
    col * nc + row
  }

  lemma DivModSplit(s: nat, nc: nat)
    requires nc > 0
    ensures s == (s / nc) * nc + s % nc
  {
  }

  /** Component `s` of a block is the cell at row `s % nc`, column `s / nc`; its transposed component is the cell mirrored. */
  lemma CellOfComponent(nc: nat, s: nat)
    requires nc > 0 && s < nc * nc
    ensures s / nc < nc && s % nc < nc
    ensures Cell(nc, s % nc, s / nc) == s && Cell(nc, s / nc, s % nc) == TransposedComponent(nc, s)
  {
    DivModSplit(s, nc);
    DivBound(s, nc, nc);
  }

  /**
   * The transposed write of the symmetric vector kernel: for every `row` and
   * `col`, component `row * nc + col` of the block at `src` is copied to
   * component `col * nc + row` of the block at `dst`.
   */
  method CopyTransposedBlock(a: array<real>, src: nat, dst: nat, nc: nat)
    requires nc > 0 && src + nc * nc <= a.Length && dst + nc * nc <= a.Length
    requires src + nc * nc <= dst || dst + nc * nc <= src
    modifies a
    ensures forall q :: dst <= q < dst + nc * nc ==> a[q] == old(a[src + TransposedComponent(nc, q - dst)])
    ensures forall q :: 0 <= q < a.Length && !(dst <= q < dst + nc * nc) ==> a[q] == old(a[q])
  {
    for row := 0 to nc
      invariant forall r, c :: 0 <= r < row && 0 <= c < nc ==> a[dst + Cell(nc, r, c)] == old(a[src + Cell(nc, c, r)])
      invariant forall q :: 0 <= q < a.Length && !(dst <= q < dst + nc * nc) ==> a[q] == old(a[q])
    {
      CopyTransposedRow(a, src, dst, nc, row);
    }
    forall q | dst <= q < dst + nc * nc
      ensures a[q] == old(a[src + TransposedComponent(nc, q - dst)])
    {
      CellOfComponent(nc, q - dst);
    }
  }

  /** The inner loop of the transposed write: row `row` of the block at `src` becomes column `row` at `dst`. */
  method CopyTransposedRow(a: array<real>, src: nat, dst: nat, nc: nat, row: nat)
    requires row < nc && src + nc * nc <= a.Length && dst + nc * nc <= a.Length
    requires src + nc * nc <= dst || dst + nc * nc <= src
    modifies a
    ensures forall c :: 0 <= c < nc ==> a[dst + Cell(nc, row, c)] == a[src + Cell(nc, c, row)]
    ensures forall q :: 0 <= q < a.Length && !(dst <= q < dst + nc * nc && (q - dst) % nc == row) ==> a[q] == old(a[q])
  {
    for col := 0 to nc
      invariant forall c :: 0 <= c < col ==> a[dst + Cell(nc, row, c)] == a[src + Cell(nc, c, row)]
      invariant forall q :: 0 <= q < a.Length && !(dst <= q < dst + nc * nc && (q - dst) % nc == row) ==> a[q] == old(a[q])
    {
      a[dst + Cell(nc, row, col)] := a[src + Cell(nc, col, row)];
    }
  }

  /** The number of components of one block of the vector kernels: test times trial components. */
  function BlockLength(numcomp: (nat, nat)): nat
  {
    numcomp.0 * numcomp.1
  }

  /** A square block of positive length has at least one component. */
  lemma SquareBlock(numcomp: (nat, nat))
    requires numcomp.0 == numcomp.1 && BlockLength(numcomp) > 0
    ensures numcomp.0 > 0 && BlockLength(numcomp) == numcomp.0 * numcomp.0
  {
  }

  /**
   * Position `q` of the flat vector entries array once the kernel has
   * visited the slots below `t`: component `q % B` of the block in slot `q / B`.
   */
  function BlockPartialAt(bidx: seq<AxisPairs>, transp: seq<seq<nat>>, symmetric: bool, entry: BlockKernel,
                          numcomp: (nat, nat), q: nat, t: nat): real
    requires |bidx| >= 1 && BlockLength(numcomp) > 0 && q < Size(bidx) * BlockLength(numcomp)
    requires symmetric ==> TransposeOf(bidx, transp) && numcomp.0 == numcomp.1
  {
    var B := BlockLength(numcomp);
    DivBound(q, B, Size(bidx));
    BlockPartial(bidx, transp, symmetric, entry, numcomp.0, q / B, q % B, t)
  }

  /** Position `q` of the flat vector entries array once the kernel has visited every slot. */
  function BlockAssembledAt(bidx: seq<AxisPairs>, transp: seq<seq<nat>>, symmetric: bool, entry: BlockKernel,
                            numcomp: (nat, nat), q: nat): real
    requires |bidx| >= 1 && BlockLength(numcomp) > 0 && q < Size(bidx) * BlockLength(numcomp)
    requires symmetric ==> TransposeOf(bidx, transp) && numcomp.0 == numcomp.1
  {
    var B := BlockLength(numcomp);
    DivBound(q, B, Size(bidx));
    BlockAssembled(bidx, transp, symmetric, entry, numcomp.0, q / B, q % B)
  }

  /**
   * The body of `_asm_core_vec_{DIM}d_kernel` for the block `mu` in slot `t`:
   * in symmetric mode a block above the diagonal is skipped; otherwise
   * `entry_impl` fills the block of slot `t` and, off the diagonal in
   * symmetric mode, its transpose is copied into the transposed slot.
   */
  method AsmCoreVecKernelSlot(asm: BaseVectorAssembler, symmetric: bool, bidx: seq<AxisPairs>, transp: seq<seq<nat>>,
                              entries: array<real>, t: nat)
    requires |bidx| >= 1 && t < Size(bidx) && BlockLength(asm.numcomp) > 0
    requires symmetric ==> TransposeOf(bidx, transp) && asm.numcomp.0 == asm.numcomp.1
    requires entries.Length == Size(bidx) * BlockLength(asm.numcomp)
    requires forall q :: 0 <= q < entries.Length ==>
      entries[q] == BlockPartialAt(bidx, transp, symmetric, asm.entryImpl, asm.numcomp, q, t)
    modifies entries
    ensures forall q :: 0 <= q < entries.Length ==>
      entries[q] == BlockPartialAt(bidx, transp, symmetric, asm.entryImpl, asm.numcomp, q, t + 1)
  {
    var B := BlockLength(asm.numcomp);
    var mu := Slot(bidx, t);
    var above, offDiagonal := false, false;
    if symmetric {
      above, offDiagonal := DiagonalTest(Offsets(bidx, mu));
    }
    if !above {
      FillBlock(asm, symmetric, bidx, transp, entries, t);
      if symmetric && offDiagonal {
        ghost var filled := entries[..];
        FillTransposedBlock(asm, bidx, transp, entries, t);
        TransposedFill(bidx, transp, asm.entryImpl, asm.numcomp, t, filled, entries[..]);
        return;
      }
    }
    forall q | 0 <= q < entries.Length && (above || !InBlock(q, t, B))
      ensures entries[q] == BlockPartialAt(bidx, transp, symmetric, asm.entryImpl, asm.numcomp, q, t + 1)
    {
      BlockStepElsewhere(bidx, transp, symmetric, asm.entryImpl, asm.numcomp, t, q);
    }
  }

  predicate InBlock(q: nat, t: nat, len: nat)
  {
    BlockStart(t, len) <= q < BlockStart(t, len) + len
  }

  /** `entry_impl(i, j, &entries[mu, 0])`: a computed slot `t` gets its own block. */
  method FillBlock(asm: BaseVectorAssembler, symmetric: bool, bidx: seq<AxisPairs>, transp: seq<seq<nat>>,
                   entries: array<real>, t: nat)
    requires |bidx| >= 1 && t < Size(bidx) && BlockLength(asm.numcomp) > 0
    requires symmetric ==> TransposeOf(bidx, transp) && asm.numcomp.0 == asm.numcomp.1
    requires entries.Length == Size(bidx) * BlockLength(asm.numcomp) && !Skipped(bidx, symmetric, t)
    requires forall q :: 0 <= q < entries.Length ==>
      entries[q] == BlockPartialAt(bidx, transp, symmetric, asm.entryImpl, asm.numcomp, q, t)
    modifies entries
    ensures forall q :: 0 <= q < entries.Length ==>
      entries[q] == BlockPartialAt(bidx, transp, symmetric, asm.entryImpl, asm.numcomp, q,
                                   if InBlock(q, t, BlockLength(asm.numcomp)) then t + 1 else t)
  {
    var B := BlockLength(asm.numcomp);
    var mu := Slot(bidx, t);
    BlockInside(t, Size(bidx), B);
    asm.EntryImpl(TestIndex(bidx, mu), Some(TrialIndex(bidx, mu)), entries, BlockStart(t, B), B);
    forall q | 0 <= q < entries.Length && InBlock(q, t, B)
      ensures entries[q] == BlockPartialAt(bidx, transp, symmetric, asm.entryImpl, asm.numcomp, q, t + 1)
    {
      BlockStepOwn(bidx, transp, symmetric, asm.entryImpl, asm.numcomp, t, q);
    }
  }

  /**
   * The transposed write of the symmetric vector kernel: the transposed slot
   * of a computed slot `t` off the diagonal gets the transposed block.
   */
  method FillTransposedBlock(asm: BaseVectorAssembler, bidx: seq<AxisPairs>, transp: seq<seq<nat>>,
                             entries: array<real>, t: nat)
    requires |bidx| >= 1 && t < Size(bidx) && TransposeOf(bidx, transp)
    requires asm.numcomp.0 == asm.numcomp.1 && BlockLength(asm.numcomp) > 0
    requires !Skipped(bidx, true, t) && OffDiagonal(Offsets(bidx, Slot(bidx, t)))
    requires entries.Length == Size(bidx) * BlockLength(asm.numcomp)
    modifies entries
    ensures forall q :: 0 <= q < entries.Length ==>
      entries[q] == old(entries[TransposedCopySource(bidx, transp, asm.numcomp, t, q)])
  {
    var nc := asm.numcomp.0;
    var B := BlockLength(asm.numcomp);
    SquareBlock(asm.numcomp);
    var tt := TransposedSlot(bidx, transp, t);
    SkippedPartner(bidx, transp, t);
    BlockInside(t, Size(bidx), B);
    BlockInside(tt, Size(bidx), B);
    BlocksDisjoint(t, tt, B);
    var from, to := BlockStart(t, B), BlockStart(tt, B);
    ghost var before := entries[..];
    CopyTransposedBlock(entries, from, to, nc);
    CopiedFromSource(bidx, transp, asm.numcomp, t, from, to, nc, before, entries[..]);
  }

  /** The copy of the transposed block, on values: every position holds what `TransposedCopySource` names. */
  lemma CopiedFromSource(bidx: seq<AxisPairs>, transp: seq<seq<nat>>, numcomp: (nat, nat), t: nat,
                         from: nat, to: nat, nc: nat, before: seq<real>, after: seq<real>)
    requires |bidx| >= 1 && t < Size(bidx) && TransposeOf(bidx, transp)
    requires numcomp == (nc, nc) && nc > 0 && BlockLength(numcomp) == nc * nc
    requires from == BlockStart(t, nc * nc) && to == BlockStart(TransposedSlot(bidx, transp, t), nc * nc)
    requires |before| == |after| == Size(bidx) * (nc * nc)
    requires from + nc * nc <= |before| && to + nc * nc <= |after|
    requires forall q :: to <= q < to + nc * nc ==> after[q] == before[from + TransposedComponent(nc, q - to)]
    requires forall q :: 0 <= q < |after| && !(to <= q < to + nc * nc) ==> after[q] == before[q]
    ensures forall q :: 0 <= q < |after| ==> after[q] == before[TransposedCopySource(bidx, transp, numcomp, t, q)]
  {
    forall q | 0 <= q < |after|
      ensures after[q] == before[TransposedCopySource(bidx, transp, numcomp, t, q)]
    {
      if to <= q < to + nc * nc {
        CopySourceInBlock(bidx, transp, numcomp, t, q);
      }
    }
  }

  /**
   * Where the transposed write takes position `q` from: the matching position
   * of slot `t`'s block inside the transposed slot's block, `q` itself elsewhere.
   */
  function TransposedCopySource(bidx: seq<AxisPairs>, transp: seq<seq<nat>>, numcomp: (nat, nat), t: nat, q: nat): (r: nat)
    requires |bidx| >= 1 && t < Size(bidx) && TransposeOf(bidx, transp) && numcomp.0 == numcomp.1
    requires BlockLength(numcomp) > 0 && q < Size(bidx) * BlockLength(numcomp)
    ensures r < Size(bidx) * BlockLength(numcomp)
    ensures !InBlock(q, TransposedSlot(bidx, transp, t), BlockLength(numcomp)) ==> r == q
  {
    var B := BlockLength(numcomp);
    var tt := TransposedSlot(bidx, transp, t);
    if InBlock(q, tt, B) then
      BlockInside(t, Size(bidx), B);
      assert B == numcomp.0 * numcomp.0;
      BlockStart(t, B) + TransposedComponent(numcomp.0, q - BlockStart(tt, B))
    else q
  }

  lemma CopySourceInBlock(bidx: seq<AxisPairs>, transp: seq<seq<nat>>, numcomp: (nat, nat), t: nat, q: nat)
    requires |bidx| >= 1 && t < Size(bidx) && TransposeOf(bidx, transp) && numcomp.0 == numcomp.1
    requires BlockLength(numcomp) > 0 && q < Size(bidx) * BlockLength(numcomp)
    requires InBlock(q, TransposedSlot(bidx, transp, t), BlockLength(numcomp))
    ensures TransposedCopySource(bidx, transp, numcomp, t, q) ==
            BlockStart(t, BlockLength(numcomp)) +
            TransposedComponent(numcomp.0, q - BlockStart(TransposedSlot(bidx, transp, t), BlockLength(numcomp)))
  {
  }

  /**
   * The symmetric vector kernel's step for a computed slot off the diagonal,
   * on values: once slot `t`'s own block is filled and the transposed block
   * copied from it, every position holds its value after slot `t`.
   */
  lemma TransposedFill(bidx: seq<AxisPairs>, transp: seq<seq<nat>>, entry: BlockKernel, numcomp: (nat, nat), t: nat,
                       before: seq<real>, after: seq<real>)
    requires |bidx| >= 1 && t < Size(bidx) && TransposeOf(bidx, transp)
    requires numcomp.0 == numcomp.1 && BlockLength(numcomp) > 0
    requires !Skipped(bidx, true, t) && OffDiagonal(Offsets(bidx, Slot(bidx, t)))
    requires |before| == |after| == Size(bidx) * BlockLength(numcomp)
    requires forall q :: 0 <= q < |before| ==>
      before[q] == BlockPartialAt(bidx, transp, true, entry, numcomp, q,
                                  if InBlock(q, t, BlockLength(numcomp)) then t + 1 else t)
    requires forall q :: 0 <= q < |after| ==> after[q] == before[TransposedCopySource(bidx, transp, numcomp, t, q)]
    ensures forall q :: 0 <= q < |after| ==> after[q] == BlockPartialAt(bidx, transp, true, entry, numcomp, q, t + 1)
  {
    var B := BlockLength(numcomp);
    var tt := TransposedSlot(bidx, transp, t);
    SkippedPartner(bidx, transp, t);
    BlocksDisjoint(t, tt, B);
    forall q | 0 <= q < |after|
      ensures after[q] == BlockPartialAt(bidx, transp, true, entry, numcomp, q, t + 1)
    {
      if InBlock(q, tt, B) {
        var src := TransposedCopySource(bidx, transp, numcomp, t, q);
        assert B == numcomp.0 * numcomp.0;
        BlockStepCopied(bidx, transp, entry, numcomp, t, q, src);
      } else if !InBlock(q, t, B) {
        BlockStepElsewhere(bidx, transp, true, entry, numcomp, t, q);
      }
    }
  }

  /**
   * The transposed write reads its value from the block of slot `t`: position
   * `q` of the transposed block ends up equal to the position of slot `t`'s
   * own block it was copied from.
   */
  lemma BlockStepCopied(bidx: seq<AxisPairs>, transp: seq<seq<nat>>, entry: BlockKernel, numcomp: (nat, nat),
                        t: nat, q: nat, src: nat)
    requires |bidx| >= 1 && t < Size(bidx) && numcomp.0 == numcomp.1 && BlockLength(numcomp) > 0
    requires TransposeOf(bidx, transp)
    requires !Skipped(bidx, true, t) && OffDiagonal(Offsets(bidx, Slot(bidx, t)))
    requires InBlock(q, TransposedSlot(bidx, transp, t), BlockLength(numcomp))
    requires q - BlockStart(TransposedSlot(bidx, transp, t), BlockLength(numcomp)) < numcomp.0 * numcomp.0
    requires src == BlockStart(t, BlockLength(numcomp)) +
      TransposedComponent(numcomp.0, q - BlockStart(TransposedSlot(bidx, transp, t), BlockLength(numcomp)))
    ensures q < Size(bidx) * BlockLength(numcomp) && src < Size(bidx) * BlockLength(numcomp)
    ensures InBlock(src, t, BlockLength(numcomp))
    ensures BlockPartialAt(bidx, transp, true, entry, numcomp, q, t + 1) ==
      BlockPartialAt(bidx, transp, true, entry, numcomp, src, t + 1)
  {
    var nc := numcomp.0;
    assert numcomp == (nc, nc) && BlockLength(numcomp) == nc * nc;
    BlockStepTransposed(bidx, transp, entry, nc, t, q);
    BlockStepOwn(bidx, transp, true, entry, numcomp, t, src);
  }

  /**
   * A computed slot `t` has a zero block until it is visited; visiting it
   * fills the block with the one `entry_impl` computes for it.
   */
  lemma BlockStepOwn(bidx: seq<AxisPairs>, transp: seq<seq<nat>>, symmetric: bool, entry: BlockKernel,
                     numcomp: (nat, nat), t: nat, q: nat)
    requires |bidx| >= 1 && t < Size(bidx) && BlockLength(numcomp) > 0
    requires symmetric ==> TransposeOf(bidx, transp) && numcomp.0 == numcomp.1
    requires !Skipped(bidx, symmetric, t)
    requires BlockStart(t, BlockLength(numcomp)) <= q < BlockStart(t, BlockLength(numcomp)) + BlockLength(numcomp)
    ensures q < Size(bidx) * BlockLength(numcomp)
    ensures BlockPartialAt(bidx, transp, symmetric, entry, numcomp, q, t) == 0.0
    ensures BlockPartialAt(bidx, transp, symmetric, entry, numcomp, q, t + 1) ==
      BlockEntry(bidx, entry, t, q - BlockStart(t, BlockLength(numcomp)))
  {
    var B := BlockLength(numcomp);
    BlockInside(t, Size(bidx), B);
    BlockStartIsProduct(t, B);
    DivModOfMulAdd(t, B, q - BlockStart(t, B));
    SourceStep(bidx, transp, symmetric, t, t);
  }

  /**
   * In symmetric mode, visiting a computed slot `t` off the diagonal fills the
   * block of its transposed slot with the transposed block.
   */
  lemma BlockStepTransposed(bidx: seq<AxisPairs>, transp: seq<seq<nat>>, entry: BlockKernel,
                            nc: nat, t: nat, q: nat)
    requires |bidx| >= 1 && t < Size(bidx) && nc > 0 && TransposeOf(bidx, transp)
    requires !Skipped(bidx, true, t) && OffDiagonal(Offsets(bidx, Slot(bidx, t)))
    requires BlockStart(TransposedSlot(bidx, transp, t), nc * nc) <= q < BlockStart(TransposedSlot(bidx, transp, t), nc * nc) + nc * nc
    ensures q < Size(bidx) * (nc * nc)
    ensures BlockPartialAt(bidx, transp, true, entry, (nc, nc), q, t + 1) ==
      BlockEntry(bidx, entry, t, TransposedComponent(nc, q - BlockStart(TransposedSlot(bidx, transp, t), nc * nc)))
  {
    var B := nc * nc;
    var tt := TransposedSlot(bidx, transp, t);
    var c := q - BlockStart(tt, B);
    SkippedPartner(bidx, transp, t);
    BlockInside(tt, Size(bidx), B);
    BlockStartIsProduct(tt, B);
    DivModOfMulAdd(tt, B, c);
    assert q / B == tt && q % B == c;
    SourceStep(bidx, transp, true, t, tt);
    assert Source(bidx, transp, true, tt, t + 1) == Some(t) && Skipped(bidx, true, tt);
    assert BlockPartialAt(bidx, transp, true, entry, (nc, nc), q, t + 1) ==
      BlockPartial(bidx, transp, true, entry, nc, tt, c, t + 1);
  }

  /** Every position outside the blocks that visiting slot `t` writes keeps its value. */
  lemma BlockStepElsewhere(bidx: seq<AxisPairs>, transp: seq<seq<nat>>, symmetric: bool, entry: BlockKernel,
                           numcomp: (nat, nat), t: nat, q: nat)
    requires |bidx| >= 1 && t < Size(bidx) && BlockLength(numcomp) > 0 && q < Size(bidx) * BlockLength(numcomp)
    requires symmetric ==> TransposeOf(bidx, transp) && numcomp.0 == numcomp.1
    requires !Skipped(bidx, symmetric, t) ==>
      !(BlockStart(t, BlockLength(numcomp)) <= q < BlockStart(t, BlockLength(numcomp)) + BlockLength(numcomp))
    requires !Skipped(bidx, symmetric, t) && symmetric && OffDiagonal(Offsets(bidx, Slot(bidx, t))) ==>
      !(BlockStart(TransposedSlot(bidx, transp, t), BlockLength(numcomp)) <= q <
        BlockStart(TransposedSlot(bidx, transp, t), BlockLength(numcomp)) + BlockLength(numcomp))
    ensures BlockPartialAt(bidx, transp, symmetric, entry, numcomp, q, t + 1) ==
      BlockPartialAt(bidx, transp, symmetric, entry, numcomp, q, t)
  {
    var B := BlockLength(numcomp);
    var p, s := q / B, q % B;
    DivBound(q, B, Size(bidx));
    DivModSplit(q, B);
    BlockPosition(p, s, t, B);
    assert !Skipped(bidx, symmetric, t) ==> p != t;
    if symmetric {
      BlockPosition(p, s, TransposedSlot(bidx, transp, t), B);
      assert !Skipped(bidx, symmetric, t) && OffDiagonal(Offsets(bidx, Slot(bidx, t))) ==>
        p != TransposedSlot(bidx, transp, t);
    }
    SourceStep(bidx, transp, symmetric, t, p);
    assert Source(bidx, transp, symmetric, p, t + 1) == Source(bidx, transp, symmetric, p, t);
  }

  /**
   * `generic_assemble_core_vec_{DIM}d(asm, bidx, symmetric)`: for a bilinear
   * form, the block of `numcomp[0] * numcomp[1]` components for every block
   * of the banded index set, blocks in C order; in symmetric mode the blocks
   * above the diagonal hold the transposed blocks of their transposed
   * slots. `None` for any other form.
   */
  method GenericAssembleCoreVec(asm: BaseVectorAssembler, bidx: seq<AxisPairs>, transp: seq<seq<nat>>, symmetric: bool)
    returns (result: Option<array<real>>)
    requires asm.Valid() && |bidx| == asm.dim && BlockLength(asm.numcomp) > 0
    requires symmetric ==> TransposeOf(bidx, transp) && asm.numcomp.0 == asm.numcomp.1
    ensures result.Some? <==> asm.arity == 2
    ensures result.Some? ==>
      fresh(result.value) && result.value.Length == Size(bidx) * BlockLength(asm.numcomp) &&
      forall q :: 0 <= q < result.value.Length ==>
        result.value[q] == BlockAssembledAt(bidx, transp, symmetric, asm.entryImpl, asm.numcomp, q)
  {
    if asm.arity != 2 {
      return None;
    }
    var entries := new real[Size(bidx) * BlockLength(asm.numcomp)](_ => 0.0);
    for t := 0 to Size(bidx)
      invariant forall q :: 0 <= q < entries.Length ==>
        entries[q] == BlockPartialAt(bidx, transp, symmetric, asm.entryImpl, asm.numcomp, q, t)
    {
      AsmCoreVecKernelSlot(asm, symmetric, bidx, transp, entries, t);
    }
    return Some(entries);
  }
}
