/**
 * Multi-index bookkeeping of the assemblers: the row-major linear index with
 * the last axis varying fastest (`to_seq`), its inverse by repeated division
 * (`from_seq`), and the lexicographic successor with carry over a box of
 * multi-indices (`next_lexicographic`).
 *
 * Axis 0 is never reduced modulo its extent: `from_seq` leaves the whole
 * remaining quotient there, so only the extents of axes 1.. must be positive.
 */
module Indexing {

  /** Number of multi-indices in a box with these extents. */
  function Prod(n: seq<nat>): nat
  {
    if |n| == 0 then 1 else Prod(n[..|n| - 1]) * n[|n| - 1]
  }

  /** Extents usable as radices: at least one axis and every axis after the first non-empty. */
  predicate Radices(n: seq<nat>)
  {
    |n| >= 1 && forall k :: 1 <= k < |n| ==> n[k] > 0
  }

  predicate InRange(I: seq<nat>, n: seq<nat>)
  {
    |I| == |n| && forall k :: 0 <= k < |n| ==> I[k] < n[k]
  }

  /** Row-major rank in Horner form `((I0)*n1 + I1)*n2 + ...`; the extent of axis 0 is not used. */
  function Rank(I: seq<nat>, n: seq<nat>): nat
    requires |I| == |n|
  {
    if |I| == 0 then 0 else Rank(I[..|I| - 1], n[..|n| - 1]) * n[|n| - 1] + I[|I| - 1]
  }

  /** The digits `from_seq` produces: last axis `t mod n[last]`, ..., axis 0 the remaining quotient. */
  function Unrank(t: nat, n: seq<nat>): (I: seq<nat>)
    requires Radices(n)
    ensures |I| == |n|
    decreases |n|
  {
    if |n| == 1 then [t]
    else Unrank(t / n[|n| - 1], n[..|n| - 1]) + [t % n[|n| - 1]]
  }

  // ---------------------------------------------------------------------
  // Arithmetic facts

  lemma DivModOfMulAdd(q: nat, m: nat, r: nat)
    requires r < m
    ensures (q * m + r) / m == q && (q * m + r) % m == r
  {
    var t := q * m + r;
    var q', r' := t / m, t % m;
    assert t == q' * m + r';
    assert q' * m < (q + 1) * m;
    MulStrict(q', q + 1, m);
    assert q * m < (q' + 1) * m;
    MulStrict(q, q' + 1, m);
  }

  lemma MulStrict(a: int, b: int, m: int)
    requires m > 0 && a * m < b * m
    ensures a < b
  {
  }

  lemma MulMono(a: nat, b: nat, m: nat)
    requires a <= b
    ensures a * m <= b * m
  {
  }

  lemma MulAddBound(a: nat, b: nat, p: nat, m: nat)
    requires a < p && b < m
    ensures a * m + b < p * m
  {
    MulMono(a + 1, p, m);
    assert (a + 1) * m == a * m + m;
  }

  lemma DivBound(t: nat, m: nat, p: nat)
    requires m > 0 && t < p * m
    ensures t / m < p
  {
  }

  // ---------------------------------------------------------------------
  // Rank and Unrank are inverse bijections

  /** `to_seq(from_seq(t)) == t` for every `t`, in range or not. */
  lemma {:induction false} RankOfUnrank(t: nat, n: seq<nat>)
    requires Radices(n)
    ensures Rank(Unrank(t, n), n) == t
    decreases |n|
  {
    var I := Unrank(t, n);
    if |n| == 1 {
      assert I[..0] == [];
    } else {
      var m := n[|n| - 1];
      RankOfUnrank(t / m, n[..|n| - 1]);
      assert I[..|I| - 1] == Unrank(t / m, n[..|n| - 1]);
      assert t == (t / m) * m + t % m;
    }
  }

  /** `from_seq(to_seq(I)) == I` whenever the digits of axes 1.. are below their extents. */
  lemma {:induction false} UnrankOfRank(I: seq<nat>, n: seq<nat>)
    requires Radices(n) && |I| == |n|
    requires forall k :: 1 <= k < |n| ==> I[k] < n[k]
    ensures Unrank(Rank(I, n), n) == I
    decreases |n|
  {
    if |n| == 1 {
      assert Rank(I, n) == Rank(I[..0], n[..0]) * n[0] + I[0];
      assert I == [I[0]];
    } else {
      var m := n[|n| - 1];
      var prefix := I[..|I| - 1];
      DivModOfMulAdd(Rank(prefix, n[..|n| - 1]), m, I[|I| - 1]);
      UnrankOfRank(prefix, n[..|n| - 1]);
      assert I == prefix + [I[|I| - 1]];
    }
  }

  lemma {:induction false} RankBound(I: seq<nat>, n: seq<nat>)
    requires InRange(I, n)
    ensures Rank(I, n) < Prod(n) || |n| == 0
    decreases |n|
  {
    if |n| == 1 {
      assert Rank(I, n) == Rank(I[..0], n[..0]) * n[0] + I[0];
    } else if |n| > 1 {
      RankBound(I[..|I| - 1], n[..|n| - 1]);
      MulAddBound(Rank(I[..|I| - 1], n[..|n| - 1]), I[|I| - 1], Prod(n[..|n| - 1]), n[|n| - 1]);
    }
  }

  lemma {:induction false} UnrankInRange(t: nat, n: seq<nat>)
    requires Radices(n) && t < Prod(n)
    ensures InRange(Unrank(t, n), n)
    decreases |n|
  {
    if |n| == 1 {
      assert Prod(n) == Prod(n[..0]) * n[0];
    } else {
      var m := n[|n| - 1];
      DivBound(t, m, Prod(n[..|n| - 1]));
      UnrankInRange(t / m, n[..|n| - 1]);
    }
  }

  lemma UnrankInjective(s: nat, t: nat, n: seq<nat>)
    requires Radices(n) && Unrank(s, n) == Unrank(t, n)
    ensures s == t
  {
    RankOfUnrank(s, n);
    RankOfUnrank(t, n);
  }

  lemma RankInjective(I: seq<nat>, J: seq<nat>, n: seq<nat>)
    requires Radices(n) && InRange(I, n) && InRange(J, n) && Rank(I, n) == Rank(J, n)
    ensures I == J
  {
    UnrankOfRank(I, n);
    UnrankOfRank(J, n);
  }

  /** The rank of a concatenation: the leading digits weigh `Prod` of the trailing extents. */
  lemma {:induction false} RankAppend(A: seq<nat>, B: seq<nat>, na: seq<nat>, nb: seq<nat>)
    requires |A| == |na| && |B| == |nb|
    ensures Rank(A + B, na + nb) == Rank(A, na) * Prod(nb) + Rank(B, nb)
    decreases |B|
  {
    if |B| == 0 {
      assert A + B == A && na + nb == na;
    } else {
      var B', nb' := B[..|B| - 1], nb[..|nb| - 1];
      var m := nb[|nb| - 1];
      assert (A + B)[..|A + B| - 1] == A + B';
      assert (na + nb)[..|na + nb| - 1] == na + nb';
      RankAppend(A, B', na, nb');
      var ra, rb', d := Rank(A, na), Rank(B', nb'), B[|B| - 1];
      assert Rank(A + B, na + nb) == Rank(A + B', na + nb') * m + d;
      assert Rank(A + B', na + nb') == ra * Prod(nb') + rb';
      assert Prod(nb) == Prod(nb') * m;
      assert Rank(B, nb) == rb' * m + d;
      HornerStep(ra, Prod(nb'), rb', m, d);
    }
  }

  lemma HornerStep(ra: nat, p: nat, rb: nat, m: nat, d: nat)
    ensures (ra * p + rb) * m + d == ra * (p * m) + (rb * m + d)
  {
    calc {
      (ra * p + rb) * m + d;
      ra * p * m + rb * m + d;
    }
  }

  /**
   * One more axis of extent `m` after the last: the rank becomes `rank * m + c`,
   * stays below the new product of extents, and unranking splits it back.
   */
  lemma {:induction false} AppendAxis(I: seq<nat>, n: seq<nat>, m: nat, c: nat)
    requires Radices(n) && InRange(I, n) && c < m
    ensures Rank(I, n) * m + c < Prod(n) * m
    ensures Rank(I + [c], n + [m]) == Rank(I, n) * m + c
    ensures Unrank(Rank(I, n) * m + c, n + [m]) == I + [c]
  {
    RankBound(I, n);
    MulAddBound(Rank(I, n), c, Prod(n), m);
    RankSnoc(I, n, m, c);
    UnrankSnoc(Rank(I, n), n, m, c);
    UnrankOfRank(I, n);
  }

  lemma RankSnoc(I: seq<nat>, n: seq<nat>, m: nat, c: nat)
    requires |I| == |n|
    ensures Rank(I + [c], n + [m]) == Rank(I, n) * m + c
  {
    assert (I + [c])[..|I|] == I;
    assert (n + [m])[..|n|] == n;
  }

  lemma UnrankSnoc(q: nat, n: seq<nat>, m: nat, c: nat)
    requires Radices(n) && c < m
    ensures Unrank(q * m + c, n + [m]) == Unrank(q, n) + [c]
  {
    var nm := n + [m];
    DivModOfMulAdd(q, m, c);
    assert nm[..|nm| - 1] == n;
  }

  function Zeros(len: nat): (z: seq<nat>)
    ensures |z| == len && forall k :: 0 <= k < len ==> z[k] == 0
  {
    seq(len, k => 0)
  }

  lemma {:induction false} RankOfZeros(n: seq<nat>)
    ensures Rank(Zeros(|n|), n) == 0
    decreases |n|
  {
    if |n| > 0 {
      assert Zeros(|n|)[..|n| - 1] == Zeros(|n| - 1);
      RankOfZeros(n[..|n| - 1]);
    }
  }

  /** The largest digits of a box have the largest rank, one below its size. */
  lemma {:induction false} RankOfLargest(I: seq<nat>, n: seq<nat>)
    requires |I| == |n| && forall k :: 0 <= k < |n| ==> n[k] >= 1 && I[k] == n[k] - 1
    ensures Rank(I, n) + 1 == Prod(n)
    decreases |n|
  {
    if |n| > 0 {
      var m := n[|n| - 1];
      RankOfLargest(I[..|I| - 1], n[..|n| - 1]);
      calc {
        Rank(I, n) + 1;
        Rank(I[..|I| - 1], n[..|n| - 1]) * m + (m - 1) + 1;
        (Prod(n[..|n| - 1]) - 1) * m + m;
        { assert (Prod(n[..|n| - 1]) - 1) * m == Prod(n[..|n| - 1]) * m - m; }
        Prod(n);
      }
    }
  }

  // ---------------------------------------------------------------------
  // from_seq

  /**
   * `from_seq(i, out)`: for k = DIM-1 down to 1, `out[k] = i % ndofs[k]; i /= ndofs[k]`,
   * then `out[0] = i`.
   */
  method FromSeq(i: nat, ndofs: seq<nat>, out: array<nat>)
    requires Radices(ndofs) && out.Length == |ndofs|
    modifies out
    ensures out[..] == Unrank(i, ndofs)
  {
    var rest := i;
    var k := |ndofs| - 1;
    assert ndofs[..k + 1] == ndofs && out[k + 1..] == [];
    while k >= 1
      invariant 0 <= k < |ndofs|
      invariant Unrank(rest, ndofs[..k + 1]) + out[k + 1..] == Unrank(i, ndofs)
    {
      var prefix := ndofs[..k + 1];
      assert prefix[..|prefix| - 1] == ndofs[..k];
      assert Unrank(rest, prefix) == Unrank(rest / ndofs[k], ndofs[..k]) + [rest % ndofs[k]];
      out[k] := rest % ndofs[k];
      rest := rest / ndofs[k];
      assert out[k..] == [out[k]] + out[k + 1..];
      k := k - 1;
    }
    out[0] := rest;
    assert out[..] == [out[0]] + out[1..];
  }

  // ---------------------------------------------------------------------
  // Boxes of multi-indices and their lexicographic enumeration

  /** `[start, end)` on every axis, each axis non-empty. */
  predicate NonemptyBox(start: seq<nat>, end: seq<nat>)
  {
    |start| == |end| >= 1 && forall k :: 0 <= k < |start| ==> start[k] < end[k]
  }

  function Extent(start: seq<nat>, end: seq<nat>): (e: seq<nat>)
    requires |start| == |end|
    ensures |e| == |start|
  {
    seq(|start|, k requires 0 <= k < |start| => if end[k] > start[k] then end[k] - start[k] else 0)
  }

  function BoxSize(start: seq<nat>, end: seq<nat>): nat
    requires |start| == |end|
  {
    Prod(Extent(start, end))
  }

  predicate InBox(I: seq<nat>, start: seq<nat>, end: seq<nat>)
  {
    |I| == |start| == |end| && forall k :: 0 <= k < |I| ==> start[k] <= I[k] < end[k]
  }

  /** The `t`-th multi-index of the box in lexicographic order (last axis fastest). */
  function BoxElem(t: nat, start: seq<nat>, end: seq<nat>): (I: seq<nat>)
    requires NonemptyBox(start, end)
    ensures |I| == |start|
  {
    var U := Unrank(t, Extent(start, end));
    seq(|start|, k requires 0 <= k < |start| => start[k] + U[k])
  }

  lemma BoxElemInBox(t: nat, start: seq<nat>, end: seq<nat>)
    requires NonemptyBox(start, end) && t < BoxSize(start, end)
    ensures InBox(BoxElem(t, start, end), start, end)
  {
    UnrankInRange(t, Extent(start, end));
  }

  lemma BoxElemInjective(s: nat, t: nat, start: seq<nat>, end: seq<nat>)
    requires NonemptyBox(start, end) && BoxElem(s, start, end) == BoxElem(t, start, end)
    ensures s == t
  {
    var e := Extent(start, end);
    var U, V := Unrank(s, e), Unrank(t, e);
    forall k | 0 <= k < |e| ensures U[k] == V[k] {
      assert BoxElem(s, start, end)[k] == BoxElem(t, start, end)[k];
    }
    assert U == V;
    UnrankInjective(s, t, e);
  }

  /** Every multi-index of the box is enumerated, at the rank of its offset from `start`. */
  lemma BoxElemOfRank(I: seq<nat>, start: seq<nat>, end: seq<nat>)
    requires NonemptyBox(start, end) && InBox(I, start, end)
    ensures var D := seq(|I|, k requires 0 <= k < |I| => I[k] - start[k]);
            Rank(D, Extent(start, end)) < BoxSize(start, end) &&
            BoxElem(Rank(D, Extent(start, end)), start, end) == I
  {
    var e := Extent(start, end);
    var D := seq(|I|, k requires 0 <= k < |I| => I[k] - start[k]);
    assert InRange(D, e);
    RankBound(D, e);
    UnrankOfRank(D, e);
  }

  lemma {:induction false} ProdPositive(n: seq<nat>)
    requires forall k :: 0 <= k < |n| ==> n[k] > 0
    ensures Prod(n) > 0
    decreases |n|
  {
    if |n| > 0 {
      ProdPositive(n[..|n| - 1]);
    }
  }

  /** A non-zero product has no zero factor. */
  lemma {:induction false} ProdFactorsPositive(n: seq<nat>)
    requires Prod(n) > 0
    ensures forall k :: 0 <= k < |n| ==> n[k] > 0
    decreases |n|
  {
    if |n| > 0 {
      var init := n[..|n| - 1];
      assert Prod(n) == Prod(init) * n[|n| - 1];
      assert Prod(init) > 0 && n[|n| - 1] > 0;
      ProdFactorsPositive(init);
      assert forall k :: 0 <= k < |n| - 1 ==> n[k] == init[k];
    }
  }

  /** A non-empty box has at least one element. */
  lemma BoxSizePositive(start: seq<nat>, end: seq<nat>)
    requires NonemptyBox(start, end)
    ensures BoxSize(start, end) > 0
  {
    ProdPositive(Extent(start, end));
  }

  lemma {:induction false} UnrankZero(n: seq<nat>)
    requires Radices(n)
    ensures Unrank(0, n) == Zeros(|n|)
    decreases |n|
  {
    if |n| > 1 {
      UnrankZero(n[..|n| - 1]);
    }
  }

  /** The enumeration of a box starts at its lower corner. */
  lemma BoxElemFirst(start: seq<nat>, end: seq<nat>)
    requires NonemptyBox(start, end)
    ensures BoxElem(0, start, end) == start
  {
    UnrankZero(Extent(start, end));
  }

  /** The box that starts at zero enumerates exactly `from_seq` order. */
  lemma BoxFromZero(t: nat, n: seq<nat>)
    requires |n| >= 1 && forall k :: 0 <= k < |n| ==> n[k] > 0
    ensures NonemptyBox(Zeros(|n|), n)
    ensures Extent(Zeros(|n|), n) == n && BoxSize(Zeros(|n|), n) == Prod(n)
    ensures BoxElem(t, Zeros(|n|), n) == Unrank(t, n)
  {
    assert Extent(Zeros(|n|), n) == n;
  }

  lemma RankIncrementLast(A: seq<nat>, na: seq<nat>)
    requires |A| == |na| >= 1
    ensures Rank(A[..|A| - 1] + [A[|A| - 1] + 1], na) == Rank(A, na) + 1
  {
    var A' := A[..|A| - 1] + [A[|A| - 1] + 1];
    assert A'[..|A'| - 1] == A[..|A| - 1];
  }

  /** The rank split at axis `j`. */
  lemma RankSplit(U: seq<nat>, n: seq<nat>, j: nat)
    requires |U| == |n| && j <= |n|
    ensures Rank(U, n) == Rank(U[..j], n[..j]) * Prod(n[j..]) + Rank(U[j..], n[j..])
  {
    assert U == U[..j] + U[j..] && n == n[..j] + n[j..];
    RankAppend(U[..j], U[j..], n[..j], n[j..]);
  }

  /** Adding one to digit `k` and zeroing the maximal digits after it adds one to the rank. */
  lemma SuccessorRank(U: seq<nat>, n: seq<nat>, k: nat)
    requires |U| == |n| && k < |n|
    requires forall m :: k < m < |n| ==> n[m] >= 1 && U[m] == n[m] - 1
    ensures Rank(U[..k] + [U[k] + 1] + Zeros(|n| - k - 1), n) == Rank(U, n) + 1
  {
    var V := U[..k] + [U[k] + 1] + Zeros(|n| - k - 1);
    RankSplit(U, n, k + 1);
    RankSplit(V, n, k + 1);
    SuccessorPieces(U, n, k);
    RankIncrementLast(U[..k + 1], n[..k + 1]);
    RankOfZeros(n[k + 1..]);
    SuffixLargest(U, n, k);
    CarryArithmetic(Rank(U, n), Rank(V, n), Rank(U[..k + 1], n[..k + 1]), Rank(U[k + 1..], n[k + 1..]),
      Rank(V[..k + 1], n[..k + 1]), Rank(V[k + 1..], n[k + 1..]), Prod(n[k + 1..]));
  }

  lemma SuccessorPieces(U: seq<nat>, n: seq<nat>, k: nat)
    requires |U| == |n| && k < |n|
    ensures var V := U[..k] + [U[k] + 1] + Zeros(|n| - k - 1);
      V[..k + 1] == U[..k + 1][..k] + [U[..k + 1][k] + 1] && V[k + 1..] == Zeros(|n[k + 1..]|)
  {
    var V := U[..k] + [U[k] + 1] + Zeros(|n| - k - 1);
    assert V[..k + 1] == U[..k] + [U[k] + 1];
    assert U[..k + 1][..k] == U[..k];
  }

  /** Digits all at their maximum after axis `k` rank one below the size of that sub-box. */
  lemma SuffixLargest(U: seq<nat>, n: seq<nat>, k: nat)
    requires |U| == |n| && k < |n|
    requires forall m :: k < m < |n| ==> n[m] >= 1 && U[m] == n[m] - 1
    ensures Rank(U[k + 1..], n[k + 1..]) + 1 == Prod(n[k + 1..])
  {
    var B, nb := U[k + 1..], n[k + 1..];
    forall m | 0 <= m < |nb| ensures nb[m] >= 1 && B[m] == nb[m] - 1 {
      assert nb[m] == n[k + 1 + m] && B[m] == U[k + 1 + m];
    }
    RankOfLargest(B, nb);
  }

  lemma CarryArithmetic(ru: nat, rv: nat, ra: nat, rb: nat, ra': nat, rb': nat, p: nat)
    requires ru == ra * p + rb && rv == ra' * p + rb'
    requires rb + 1 == p && ra' == ra + 1 && rb' == 0
    ensures rv == ru + 1
  {
    assert (ra + 1) * p == ra * p + p;
  }

  /**
   * Incrementing digit `k` of the `t`-th multi-index while every later digit is
   * at its maximum (and so resets to zero) gives the `t+1`-th one.
   */
  lemma SuccessorWithCarry(t: nat, n: seq<nat>, k: nat)
    requires Radices(n) && t < Prod(n) && k < |n|
    requires Unrank(t, n)[k] + 1 < n[k]
    requires forall m :: k < m < |n| ==> Unrank(t, n)[m] == n[m] - 1
    ensures t + 1 < Prod(n)
    ensures Unrank(t + 1, n) == Unrank(t, n)[..k] + [Unrank(t, n)[k] + 1] + Zeros(|n| - k - 1)
  {
    UnrankInRange(t, n);
    RankOfUnrank(t, n);
    DigitSuccessor(Unrank(t, n), n, k);
  }

  /** The same step stated on the digits themselves. */
  lemma DigitSuccessor(U: seq<nat>, n: seq<nat>, k: nat)
    requires Radices(n) && InRange(U, n) && k < |n| && U[k] + 1 < n[k]
    requires forall m :: k < m < |n| ==> U[m] == n[m] - 1
    ensures Rank(U, n) + 1 < Prod(n)
    ensures Unrank(Rank(U, n) + 1, n) == U[..k] + [U[k] + 1] + Zeros(|n| - k - 1)
  {
    var V := U[..k] + [U[k] + 1] + Zeros(|n| - k - 1);
    SuccessorRank(U, n, k);
    forall m | 0 <= m < |n| ensures V[m] < n[m] {
      if m < k {
        assert V[m] == U[m];
      } else if m > k {
        assert V[m] == 0;
      }
    }
    RankBound(V, n);
    UnrankOfRank(V, n);
  }

  /** The box element after the `t`-th: digit `k` one higher, the start value after it, unchanged before it. */
  lemma BoxSuccessor(t: nat, start: seq<nat>, end: seq<nat>, k: nat, C: seq<nat>)
    requires NonemptyBox(start, end) && t < BoxSize(start, end) && k < |start| == |C|
    requires forall m :: k < m < |C| ==> Unrank(t, Extent(start, end))[m] + 1 == Extent(start, end)[m] && C[m] == start[m]
    requires forall m :: 0 <= m < k ==> C[m] == start[m] + Unrank(t, Extent(start, end))[m]
    requires C[k] == start[k] + Unrank(t, Extent(start, end))[k] + 1 < end[k]
    ensures t + 1 < BoxSize(start, end) && C == BoxElem(t + 1, start, end)
  {
    var e := Extent(start, end);
    var U := Unrank(t, e);
    SuccessorWithCarry(t, e, k);
    var V := Unrank(t + 1, e);
    forall m | 0 <= m < |C| ensures C[m] == start[m] + V[m] {
      if m > k {
        assert V[m] == 0;
      }
    }
  }

  /** When every digit is at its maximum, the multi-index is the last of the box. */
  lemma LastOfBox(t: nat, n: seq<nat>)
    requires Radices(n) && t < Prod(n)
    requires forall m :: 0 <= m < |n| ==> Unrank(t, n)[m] + 1 == n[m]
    ensures t + 1 == Prod(n)
  {
    RankOfLargest(Unrank(t, n), n);
    RankOfUnrank(t, n);
  }

  /** A fresh multi-index buffer holding `start`. */
  method StartIndex(start: seq<nat>) returns (i: array<nat>)
    ensures fresh(i) && i[..] == start
  {
    i := new nat[|start|];
    forall m | 0 <= m < |start| {
      i[m] := start[m];
    }
  }

  /**
   * `next_lexicographic(cur, start, end)`: advance `cur` to the next multi-index of
   * the box `[start, end)`, last axis fastest, carrying into earlier axes; report
   * whether there was one.
   */
  method NextLexicographic(cur: array<nat>, start: seq<nat>, end: seq<nat>, ghost t: nat) returns (more: bool)
    requires NonemptyBox(start, end) && cur.Length == |start|
    requires t < BoxSize(start, end) && cur[..] == BoxElem(t, start, end)
    modifies cur
    ensures more <==> t + 1 < BoxSize(start, end)
    ensures more ==> cur[..] == BoxElem(t + 1, start, end)
  {
    ghost var e := Extent(start, end);
    ghost var U := Unrank(t, e);
    UnrankInRange(t, e);
    var k := cur.Length - 1;
    while true
      invariant 0 <= k < cur.Length
      invariant forall m :: k < m < cur.Length ==> U[m] + 1 == e[m] && cur[m] == start[m]
      invariant forall m :: 0 <= m <= k ==> cur[m] == start[m] + U[m]
      decreases k
    {
      cur[k] := cur[k] + 1;
      if cur[k] < end[k] {
        BoxSuccessor(t, start, end, k, cur[..]);
        return true;
      }
      cur[k] := start[k];
      if k == 0 {
        LastOfBox(t, e);
        return false;
      }
      k := k - 1;
    }
  }
}
