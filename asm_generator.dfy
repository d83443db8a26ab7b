/**
 * The emitting half of the assembler generator: the assignment of a local
 * variable from the generated code of its expression (`gen_assign`) and the
 * prologue of the entry routine with its per-axis support intersection
 * (`gen_entry_impl_header`). Both append lines to the generator's `CodeGen`.
 */
module AsmGen {
  import opened Text
  import opened Wrappers
  import opened CodeGenerator
  import Indexing

  // ---------------------------------------------------------------------
  // gen_assign

  /** A local variable of the form; a symmetric matrix stores only its upper triangle. */
  datatype FieldVar = FieldVar(name: string, symmetric: bool)

  /** The generated code of an expression, by shape: scalar, vector, or `m`-by-`n` matrix. */
  datatype ExprCode =
    | ScalarCode(code: string)
    | VectorCode(comps: seq<string>)
    | MatrixCode(m: nat, n: nat, entries: seq<seq<string>>)

  predicate WellShaped(e: ExprCode)
  {
    e.MatrixCode? ==> |e.entries| == e.m && forall i :: 0 <= i < e.m ==> |e.entries[i]| == e.n
  }

  /** `name = rhs`, or `name[slot] = rhs` into the variable's flat storage. */
  datatype Assignment = Assignment(name: string, slot: Option<nat>, rhs: string)

  function AssignText(a: Assignment): string
  {
    match a.slot
    case Some(k) => a.name + "[" + NatToString(k) + "] = " + a.rhs
    case None => a.name + " = " + a.rhs
  }

  /** Where matrix entry `(i, j)` is stored: row-major over `n` columns, or the source's `i*m + j`. */
  datatype Layout = RowMajor | AsWritten

  function Slot(layout: Layout, i: nat, j: nat, m: nat, n: nat): nat
  {
    match layout
    case RowMajor => i * n + j
    case AsWritten => i * m + j
  }

  function VectorAssigns(name: string, comps: seq<string>, count: nat): (r: seq<Assignment>)
    requires count <= |comps|
    ensures |r| == count
  {
    if count == 0 then []
    else VectorAssigns(name, comps, count - 1) + [Assignment(name, Some(count - 1), comps[count - 1])]
  }

  /** The assignment of entry `(i, j)`: none below the diagonal of a symmetric variable. */
  function EntryAssign(v: FieldVar, layout: Layout, m: nat, n: nat, row: seq<string>, i: nat, j: nat): seq<Assignment>
    requires j < |row|
  {
    if v.symmetric && i > j then [] else [Assignment(v.name, Some(Slot(layout, i, j, m, n)), row[j])]
  }

  /** Columns `0 .. cols-1` of row `i`, skipping `j < i` for a symmetric variable. */
  function RowAssigns(v: FieldVar, layout: Layout, m: nat, n: nat, row: seq<string>, i: nat, cols: nat): seq<Assignment>
    requires cols <= |row|
  {
    if cols == 0 then []
    else RowAssigns(v, layout, m, n, row, i, cols - 1) + EntryAssign(v, layout, m, n, row, i, cols - 1)
  }

  /** Rows `0 .. rows-1` of a matrix. */
  function MatrixAssigns(v: FieldVar, layout: Layout, m: nat, n: nat, entries: seq<seq<string>>, rows: nat): seq<Assignment>
    requires rows <= |entries| && forall i :: 0 <= i < |entries| ==> |entries[i]| == n
  {
    if rows == 0 then []
    else MatrixAssigns(v, layout, m, n, entries, rows - 1) + RowAssigns(v, layout, m, n, entries[rows - 1], rows - 1, n)
  }

  /** The assignments `gen_assign(var, expr)` emits, in order. */
  function Assignments(v: FieldVar, e: ExprCode, layout: Layout): seq<Assignment>
    requires WellShaped(e)
  {
    match e
    case ScalarCode(c) => [Assignment(v.name, None, c)]
    case VectorCode(comps) => VectorAssigns(v.name, comps, |comps|)
    case MatrixCode(m, n, entries) => MatrixAssigns(v, layout, m, n, entries, m)
  }

  function AssignLines(indentation: string, xs: seq<Assignment>): (r: seq<string>)
    ensures |r| == |xs|
  {
    seq(|xs|, k requires 0 <= k < |xs| => IndentedLine(indentation, AssignText(xs[k])))
  }

  lemma AssignLinesAppend(indentation: string, xs: seq<Assignment>, ys: seq<Assignment>)
    ensures AssignLines(indentation, xs + ys) == AssignLines(indentation, xs) + AssignLines(indentation, ys)
  {
  }

  /** Putting one more assignment appends its line to what is already there. */
  lemma AssignLinesSnoc(start: seq<string>, indentation: string, xs: seq<Assignment>, a: Assignment)
    ensures start + AssignLines(indentation, xs) + [IndentedLine(indentation, AssignText(a))]
            == start + AssignLines(indentation, xs + [a])
  {
    AssignLinesAppend(indentation, xs, [a]);
  }

  function Slots(xs: seq<Assignment>): (r: seq<Option<nat>>)
    ensures |r| == |xs|
  {
    seq(|xs|, k requires 0 <= k < |xs| => xs[k].slot)
  }

  lemma SlotsAppend(xs: seq<Assignment>, ys: seq<Assignment>)
    ensures Slots(xs + ys) == Slots(xs) + Slots(ys)
  {
  }

  /** Every assignment of a row-major row writes a stored entry of that row, within the matrix. */
  lemma {:induction false} RowAssignsWrite(v: FieldVar, m: nat, n: nat, row: seq<string>, i: nat, cols: nat)
    requires cols <= |row| == n && i < m
    ensures forall a :: a in RowAssigns(v, RowMajor, m, n, row, i, cols) ==>
              a.name == v.name && a.slot.Some? && a.slot.value < m * n && n > 0 &&
              a.slot.value / n == i && a.slot.value % n < cols &&
              !(v.symmetric && i > a.slot.value % n) && a.rhs == row[a.slot.value % n]
    decreases cols
  {
    if cols > 0 {
      RowAssignsWrite(v, m, n, row, i, cols - 1);
      Indexing.DivModOfMulAdd(i, n, cols - 1);
      Indexing.MulAddBound(i, cols - 1, m, n);
    }
  }

  /**
   * Assignment `a` writes a stored entry of the matrix into its row-major slot:
   * slot `s` receives entry `(s / n, s % n)`, which lies inside the matrix and,
   * for a symmetric variable, on or above the diagonal.
   */
  predicate WritesEntry(a: Assignment, v: FieldVar, m: nat, n: nat, entries: seq<seq<string>>)
    requires |entries| == m && forall i :: 0 <= i < m ==> |entries[i]| == n
  {
    a.name == v.name && a.slot.Some? && n > 0 && a.slot.value < m * n && a.slot.value / n < m &&
    !(v.symmetric && a.slot.value / n > a.slot.value % n) &&
    a.rhs == entries[a.slot.value / n][a.slot.value % n]
  }

  lemma RowEntryWrites(v: FieldVar, m: nat, n: nat, entries: seq<seq<string>>, r: nat, a: Assignment)
    requires |entries| == m && forall i :: 0 <= i < m ==> |entries[i]| == n
    requires r < m && a in RowAssigns(v, RowMajor, m, n, entries[r], r, n)
    ensures WritesEntry(a, v, m, n, entries) && a.slot.value / n == r
  {
    RowAssignsWrite(v, m, n, entries[r], r, n);
  }

  lemma {:induction false} MatrixAssignsWrite(v: FieldVar, m: nat, n: nat, entries: seq<seq<string>>, rows: nat)
    requires |entries| == m && forall i :: 0 <= i < m ==> |entries[i]| == n
    requires rows <= m
    ensures forall a :: a in MatrixAssigns(v, RowMajor, m, n, entries, rows) ==>
              WritesEntry(a, v, m, n, entries) && a.slot.value / n < rows
    decreases rows
  {
    if rows > 0 {
      var prev, row := MatrixAssigns(v, RowMajor, m, n, entries, rows - 1), RowAssigns(v, RowMajor, m, n, entries[rows - 1], rows - 1, n);
      assert MatrixAssigns(v, RowMajor, m, n, entries, rows) == prev + row;
      MatrixAssignsWrite(v, m, n, entries, rows - 1);
      forall a | a in row
        ensures WritesEntry(a, v, m, n, entries) && a.slot.value / n <= rows - 1
      {
        RowEntryWrites(v, m, n, entries, rows - 1, a);
      }
      WritesConcat(v, m, n, entries, prev, row, rows - 1);
    }
  }

  lemma WritesConcat(v: FieldVar, m: nat, n: nat, entries: seq<seq<string>>, prev: seq<Assignment>, row: seq<Assignment>, r: nat)
    requires |entries| == m && forall i :: 0 <= i < m ==> |entries[i]| == n
    requires forall a :: a in prev ==> WritesEntry(a, v, m, n, entries) && a.slot.value / n < r
    requires forall a :: a in row ==> WritesEntry(a, v, m, n, entries) && a.slot.value / n <= r
    ensures forall a :: a in prev + row ==> WritesEntry(a, v, m, n, entries) && a.slot.value / n < r + 1
  {
  }

  /** Within the block of row `r`, the column is `t - r*n`; blocks are `n` apart. */
  lemma RowBlock(symmetric: bool, r: nat, t: nat, n: nat)
    requires n > 0
    ensures (r * n <= t < r * n + n && !(symmetric && r > t - r * n))
            <==> (r * n <= t < r * n + n && !(symmetric && t / n > t % n))
    ensures r * n + n == (r + 1) * n
  {
    if r * n <= t < r * n + n {
      Indexing.DivModOfMulAdd(r, n, t - r * n);
    }
  }

  /** Row `r`'s first `cols` columns hold slot `t` once when `t` is one of their stored entries. */
  lemma {:induction false} RowSlotCount(v: FieldVar, m: nat, n: nat, row: seq<string>, r: nat, cols: nat, t: nat)
    requires cols <= |row| == n
    ensures Count(Slots(RowAssigns(v, RowMajor, m, n, row, r, cols)), Some(t))
            == if r * n <= t < r * n + cols && !(v.symmetric && r > t - r * n) then 1 else 0
    decreases cols
  {
    if cols > 0 {
      var target: Option<nat> := Some(t);
      var prev, last := RowAssigns(v, RowMajor, m, n, row, r, cols - 1), EntryAssign(v, RowMajor, m, n, row, r, cols - 1);
      RowSlotCount(v, m, n, row, r, cols - 1, t);
      EntrySlotCount(v, m, n, row, r, cols - 1, t);
      SlotsAppend(prev, last);
      CountAppend<Option<nat>>(Slots(prev), Slots(last), target);
      var base := r * n;
      assert (base <= t < base + cols && !(v.symmetric && r > t - base)) <==>
        (base <= t < base + cols - 1 && !(v.symmetric && r > t - base)) ||
        (t == base + cols - 1 && !(v.symmetric && r > cols - 1));
    }
  }

  lemma EntrySlotCount(v: FieldVar, m: nat, n: nat, row: seq<string>, r: nat, c: nat, t: nat)
    requires c < |row| == n
    ensures Count(Slots(EntryAssign(v, RowMajor, m, n, row, r, c)), Some(t))
            == if t == r * n + c && !(v.symmetric && r > c) then 1 else 0
  {
    var last := EntryAssign(v, RowMajor, m, n, row, r, c);
    if last != [] {
      assert Slots(last) == [Some(r * n + c)];
      assert Slots(last)[..0] == [];
    }
  }

  /** The first `rows` rows hold slot `t` once when it is a stored entry among them, and never otherwise. */
  lemma {:induction false} MatrixSlotCount(v: FieldVar, m: nat, n: nat, entries: seq<seq<string>>, rows: nat, t: nat)
    requires |entries| == m && forall r :: 0 <= r < m ==> |entries[r]| == n
    requires rows <= m && n > 0
    ensures Count(Slots(MatrixAssigns(v, RowMajor, m, n, entries, rows)), Some(t))
            == if t < rows * n && !(v.symmetric && t / n > t % n) then 1 else 0
    decreases rows
  {
    var target: Option<nat> := Some(t);
    if rows == 0 {
      assert MatrixAssigns(v, RowMajor, m, n, entries, rows) == [];
      assert rows * n == 0;
    } else {
      var r := rows - 1;
      var prev := MatrixAssigns(v, RowMajor, m, n, entries, r);
      var row := RowAssigns(v, RowMajor, m, n, entries[r], r, n);
      assert MatrixAssigns(v, RowMajor, m, n, entries, rows) == prev + row;
      MatrixSlotCount(v, m, n, entries, r, t);
      RowSlotCount(v, m, n, entries[r], r, n, t);
      SlotsAppend(prev, row);
      CountAppend<Option<nat>>(Slots(prev), Slots(row), target);
      var cp, cr := Count(Slots(prev), target), Count(Slots(row), target);
      assert Count(Slots(MatrixAssigns(v, RowMajor, m, n, entries, rows)), target) == cp + cr;
      SlotCountStep(v.symmetric, r, rows, n, t, cp, cr);
    }
  }

  /** The count over `r` rows plus row `r`'s count is the count over `r + 1` rows. */
  lemma SlotCountStep(symmetric: bool, r: nat, rows: nat, n: nat, t: nat, prev: nat, row: nat)
    requires n > 0 && rows == r + 1
    requires prev == if t < r * n && !(symmetric && t / n > t % n) then 1 else 0
    requires row == if r * n <= t < r * n + n && !(symmetric && r > t - r * n) then 1 else 0
    ensures prev + row == if t < rows * n && !(symmetric && t / n > t % n) then 1 else 0
  {
    RowBlock(symmetric, r, t, n);
  }

  /**
   * A matrix assignment writes every stored entry exactly once and nothing
   * else: slot `i*n + j` receives entry `(i, j)` once when it is stored (all
   * entries, or only `i <= j` for a symmetric variable) and never otherwise,
   * and every slot lies inside the `m*n` doubles declared for the variable.
   */
  lemma MatrixAssignsCoverage(v: FieldVar, m: nat, n: nat, entries: seq<seq<string>>)
    requires WellShaped(MatrixCode(m, n, entries))
    ensures var xs := Assignments(v, MatrixCode(m, n, entries), RowMajor);
            (forall a :: a in xs ==> WritesEntry(a, v, m, n, entries)) &&
            (forall s: nat :: s < m * n ==>
               n > 0 && Count(Slots(xs), Some(s)) == if v.symmetric && s / n > s % n then 0 else 1)
  {
    MatrixAssignsWrite(v, m, n, entries, m);
    forall s: nat | s < m * n
      ensures n > 0 && Count(Slots(MatrixAssigns(v, RowMajor, m, n, entries, m)), Some(s))
              == if v.symmetric && s / n > s % n then 0 else 1
    {
      assert n > 0;
      MatrixSlotCount(v, m, n, entries, m, s);
    }
  }

  lemma {:induction false} RowAssignsLength(v: FieldVar, layout: Layout, m: nat, n: nat, row: seq<string>, i: nat, cols: nat)
    requires cols <= |row|
    ensures |RowAssigns(v, layout, m, n, row, i, cols)| ==
            if !v.symmetric then cols else if cols > i then cols - i else 0
    decreases cols
  {
    if cols > 0 {
      RowAssignsLength(v, layout, m, n, row, i, cols - 1);
    }
  }

  lemma {:induction false} MatrixAssignsLength(v: FieldVar, layout: Layout, m: nat, n: nat, entries: seq<seq<string>>, rows: nat)
    requires rows <= |entries| && forall i :: 0 <= i < |entries| ==> |entries[i]| == n
    requires v.symmetric ==> rows <= n
    ensures !v.symmetric ==> |MatrixAssigns(v, layout, m, n, entries, rows)| == rows * n
    ensures v.symmetric ==> 2 * |MatrixAssigns(v, layout, m, n, entries, rows)| == 2 * rows * n - rows * (rows - 1)
    decreases rows
  {
    if rows > 0 {
      MatrixAssignsLength(v, layout, m, n, entries, rows - 1);
      RowAssignsLength(v, layout, m, n, entries[rows - 1], rows - 1, n);
      var prev := |MatrixAssigns(v, layout, m, n, entries, rows - 1)|;
      var row := |RowAssigns(v, layout, m, n, entries[rows - 1], rows - 1, n)|;
      assert |MatrixAssigns(v, layout, m, n, entries, rows)| == prev + row;
      if v.symmetric {
        TriangleStep(prev, row, rows, n);
      } else {
        assert prev + n == rows * n;
      }
    }
  }

  lemma TriangleStep(prev: nat, row: nat, rows: nat, n: nat)
    requires 1 <= rows <= n && row == n - (rows - 1)
    requires 2 * prev == 2 * (rows - 1) * n - (rows - 1) * (rows - 2)
    ensures 2 * (prev + row) == 2 * rows * n - rows * (rows - 1)
  {
  }

  /**
   * `gen_assign` emits one line for a scalar, one per component (into slot `k`)
   * for a vector, `m*n` lines for a matrix, and `m(m+1)/2` for a symmetric
   * square matrix.
   */
  lemma AssignmentCounts(v: FieldVar, e: ExprCode, layout: Layout)
    requires WellShaped(e)
    ensures e.ScalarCode? ==> Assignments(v, e, layout) == [Assignment(v.name, None, e.code)]
    ensures e.VectorCode? ==>
              (|Assignments(v, e, layout)| == |e.comps| &&
               forall k :: 0 <= k < |e.comps| ==> Assignments(v, e, layout)[k] == Assignment(v.name, Some(k), e.comps[k]))
    ensures e.MatrixCode? && !v.symmetric ==> |Assignments(v, e, layout)| == e.m * e.n
    ensures e.MatrixCode? && v.symmetric && e.m == e.n ==> 2 * |Assignments(v, e, layout)| == e.m * (e.m + 1)
  {
    match e
    case ScalarCode(_) =>
    case VectorCode(comps) => VectorAssignsComponents(v.name, comps, |comps|);
    case MatrixCode(m, n, entries) =>
      if !v.symmetric || m == n {
        MatrixCounts(v, layout, m, n, entries, |MatrixAssigns(v, layout, m, n, entries, m)|);
      }
  }

  lemma MatrixCounts(v: FieldVar, layout: Layout, m: nat, n: nat, entries: seq<seq<string>>, len: nat)
    requires |entries| == m && forall i :: 0 <= i < m ==> |entries[i]| == n
    requires !v.symmetric || m == n
    requires len == |MatrixAssigns(v, layout, m, n, entries, m)|
    ensures !v.symmetric ==> len == m * n
    ensures v.symmetric ==> 2 * len == m * (m + 1)
  {
    MatrixAssignsLength(v, layout, m, n, entries, m);
    if v.symmetric {
      TriangleCount(m, len);
    }
  }

  lemma TriangleCount(m: nat, len: nat)
    requires 2 * len == 2 * m * m - m * (m - 1)
    ensures 2 * len == m * (m + 1)
  {
    assert m * (m - 1) == m * m - m;
    assert m * (m + 1) == m * m + m;
  }

  lemma {:induction false} VectorAssignsComponents(name: string, comps: seq<string>, count: nat)
    requires count <= |comps|
    ensures forall k :: 0 <= k < count ==> VectorAssigns(name, comps, count)[k] == Assignment(name, Some(k), comps[k])
    decreases count
  {
    if count > 0 {
      VectorAssignsComponents(name, comps, count - 1);
    }
  }

  /** On a square matrix the source's slot `i*m + j` is the row-major one. */
  lemma {:induction false} LayoutsAgreeOnSquare(v: FieldVar, m: nat, entries: seq<seq<string>>, rows: nat)
    requires rows <= |entries| && forall i :: 0 <= i < |entries| ==> |entries[i]| == m
    ensures MatrixAssigns(v, AsWritten, m, m, entries, rows) == MatrixAssigns(v, RowMajor, m, m, entries, rows)
    decreases rows
  {
    if rows > 0 {
      LayoutsAgreeOnSquare(v, m, entries, rows - 1);
      RowLayoutsAgree(v, m, entries[rows - 1], rows - 1, m);
    }
  }

  lemma {:induction false} RowLayoutsAgree(v: FieldVar, m: nat, row: seq<string>, i: nat, cols: nat)
    requires cols <= |row|
    ensures RowAssigns(v, AsWritten, m, m, row, i, cols) == RowAssigns(v, RowMajor, m, m, row, i, cols)
    decreases cols
  {
    if cols > 0 {
      RowLayoutsAgree(v, m, row, i, cols - 1);
    }
  }

  /**
   * With the source's slot `i*m + j`, a 2-by-3 matrix writes entries `(0,2)`
   * and `(1,0)` both to slot 2: the fourth entry overwrites the third, and
   * the last of the six slots is never written.
   */
  lemma AsWrittenSlotsCollide(name: string, entries: seq<seq<string>>)
    requires |entries| == 2 && |entries[0]| == 3 && |entries[1]| == 3
    ensures var xs := Assignments(FieldVar(name, false), MatrixCode(2, 3, entries), AsWritten);
            |xs| == 6 &&
            xs[2] == Assignment(name, Some(2), entries[0][2]) &&
            xs[3] == Assignment(name, Some(2), entries[1][0]) &&
            forall k :: 0 <= k < 6 ==> xs[k].slot != Some(5)
  {
    var v := FieldVar(name, false);
    var r0 := RowAssigns(v, AsWritten, 2, 3, entries[0], 0, 3);
    var r1 := RowAssigns(v, AsWritten, 2, 3, entries[1], 1, 3);
    AsWrittenRowOfThree(v, entries[0], 0);
    AsWrittenRowOfThree(v, entries[1], 1);
    assert MatrixAssigns(v, AsWritten, 2, 3, entries, 1) == r0;
    assert MatrixAssigns(v, AsWritten, 2, 3, entries, 2) == r0 + r1;
    assert (r0 + r1)[2] == r0[2] && (r0 + r1)[3] == r1[0];
  }

  /** Row `i` of a 2-by-3 matrix under the source's slot writes slots `2i`, `2i+1`, `2i+2`. */
  lemma AsWrittenRowOfThree(v: FieldVar, e: seq<string>, i: nat)
    requires !v.symmetric && |e| == 3
    ensures RowAssigns(v, AsWritten, 2, 3, e, i, 3) ==
            [Assignment(v.name, Some(2 * i), e[0]), Assignment(v.name, Some(2 * i + 1), e[1]),
             Assignment(v.name, Some(2 * i + 2), e[2])]
  {
    assert RowAssigns(v, AsWritten, 2, 3, e, i, 1) == [Assignment(v.name, Some(2 * i), e[0])];
    assert RowAssigns(v, AsWritten, 2, 3, e, i, 2) ==
           [Assignment(v.name, Some(2 * i), e[0]), Assignment(v.name, Some(2 * i + 1), e[1])];
  }

  // ---------------------------------------------------------------------
  // gen_entry_impl_header

  /** A basis function of the form and the index of the space it belongs to. */
  datatype BasisFun = BasisFun(name: string, space: nat)

  /** The lines of the entry routine's header, by what each one says. */
  datatype HeaderLine =
    | Pragma(which: nat)
    | FuncDecl
    | LocalDecl(which: nat)
    | ValuesDecl(bf: BasisFun)
    | SupportOf(axis: nat, p: (string, BasisFun))
    | IntersectOpen
    | IntersectArg(axis: nat, p: (string, BasisFun))
    | IntersectClose
    | EmptySupportReturn
    | GaussStart(axis: nat)
    | GaussEnd(axis: nat)
    | TablePointer(axis: nat, p: (string, BasisFun))
    | Blank

  /** A vector assembler's result array starts zeroed, so its early return has no value. */
  function ZeroRet(vec: bool): string
  {
    if vec then "" else "0.0"
  }

  function Guard(vec: bool): string
  {
    "if intv.a >= intv.b: return " + ZeroRet(vec) + "  # no intersection of support"
  }

  function MeshSupp(k: nat, p: (string, BasisFun), col: nat): string
  {
    "self.S" + NatToString(p.1.space) + ".meshsupp" + NatToString(k) + "[" + p.0 + "[" + NatToString(k) + "]," + NatToString(col) + "]"
  }

  function MakeIntv(k: nat, p: (string, BasisFun)): string
  {
    "make_intv(" + MeshSupp(k, p, 0) + ", " + MeshSupp(k, p, 1) + ")"
  }

  /** The text of a header line of a routine over `dim` axes. */
  function LineText(l: HeaderLine, vec: bool, dim: nat): string
  {
    var d := NatToString(dim);
    match l
    case Pragma(w) =>
      if w == 0 then "@cython.boundscheck(False)"
      else if w == 1 then "@cython.wraparound(False)"
      else "@cython.initializedcheck(False)"
    case FuncDecl =>
      if vec then "cdef void entry_impl(self, size_t[" + d + "] i, size_t[" + d + "] j, double result[]) nogil:"
      else "cdef double entry_impl(self, size_t[" + d + "] i, size_t[" + d + "] j) nogil:"
    case LocalDecl(w) =>
      if w == 0 then "cdef int k"
      else if w == 1 then "cdef IntInterval intv"
      else if w == 2 then "cdef size_t g_sta[" + d + "]"
      else "cdef size_t g_end[" + d + "]"
    case ValuesDecl(bf) => "cdef (double*) values_" + bf.name + "[" + d + "]"
    case SupportOf(k, p) => "intv = " + MakeIntv(k, p)
    case IntersectOpen => "intv = intersect_intervals("
    case IntersectArg(k, p) => MakeIntv(k, p) + ","
    case IntersectClose => ")"
    case EmptySupportReturn => Guard(vec)
    case GaussStart(k) => "g_sta[" + NatToString(k) + "] = self.nqp * intv.a    # start of Gauss nodes"
    case GaussEnd(k) => "g_end[" + NatToString(k) + "] = self.nqp * intv.b    # end of Gauss nodes"
    case TablePointer(k, p) =>
      var ks := NatToString(k);
      "values_" + p.1.name + "[" + ks + "] = &self.S" + NatToString(p.1.space) + ".C" + ks + "[ " + p.0 + "[" + ks + "], g_sta[" + ks + "], 0 ]"
    case Blank => ""
  }

  /** Only the early return reads as the early return. */
  lemma GuardTextUnique(l: HeaderLine, vec: bool, dim: nat)
    ensures LineText(l, vec, dim) == Guard(vec) <==> l == EmptySupportReturn
  {
    if l.Pragma? || l.FuncDecl? || l.LocalDecl? || l.ValuesDecl? {
      DeclNotGuard(l, vec, dim);
    } else if l.SupportOf? || l.IntersectOpen? || l.IntersectArg? || l.IntersectClose? {
      IntervalNotGuard(l, vec, dim);
    } else if !l.EmptySupportReturn? {
      AxisNotGuard(l, vec, dim);
    }
  }

  lemma DeclNotGuard(l: HeaderLine, vec: bool, dim: nat)
    requires l.Pragma? || l.FuncDecl? || l.LocalDecl? || l.ValuesDecl?
    ensures LineText(l, vec, dim) != Guard(vec)
  {
    var g, t := Guard(vec), LineText(l, vec, dim);
    assert g[0] == 'i';
    if l.Pragma? {
      assert t[0] == '@';
    } else {
      assert t[0] == 'c';
    }
  }

  lemma IntervalNotGuard(l: HeaderLine, vec: bool, dim: nat)
    requires l.SupportOf? || l.IntersectOpen? || l.IntersectArg? || l.IntersectClose?
    ensures LineText(l, vec, dim) != Guard(vec)
  {
    var g, t := Guard(vec), LineText(l, vec, dim);
    assert g[1] == 'f';
    if l.IntersectArg? {
      assert t[1] == 'a';
    } else if l.IntersectClose? {
      assert |t| == 1;
    } else {
      assert t[1] == 'n';
    }
  }

  lemma AxisNotGuard(l: HeaderLine, vec: bool, dim: nat)
    requires l.GaussStart? || l.GaussEnd? || l.TablePointer? || l.Blank?
    ensures LineText(l, vec, dim) != Guard(vec)
  {
    var g, t := Guard(vec), LineText(l, vec, dim);
    assert g[0] == 'i';
    if l.Blank? {
      assert |t| == 0;
    } else if l.TablePointer? {
      assert t[0] == 'v';
    } else {
      assert t[0] == 'g';
    }
  }

  /** A line at `depth` indentation units below the routine's own indentation. */
  datatype Emitted = At(depth: nat, line: HeaderLine)

  function RenderAt(base: string, e: Emitted, vec: bool, dim: nat): string
  {
    IndentedLine(base + Repeat(INDENT_UNIT, e.depth), LineText(e.line, vec, dim))
  }

  function RenderAll(base: string, es: seq<Emitted>, vec: bool, dim: nat): (r: seq<string>)
    ensures |r| == |es|
  {
    seq(|es|, k requires 0 <= k < |es| => RenderAt(base, es[k], vec, dim))
  }

  lemma RenderAllAppend(base: string, es: seq<Emitted>, fs: seq<Emitted>, vec: bool, dim: nat)
    ensures RenderAll(base, es + fs, vec, dim) == RenderAll(base, es, vec, dim) + RenderAll(base, fs, vec, dim)
  {
  }

  /** Rendering one more line appends its text to what is already there. */
  lemma RenderSnoc(start: seq<string>, base: string, es: seq<Emitted>, e: Emitted, vec: bool, dim: nat)
    ensures start + RenderAll(base, es, vec, dim) + [RenderAt(base, e, vec, dim)] == start + RenderAll(base, es + [e], vec, dim)
  {
    RenderAllAppend(base, es, [e], vec, dim);
  }

  /** The line texts without indentation. */
  function Texts(es: seq<Emitted>, vec: bool, dim: nat): (r: seq<string>)
    ensures |r| == |es|
  {
    seq(|es|, k requires 0 <= k < |es| => LineText(es[k].line, vec, dim))
  }

  function Kinds(es: seq<Emitted>): (r: seq<HeaderLine>)
    ensures |r| == |es|
  {
    seq(|es|, k requires 0 <= k < |es| => es[k].line)
  }

  lemma KindsAppend(es: seq<Emitted>, fs: seq<Emitted>)
    ensures Kinds(es + fs) == Kinds(es) + Kinds(fs)
  {
  }

  /** Counting the early return among the texts is counting it among the lines. */
  lemma {:induction false} GuardCountByKind(es: seq<Emitted>, vec: bool, dim: nat)
    ensures Count(Texts(es, vec, dim), Guard(vec)) == Count(Kinds(es), EmptySupportReturn)
    decreases |es|
  {
    if |es| > 0 {
      var init := es[..|es| - 1];
      assert Texts(es, vec, dim)[..|es| - 1] == Texts(init, vec, dim);
      assert Kinds(es)[..|es| - 1] == Kinds(init);
      GuardCountByKind(init, vec, dim);
      GuardTextUnique(es[|es| - 1].line, vec, dim);
    }
  }

  function ValuesDecls(bfs: seq<BasisFun>, count: nat): (r: seq<Emitted>)
    requires count <= |bfs|
    ensures |r| == count
  {
    if count == 0 then [] else ValuesDecls(bfs, count - 1) + [At(1, ValuesDecl(bfs[count - 1]))]
  }

  /** One basis function more: its pointer declaration follows what was emitted so far. */
  lemma ValuesDeclsSnoc(done: seq<Emitted>, bfs: seq<BasisFun>, count: nat)
    requires count < |bfs|
    ensures done + ValuesDecls(bfs, count) + [At(1, ValuesDecl(bfs[count]))] == done + ValuesDecls(bfs, count + 1)
  {
    AppendAssoc(done, ValuesDecls(bfs, count), [At(1, ValuesDecl(bfs[count]))]);
  }

  /** The three pragmas and the routine's signature. */
  function Signature(): seq<Emitted>
  {
    [At(0, Pragma(0)), At(0, Pragma(1)), At(0, Pragma(2)), At(0, FuncDecl)]
  }

  function Locals(): seq<Emitted>
  {
    [At(1, LocalDecl(0)), At(1, LocalDecl(1)), At(1, LocalDecl(2)), At(1, LocalDecl(3))]
  }

  /** Pragmas, signature and local declarations, emitted before the arity is examined. */
  function Prologue(bfs: seq<BasisFun>): seq<Emitted>
  {
    Signature() + Locals() + ValuesDecls(bfs, |bfs|)
  }

  /**
   * Which multi-index each basis function is evaluated at: `i` alone for a
   * linear form; for a bilinear form `a(phi_j, phi_i)` the first (trial)
   * function at `j` and the second (test) function at `i`, paired as `zip`
   * pairs them. Any other arity fails, and so does a linear form without a
   * basis function.
   */
  function IdxBfun(arity: int, bfs: seq<BasisFun>): (r: Option<seq<(string, BasisFun)>>)
    ensures r.Some? <==> arity == 2 || (arity == 1 && |bfs| >= 1)
    ensures r.Some? ==> |r.value| <= 2
  {
    if arity == 1 then (if |bfs| >= 1 then Some([("i", bfs[0])]) else None)
    else if arity == 2 then
      Some(if |bfs| >= 2 then [("j", bfs[0]), ("i", bfs[1])] else if |bfs| == 1 then [("j", bfs[0])] else [])
    else None
  }

  /** The first `count` arguments of `intersect_intervals`, two levels deeper. */
  function IntersectArgs(k: nat, pairs: seq<(string, BasisFun)>, count: nat): (r: seq<Emitted>)
    requires count <= |pairs|
    ensures |r| == count
  {
    if count == 0 then [] else IntersectArgs(k, pairs, count - 1) + [At(3, IntersectArg(k, pairs[count - 1]))]
  }

  /** The support interval of axis `k`: of one basis function, or the intersection of two with its early return. */
  function IntervalLines(k: nat, pairs: seq<(string, BasisFun)>): seq<Emitted>
  {
    if |pairs| == 1 then [At(1, SupportOf(k, pairs[0]))]
    else if |pairs| == 2 then [At(1, IntersectOpen)] + IntersectArgs(k, pairs, 2) + [At(1, IntersectClose), At(1, EmptySupportReturn)]
    else []
  }

  function TablePointers(k: nat, pairs: seq<(string, BasisFun)>, count: nat): (r: seq<Emitted>)
    requires count <= |pairs|
    ensures |r| == count
  {
    if count == 0 then [] else TablePointers(k, pairs, count - 1) + [At(1, TablePointer(k, pairs[count - 1]))]
  }

  function AxisBlock(k: nat, pairs: seq<(string, BasisFun)>): seq<Emitted>
  {
    IntervalLines(k, pairs) + [At(1, GaussStart(k)), At(1, GaussEnd(k))] + TablePointers(k, pairs, |pairs|)
  }

  function AxisBlocks(count: nat, pairs: seq<(string, BasisFun)>): seq<Emitted>
  {
    if count == 0 then [] else AxisBlocks(count - 1, pairs) + AxisBlock(count - 1, pairs)
  }

  lemma AxisBlocksSnoc(done: seq<Emitted>, k: nat, pairs: seq<(string, BasisFun)>)
    ensures done + AxisBlocks(k, pairs) + AxisBlock(k, pairs) == done + AxisBlocks(k + 1, pairs)
  {
  }

  /** One more column of a row-major row: nothing below the diagonal of a symmetric variable, else one assignment. */
  lemma RowAssignsSnoc(done: seq<Assignment>, v: FieldVar, m: nat, n: nat, row: seq<string>, i: nat, j: nat)
    requires j < |row|
    ensures v.symmetric && i > j ==> done + RowAssigns(v, RowMajor, m, n, row, i, j + 1) == done + RowAssigns(v, RowMajor, m, n, row, i, j)
    ensures !(v.symmetric && i > j) ==>
      done + RowAssigns(v, RowMajor, m, n, row, i, j + 1) ==
      done + RowAssigns(v, RowMajor, m, n, row, i, j) + [Assignment(v.name, Some(i * n + j), row[j])]
  {
  }

  lemma IntersectArgsSnoc(done: seq<Emitted>, k: nat, pairs: seq<(string, BasisFun)>, p: nat)
    requires p < |pairs|
    ensures done + IntersectArgs(k, pairs, p) + [At(3, IntersectArg(k, pairs[p]))] == done + IntersectArgs(k, pairs, p + 1)
  {
  }

  lemma IntervalLinesOfPair(done: seq<Emitted>, k: nat, pairs: seq<(string, BasisFun)>)
    requires |pairs| == 2
    ensures done + [At(1, IntersectOpen)] + IntersectArgs(k, pairs, 2) + [At(1, IntersectClose)] + [At(1, EmptySupportReturn)]
            == done + IntervalLines(k, pairs)
  {
  }

  lemma TablePointersSnoc(done: seq<Emitted>, k: nat, pairs: seq<(string, BasisFun)>, p: nat)
    requires p < |pairs|
    ensures done + TablePointers(k, pairs, p) + [At(1, TablePointer(k, pairs[p]))] == done + TablePointers(k, pairs, p + 1)
  {
  }

  lemma AxisBlockParts(done: seq<Emitted>, k: nat, pairs: seq<(string, BasisFun)>)
    ensures done + IntervalLines(k, pairs) + [At(1, GaussStart(k))] + [At(1, GaussEnd(k))] + TablePointers(k, pairs, |pairs|)
            == done + AxisBlock(k, pairs)
  {
  }

  /** The whole header of the entry routine over `dim` axes, ending with an empty line. */
  function EntryImplHeader(dim: nat, bfs: seq<BasisFun>, pairs: seq<(string, BasisFun)>): seq<Emitted>
  {
    Prologue(bfs) + AxisBlocks(dim, pairs) + [At(1, Blank)]
  }

  lemma {:induction false} ValuesDeclsNoGuard(bfs: seq<BasisFun>, count: nat)
    requires count <= |bfs|
    ensures Count(Kinds(ValuesDecls(bfs, count)), EmptySupportReturn) == 0
    decreases count
  {
    if count > 0 {
      ValuesDeclsNoGuard(bfs, count - 1);
      KindsAppend(ValuesDecls(bfs, count - 1), [At(1, ValuesDecl(bfs[count - 1]))]);
    }
  }

  lemma {:induction false} TablePointersNoGuard(k: nat, pairs: seq<(string, BasisFun)>, count: nat)
    requires count <= |pairs|
    ensures Count(Kinds(TablePointers(k, pairs, count)), EmptySupportReturn) == 0
    decreases count
  {
    if count > 0 {
      TablePointersNoGuard(k, pairs, count - 1);
      KindsAppend(TablePointers(k, pairs, count - 1), [At(1, TablePointer(k, pairs[count - 1]))]);
    }
  }

  /** Axis `k` emits the early return once when two basis functions are paired, and never otherwise. */
  lemma AxisBlockGuards(k: nat, pairs: seq<(string, BasisFun)>)
    ensures Count(Kinds(AxisBlock(k, pairs)), EmptySupportReturn) == if |pairs| == 2 then 1 else 0
  {
    var g := EmptySupportReturn;
    var intv, gs, ptrs := IntervalLines(k, pairs), [At(1, GaussStart(k)), At(1, GaussEnd(k))], TablePointers(k, pairs, |pairs|);
    KindsAppend(intv, gs);
    KindsAppend(intv + gs, ptrs);
    CountAppend(Kinds(intv), Kinds(gs), g);
    CountAppend(Kinds(intv) + Kinds(gs), Kinds(ptrs), g);
    CountAbsent(Kinds(gs), g);
    TablePointersNoGuard(k, pairs, |pairs|);
    if |pairs| == 2 {
      var front := intv[..4];
      assert intv == front + [At(1, g)];
      KindsAppend(front, [At(1, g)]);
      CountAppend(Kinds(front), [g], g);
      assert IntersectArgs(k, pairs, 2) == [At(3, IntersectArg(k, pairs[0])), At(3, IntersectArg(k, pairs[1]))];
      CountAbsent(Kinds(front), g);
      assert [g][..0] == [];
    } else {
      CountAbsent(Kinds(intv), g);
    }
  }

  lemma {:induction false} AxisBlocksGuards(count: nat, pairs: seq<(string, BasisFun)>)
    ensures Count(Kinds(AxisBlocks(count, pairs)), EmptySupportReturn) == if |pairs| == 2 then count else 0
    decreases count
  {
    if count > 0 {
      var prev, block := AxisBlocks(count - 1, pairs), AxisBlock(count - 1, pairs);
      AxisBlocksGuards(count - 1, pairs);
      AxisBlockGuards(count - 1, pairs);
      GuardCountConcat(prev, block, AxisBlocks(count, pairs));
    }
  }

  /** Counting early returns distributes over a concatenation of emitted lines. */
  lemma GuardCountConcat(prev: seq<Emitted>, block: seq<Emitted>, whole: seq<Emitted>)
    requires whole == prev + block
    ensures Count(Kinds(whole), EmptySupportReturn) ==
            Count(Kinds(prev), EmptySupportReturn) + Count(Kinds(block), EmptySupportReturn)
  {
    KindsAppend(prev, block);
    CountAppend(Kinds(prev), Kinds(block), EmptySupportReturn);
  }

  lemma PrologueNoGuard(bfs: seq<BasisFun>)
    ensures Count(Kinds(Prologue(bfs)), EmptySupportReturn) == 0
  {
    var g := EmptySupportReturn;
    var fixed := Signature() + Locals();
    KindsAppend(fixed, ValuesDecls(bfs, |bfs|));
    CountAppend(Kinds(fixed), Kinds(ValuesDecls(bfs, |bfs|)), g);
    CountAbsent(Kinds(fixed), g);
    ValuesDeclsNoGuard(bfs, |bfs|);
  }

  /**
   * The routine of a bilinear form whose two basis functions are present
   * returns early on an empty support intersection once per axis; the routine
   * of a linear form never does. The trial function is evaluated at `j` and
   * the test function at `i`.
   */
  lemma EntryHeaderGuards(vec: bool, dim: nat, arity: int, bfs: seq<BasisFun>)
    requires IdxBfun(arity, bfs).Some?
    ensures var pairs := IdxBfun(arity, bfs).value;
            Count(Texts(EntryImplHeader(dim, bfs, pairs), vec, dim), Guard(vec)) ==
              if arity == 2 && |bfs| >= 2 then dim else 0
    ensures arity == 2 && |bfs| >= 2 ==> IdxBfun(arity, bfs).value == [("j", bfs[0]), ("i", bfs[1])]
    ensures arity == 1 ==> IdxBfun(arity, bfs).value == [("i", bfs[0])]
  {
    var pairs := IdxBfun(arity, bfs).value;
    var g := EmptySupportReturn;
    var pro, blocks := Prologue(bfs), AxisBlocks(dim, pairs);
    PrologueNoGuard(bfs);
    AxisBlocksGuards(dim, pairs);
    KindsAppend(pro, blocks);
    KindsAppend(pro + blocks, [At(1, Blank)]);
    CountAppend(Kinds(pro), Kinds(blocks), g);
    CountAppend(Kinds(pro) + Kinds(blocks), [Blank], g);
    assert [Blank][..0] == [];
    GuardCountByKind(EntryImplHeader(dim, bfs, pairs), vec, dim);
  }

  // ---------------------------------------------------------------------
  // The generator

  /**
   * The per-form state of the generator that the two emitters read: the space
   * dimension, whether the form is vector-valued, its arity and basis
   * functions, and the line buffer they write to.
   */
  class AsmGenerator {
    const dim: nat
    const vec: bool
    const arity: int
    const basisFuns: seq<BasisFun>
    const code: CodeGen

    constructor (dim: nat, vec: bool, arity: int, basisFuns: seq<BasisFun>, code: CodeGen)
      ensures this.dim == dim && this.vec == vec && this.arity == arity
      ensures this.basisFuns == basisFuns && this.code == code
    {
      this.dim := dim;
      this.vec := vec;
      this.arity := arity;
      this.basisFuns := basisFuns;
      this.code := code;
    }

    /** `gen_assign(var, expr)`, with matrix entries stored row-major (see `AsWrittenSlotsCollide`). */
    method GenAssign(v: FieldVar, e: ExprCode)
      requires WellShaped(e)
      modifies code
      ensures code.lines == old(code.lines) + AssignLines(old(code.indentation), Assignments(v, e, RowMajor))
      ensures code.indentation == old(code.indentation)
    {
      ghost var ind, start := code.indentation, code.lines;
      assert start + AssignLines(ind, []) == start;
      match e {
        case ScalarCode(c) =>
          PutAssignment(Assignment(v.name, None, c), ind, start, []);
          assert [] + [Assignment(v.name, None, c)] == Assignments(v, e, RowMajor);
        case VectorCode(comps) =>
          GenAssignVector(v, comps, ind, start);
        case MatrixCode(m, n, entries) =>
          GenAssignMatrix(v, m, n, entries, ind, start);
      }
    }

    /** The vector branch of `gen_assign`: component `k` into slot `k`. */
    method GenAssignVector(v: FieldVar, comps: seq<string>, ghost ind: string, ghost start: seq<string>)
      requires code.indentation == ind && code.lines == start + AssignLines(ind, [])
      modifies code
      ensures code.lines == start + AssignLines(ind, VectorAssigns(v.name, comps, |comps|))
      ensures code.indentation == ind
    {
      var k := 0;
      while k < |comps|
        invariant 0 <= k <= |comps|
        invariant code.indentation == ind
        invariant code.lines == start + AssignLines(ind, VectorAssigns(v.name, comps, k))
      {
        PutAssignment(Assignment(v.name, Some(k), comps[k]), ind, start, VectorAssigns(v.name, comps, k));
        k := k + 1;
      }
    }

    /** The matrix branch of `gen_assign`: row by row. */
    method GenAssignMatrix(v: FieldVar, m: nat, n: nat, entries: seq<seq<string>>, ghost ind: string, ghost start: seq<string>)
      requires |entries| == m && forall i :: 0 <= i < m ==> |entries[i]| == n
      requires code.indentation == ind && code.lines == start + AssignLines(ind, [])
      modifies code
      ensures code.lines == start + AssignLines(ind, MatrixAssigns(v, RowMajor, m, n, entries, m))
      ensures code.indentation == ind
    {
      var i := 0;
      while i < m
        invariant 0 <= i <= m
        invariant code.indentation == ind
        invariant code.lines == start + AssignLines(ind, MatrixAssigns(v, RowMajor, m, n, entries, i))
      {
        GenAssignRow(v, m, n, entries[i], i, ind, start, MatrixAssigns(v, RowMajor, m, n, entries, i));
        assert MatrixAssigns(v, RowMajor, m, n, entries, i + 1) ==
               MatrixAssigns(v, RowMajor, m, n, entries, i) + RowAssigns(v, RowMajor, m, n, entries[i], i, n);
        i := i + 1;
      }
    }

    /** The inner loop of `gen_assign` over the columns of row `i`. */
    method GenAssignRow(v: FieldVar, m: nat, n: nat, row: seq<string>, i: nat,
                        ghost ind: string, ghost start: seq<string>, ghost done: seq<Assignment>)
      requires |row| == n
      requires code.indentation == ind && code.lines == start + AssignLines(ind, done)
      modifies code
      ensures code.lines == start + AssignLines(ind, done + RowAssigns(v, RowMajor, m, n, row, i, n))
      ensures code.indentation == ind
    {
      assert done + RowAssigns(v, RowMajor, m, n, row, i, 0) == done;
      var j := 0;
      while j < n
        invariant 0 <= j <= n
        invariant code.indentation == ind
        invariant code.lines == start + AssignLines(ind, done + RowAssigns(v, RowMajor, m, n, row, i, j))
      {
        ghost var sofar := done + RowAssigns(v, RowMajor, m, n, row, i, j);
        RowAssignsSnoc(done, v, m, n, row, i, j);
        if v.symmetric && i > j {
        } else {
          PutAssignment(Assignment(v.name, Some(i * n + j), row[j]), ind, start, sofar);
        }
        j := j + 1;
      }
    }

    /** One `put` of an assignment line after the assignments `done`. */
    method PutAssignment(a: Assignment, ghost ind: string, ghost start: seq<string>, ghost done: seq<Assignment>)
      requires code.indentation == ind && code.lines == start + AssignLines(ind, done)
      modifies code
      ensures code.lines == start + AssignLines(ind, done + [a])
      ensures code.indentation == ind
    {
      match a.slot {
        case Some(k) => code.Put(a.name + "[" + NatToString(k) + "] = " + a.rhs);
        case None => code.Put(a.name + " = " + a.rhs);
      }
      AssignLinesSnoc(start, ind, done, a);
    }

    /**
     * One `put` of a header line at `depth` units below `base`. The emitting
     * methods below carry the lines put before them as `start` followed by the
     * rendering of the header lines `done` so far.
     */
    method PutLine(l: HeaderLine, depth: nat, ghost base: string, ghost start: seq<string>, ghost done: seq<Emitted>)
      requires code.indentation == base + Repeat(INDENT_UNIT, depth)
      requires code.lines == start + RenderAll(base, done, vec, dim)
      modifies code
      ensures code.lines == start + RenderAll(base, done + [At(depth, l)], vec, dim)
      ensures code.indentation == old(code.indentation)
    {
      code.Put(LineText(l, vec, dim));
      RenderSnoc(start, base, done, At(depth, l), vec, dim);
    }

    /** The support interval of axis `k`: `make_intv` of one basis function, or `intersect_intervals` of two and the early return. */
    method EmitInterval(k: nat, pairs: seq<(string, BasisFun)>, ghost base: string, ghost start: seq<string>, ghost done: seq<Emitted>)
      requires AllSpaces(base) && code.indentation == base + Repeat(INDENT_UNIT, 1)
      requires code.lines == start + RenderAll(base, done, vec, dim)
      modifies code
      ensures code.indentation == old(code.indentation)
      ensures code.lines == start + RenderAll(base, done + IntervalLines(k, pairs), vec, dim)
    {
      if |pairs| == 1 {
        PutLine(SupportOf(k, pairs[0]), 1, base, start, done);
      } else if |pairs| == 2 {
        EmitIntersection(k, pairs, base, start, done);
      } else {
        assert done + IntervalLines(k, pairs) == done;
      }
    }

    /** `intv = intersect_intervals(` with one argument line per basis function, then the early return. */
    method EmitIntersection(k: nat, pairs: seq<(string, BasisFun)>, ghost base: string, ghost start: seq<string>, ghost done: seq<Emitted>)
      requires |pairs| == 2
      requires AllSpaces(base) && code.indentation == base + Repeat(INDENT_UNIT, 1)
      requires code.lines == start + RenderAll(base, done, vec, dim)
      modifies code
      ensures code.indentation == old(code.indentation)
      ensures code.lines == start + RenderAll(base, done + IntervalLines(k, pairs), vec, dim)
    {
      ghost var head := done + [At(1, IntersectOpen)];
      PutLine(IntersectOpen, 1, base, start, done);
      assert Repeat(INDENT_UNIT, 1) == INDENT_UNIT;
      code.Indent(2);
      EmitIntersectArgs(k, pairs, base, start, head);
      IndentDedentRestores(base + INDENT_UNIT, 2);
      code.Dedent(2);
      ghost var args := head + IntersectArgs(k, pairs, 2);
      PutLine(IntersectClose, 1, base, start, args);
      PutLine(EmptySupportReturn, 1, base, start, args + [At(1, IntersectClose)]);
      IntervalLinesOfPair(done, k, pairs);
    }

    method EmitIntersectArgs(k: nat, pairs: seq<(string, BasisFun)>, ghost base: string, ghost start: seq<string>, ghost head: seq<Emitted>)
      requires code.indentation == base + INDENT_UNIT + Repeat(INDENT_UNIT, 2)
      requires code.lines == start + RenderAll(base, head, vec, dim)
      modifies code
      ensures code.indentation == old(code.indentation)
      ensures code.lines == start + RenderAll(base, head + IntersectArgs(k, pairs, |pairs|), vec, dim)
    {
      assert Repeat(INDENT_UNIT, 3) == INDENT_UNIT + Repeat(INDENT_UNIT, 2);
      assert head + IntersectArgs(k, pairs, 0) == head;
      var p := 0;
      while p < |pairs|
        invariant 0 <= p <= |pairs|
        invariant code.indentation == base + Repeat(INDENT_UNIT, 3)
        invariant code.lines == start + RenderAll(base, head + IntersectArgs(k, pairs, p), vec, dim)
      {
        PutLine(IntersectArg(k, pairs[p]), 3, base, start, head + IntersectArgs(k, pairs, p));
        IntersectArgsSnoc(head, k, pairs, p);
        p := p + 1;
      }
    }

    /** The support interval of axis `k`, then its Gauss range and the basis function table pointers. */
    method EmitAxis(k: nat, pairs: seq<(string, BasisFun)>, ghost base: string, ghost start: seq<string>, ghost done: seq<Emitted>)
      requires AllSpaces(base) && code.indentation == base + Repeat(INDENT_UNIT, 1)
      requires code.lines == start + RenderAll(base, done, vec, dim)
      modifies code
      ensures code.indentation == old(code.indentation)
      ensures code.lines == start + RenderAll(base, done + AxisBlock(k, pairs), vec, dim)
    {
      ghost var intv := done + IntervalLines(k, pairs);
      EmitInterval(k, pairs, base, start, done);
      PutLine(GaussStart(k), 1, base, start, intv);
      PutLine(GaussEnd(k), 1, base, start, intv + [At(1, GaussStart(k))]);
      ghost var mid := intv + [At(1, GaussStart(k))] + [At(1, GaussEnd(k))];
      assert mid + TablePointers(k, pairs, 0) == mid;
      var p := 0;
      while p < |pairs|
        invariant 0 <= p <= |pairs|
        invariant code.indentation == base + Repeat(INDENT_UNIT, 1)
        invariant code.lines == start + RenderAll(base, mid + TablePointers(k, pairs, p), vec, dim)
      {
        PutLine(TablePointer(k, pairs[p]), 1, base, start, mid + TablePointers(k, pairs, p));
        TablePointersSnoc(mid, k, pairs, p);
        p := p + 1;
      }
      AxisBlockParts(done, k, pairs);
    }

    /** The per-axis blocks, axis 0 first. */
    method EmitAxes(pairs: seq<(string, BasisFun)>, ghost base: string, ghost start: seq<string>, ghost done: seq<Emitted>)
      requires AllSpaces(base) && code.indentation == base + Repeat(INDENT_UNIT, 1)
      requires code.lines == start + RenderAll(base, done, vec, dim)
      modifies code
      ensures code.indentation == old(code.indentation)
      ensures code.lines == start + RenderAll(base, done + AxisBlocks(dim, pairs), vec, dim)
    {
      assert done + AxisBlocks(0, pairs) == done;
      var k := 0;
      while k < dim
        invariant 0 <= k <= dim
        invariant code.indentation == base + Repeat(INDENT_UNIT, 1)
        invariant code.lines == start + RenderAll(base, done + AxisBlocks(k, pairs), vec, dim)
      {
        EmitAxis(k, pairs, base, start, done + AxisBlocks(k, pairs));
        AxisBlocksSnoc(done, k, pairs);
        k := k + 1;
      }
    }

    /** Pragmas and signature; the body is indented one level afterwards. */
    method EmitSignature(ghost base: string, ghost start: seq<string>)
      requires code.indentation == base && code.lines == start
      modifies code
      ensures code.indentation == base + Repeat(INDENT_UNIT, 1)
      ensures code.lines == start + RenderAll(base, Signature(), vec, dim)
    {
      assert Repeat(INDENT_UNIT, 0) == "" && base + "" == base;
      assert start + RenderAll(base, [], vec, dim) == start;
      PutLine(Pragma(0), 0, base, start, []);
      PutLine(Pragma(1), 0, base, start, [At(0, Pragma(0))]);
      PutLine(Pragma(2), 0, base, start, [At(0, Pragma(0))] + [At(0, Pragma(1))]);
      PutLine(FuncDecl, 0, base, start, [At(0, Pragma(0))] + [At(0, Pragma(1))] + [At(0, Pragma(2))]);
      assert [At(0, Pragma(0))] + [At(0, Pragma(1))] + [At(0, Pragma(2))] + [At(0, FuncDecl)] == Signature();
      code.Indent();
    }

    method EmitLocals(ghost base: string, ghost start: seq<string>, ghost done: seq<Emitted>)
      requires code.indentation == base + Repeat(INDENT_UNIT, 1)
      requires code.lines == start + RenderAll(base, done, vec, dim)
      modifies code
      ensures code.indentation == old(code.indentation)
      ensures code.lines == start + RenderAll(base, done + Locals(), vec, dim)
    {
      PutLine(LocalDecl(0), 1, base, start, done);
      PutLine(LocalDecl(1), 1, base, start, done + [At(1, LocalDecl(0))]);
      PutLine(LocalDecl(2), 1, base, start, done + [At(1, LocalDecl(0))] + [At(1, LocalDecl(1))]);
      PutLine(LocalDecl(3), 1, base, start, done + [At(1, LocalDecl(0))] + [At(1, LocalDecl(1))] + [At(1, LocalDecl(2))]);
      assert done + [At(1, LocalDecl(0))] + [At(1, LocalDecl(1))] + [At(1, LocalDecl(2))] + [At(1, LocalDecl(3))]
          == done + Locals();
    }

    /** One `values_<name>` pointer array per basis function. */
    method EmitValuesDecls(ghost base: string, ghost start: seq<string>, ghost done: seq<Emitted>)
      requires code.indentation == base + Repeat(INDENT_UNIT, 1)
      requires code.lines == start + RenderAll(base, done, vec, dim)
      modifies code
      ensures code.indentation == old(code.indentation)
      ensures code.lines == start + RenderAll(base, done + ValuesDecls(basisFuns, |basisFuns|), vec, dim)
    {
      assert done + ValuesDecls(basisFuns, 0) == done;
      var b := 0;
      while b < |basisFuns|
        invariant 0 <= b <= |basisFuns|
        invariant code.indentation == base + Repeat(INDENT_UNIT, 1)
        invariant code.lines == start + RenderAll(base, done + ValuesDecls(basisFuns, b), vec, dim)
      {
        PutLine(ValuesDecl(basisFuns[b]), 1, base, start, done + ValuesDecls(basisFuns, b));
        ValuesDeclsSnoc(done, basisFuns, b);
        b := b + 1;
      }
    }

    /**
     * `gen_entry_impl_header()`: emit the prologue, then fail on an arity other
     * than 1 or 2 (or a linear form without a basis function), else emit one
     * support block per axis and an empty line.
     */
    method GenEntryImplHeader() returns (ok: bool)
      requires AllSpaces(code.indentation)
      modifies code
      ensures ok <==> IdxBfun(arity, basisFuns).Some?
      ensures ok ==>
                code.lines == old(code.lines) +
                RenderAll(old(code.indentation), EntryImplHeader(dim, basisFuns, IdxBfun(arity, basisFuns).value), vec, dim)
      ensures !ok ==> code.lines == old(code.lines) + RenderAll(old(code.indentation), Prologue(basisFuns), vec, dim)
      ensures code.indentation == old(code.indentation) + INDENT_UNIT
    {
      ghost var base, start := code.indentation, code.lines;
      EmitSignature(base, start);
      EmitLocals(base, start, Signature());
      EmitValuesDecls(base, start, Signature() + Locals());
      assert Repeat(INDENT_UNIT, 1) == INDENT_UNIT + "";
      var pairs := IdxBfun(arity, basisFuns);
      if pairs.None? {
        return false;
      }
      ghost var pro, blocks := Prologue(basisFuns), AxisBlocks(dim, pairs.value);
      EmitAxes(pairs.value, base, start, pro);
      PutLine(Blank, 1, base, start, pro + blocks);
      assert pro + blocks + [At(1, Blank)] == EntryImplHeader(dim, basisFuns, pairs.value);
      return true;
    }
  }
}
