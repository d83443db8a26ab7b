/**
 * The pure string builders of the assembler generators: broadcasting slices
 * (`extend_dim`), per-axis repetition of a format string (`dimrep`,
 * `dimrepeat`), tensor products of per-axis arrays (`tensorprod`), the reads
 * of tabulated basis-function derivatives (`gen_pderiv`, `grad_comp`), the
 * Cython type of a field (`field_type`), the source expression of an input
 * variable (`parse_src`) and the row-major index expression (`to_seq`).
 */
module Emitters {
  import opened Text
  import opened Wrappers
  import Indexing

  // ---------------------------------------------------------------------
  // extend_dim

  function Slices(dim: nat, i: nat): (r: seq<string>)
    ensures |r| == dim
  {
    seq(dim, k => if k == i then ":" else "None")
  }

  /** `extend_dim(i)`: the numpy index that lays a 1-D array along axis `i` of `dim` axes. */
  function ExtendDim(dim: nat, i: nat): string
    requires i < dim
  {
    Join(",", Slices(dim, i))
  }

  /** `extend_dim(i)` has `dim` comma-separated entries: `:` at position `i`, `None` elsewhere. */
  lemma ExtendDimEntries(dim: nat, i: nat)
    requires i < dim
    ensures var parts := SplitOn(ExtendDim(dim, i), ",");
            |parts| == dim && parts[i] == ":" &&
            forall k :: 0 <= k < dim && k != i ==> parts[k] == "None"
  {
    SplitJoin(Slices(dim, i), ",");
  }

  lemma ExtendDimNoSpace(dim: nat, i: nat)
    requires i < dim
    ensures ' ' !in ExtendDim(dim, i)
  {
    JoinExcludes(' ', ",", Slices(dim, i));
  }

  // ---------------------------------------------------------------------
  // dimrep / dimrepeat

  /** A format string: literal text and `{}`/`{0}` holes that receive the axis number. */
  datatype Piece = Lit(text: string) | AxisHole

  /** `s.format(k)` */
  function Format(t: seq<Piece>, k: nat): string
  {
    if |t| == 0 then ""
    else Format(t[..|t| - 1], k) + match t[|t| - 1] { case Lit(s) => s case AxisHole => NatToString(k) }
  }

  function FormatAll(t: seq<Piece>, dim: nat): (r: seq<string>)
    ensures |r| == dim && forall k :: 0 <= k < dim ==> r[k] == Format(t, k)
  {
    seq(dim, k requires 0 <= k => Format(t, k))
  }

  /** `sep.join(s.format(k) for k in range(dim))` */
  function DimRep(t: seq<Piece>, dim: nat, sep: string): string
  {
    Join(sep, FormatAll(t, dim))
  }

  predicate LiteralsAvoid(t: seq<Piece>, c: char)
  {
    forall m :: 0 <= m < |t| && t[m].Lit? ==> c !in t[m].text
  }

  lemma {:induction false} FormatAvoids(t: seq<Piece>, k: nat, c: char)
    requires LiteralsAvoid(t, c) && !IsDigit(c)
    ensures c !in Format(t, k)
    decreases |t|
  {
    if |t| > 0 {
      FormatAvoids(t[..|t| - 1], k, c);
    }
  }

  /** The `dim` entries of `dimrep` are the format string instantiated with axes 0, 1, ... in order. */
  lemma DimRepEntries(t: seq<Piece>, dim: nat, sep: string)
    requires dim >= 1 && |sep| > 0 && !IsDigit(sep[0]) && LiteralsAvoid(t, sep[0])
    ensures var parts := SplitOn(DimRep(t, dim, sep), sep);
            |parts| == dim && forall k :: 0 <= k < dim ==> parts[k] == Format(t, k)
  {
    forall k | 0 <= k < dim {
      FormatAvoids(t, k, sep[0]);
    }
    SplitJoin(FormatAll(t, dim), sep);
  }

  /** A format string with one hole gives a different text for every axis. */
  lemma FormatOneHoleInjective(p: string, q: string, k: nat, k': nat)
    requires Format([Lit(p), AxisHole, Lit(q)], k) == Format([Lit(p), AxisHole, Lit(q)], k')
    ensures k == k'
  {
    var t := [Lit(p), AxisHole, Lit(q)];
    assert t[..2] == [Lit(p), AxisHole] && t[..2][..1] == [Lit(p)] && [Lit(p)][..0] == [];
    var a, b := NatToString(k), NatToString(k');
    assert Format([Lit(p)], k) == p && Format([Lit(p)], k') == p;
    assert Format(t[..2], k) == p + a;
    assert Format(t[..2], k') == p + b;
    assert Format(t, k) == p + a + q;
    assert Format(t, k') == p + b + q;
    assert (p + a + q)[|p|..|p| + |a|] == a;
    assert (p + b + q)[|p|..|p| + |b|] == b;
    NatToStringInjective(k, k');
  }

  // ---------------------------------------------------------------------
  // tensorprod

  function TensorFactor(v: string, dim: nat, k: nat): string
    requires k < dim
  {
    v + "[" + NatToString(k) + "][" + ExtendDim(dim, k) + "]"
  }

  /** `tensorprod(var)`: the product of the per-axis arrays `var[k]`, each broadcast along its axis. */
  function TensorProd(dim: nat, v: string): string
  {
    Join(" * ", seq(dim, k requires 0 <= k < dim => TensorFactor(v, dim, k)))
  }

  /** `tensorprod` has one factor per axis; factor `k` is `var[k]` laid along axis `k`. */
  lemma TensorProdFactors(dim: nat, v: string)
    requires dim >= 1 && ' ' !in v
    ensures var parts := SplitOn(TensorProd(dim, v), " * ");
            |parts| == dim &&
            forall k :: 0 <= k < dim ==> parts[k] == v + "[" + NatToString(k) + "][" + ExtendDim(dim, k) + "]"
  {
    forall k | 0 <= k < dim
      ensures ' ' !in TensorFactor(v, dim, k)
    {
      ExtendDimNoSpace(dim, k);
      assert ' ' !in NatToString(k);
    }
    SplitJoin(seq(dim, k requires 0 <= k < dim => TensorFactor(v, dim, k)), " * ");
  }

  // ---------------------------------------------------------------------
  // gen_pderiv / grad_comp

  /** One factor `table{axis}[stride*idx{axis}+offset]` of a tensor-product basis function. */
  datatype TableRead = TableRead(table: string, axis: nat, stride: nat, idx: string, offset: nat)

  function RenderRead(f: TableRead): string
  {
    f.table + NatToString(f.axis) + "[" + NatToString(f.stride) + "*" + f.idx + NatToString(f.axis)
      + "+" + NatToString(f.offset) + "]"
  }

  function RenderReads(fs: seq<TableRead>): (r: seq<string>)
    ensures |r| == |fs|
  {
    seq(|fs|, k requires 0 <= k < |fs| => RenderRead(fs[k]))
  }

  /** The position a factor reads when its index variable has value `v`. */
  function ReadPosition(f: TableRead, v: nat): nat
  {
    f.stride * v + f.offset
  }

  /**
   * The tables store all derivatives of one basis function at one point
   * contiguously, so a read below the stride recovers both the index and the
   * derivative order: distinct (index, order) pairs read distinct positions.
   */
  lemma ReadPositionDecodes(f: TableRead, v: nat)
    requires f.offset < f.stride
    ensures ReadPosition(f, v) / f.stride == v && ReadPosition(f, v) % f.stride == f.offset
  {
    Indexing.DivModOfMulAdd(v, f.stride, f.offset);
  }

  predicate ValidOrders(D: seq<int>, numderiv: nat)
  {
    forall k :: 0 <= k < |D| ==> 0 <= D[k] <= numderiv
  }

  /** Factor `k` reads derivative order `D[|D|-1-k]`: the orders are given x first, x being the last axis. */
  function DerivFactors(table: string, D: seq<int>, idx: string, numderiv: nat): (fs: seq<TableRead>)
    requires ValidOrders(D, numderiv)
    ensures |fs| == |D|
  {
    seq(|D|, k requires 0 <= k < |D| => TableRead(table, k, numderiv + 1, idx, D[|D| - 1 - k] as nat))
  }

  /**
   * `gen_pderiv(basisfun, D, idx)`: the product of per-axis reads for the partial
   * derivative `D` of a tensor-product basis function; the two assertions of the
   * source become failures.
   */
  function PDeriv(name: string, D: seq<int>, idx: string, dim: nat, numderiv: nat): (r: Result<string>)
    ensures r.Success? <==> |D| == dim && ValidOrders(D, numderiv)
  {
    if |D| != dim then Failure("derivative order has wrong dimension")
    else if !ValidOrders(D, numderiv) then Failure("derivative order out of range")
    else Success("(" + Join(" * ", RenderReads(DerivFactors("VD" + name, D, idx, numderiv))) + ")")
  }

  /** A successful `gen_pderiv` is a parenthesised product of exactly `dim` reads. */
  lemma PDerivShape(name: string, D: seq<int>, idx: string, dim: nat, numderiv: nat)
    requires PDeriv(name, D, idx, dim, numderiv).Success?
    requires dim >= 1 && ' ' !in name && ' ' !in idx
    ensures var s := PDeriv(name, D, idx, dim, numderiv).value;
            |s| >= 2 && s[0] == '(' && s[|s| - 1] == ')' &&
            SplitOn(s[1..|s| - 1], " * ") == RenderReads(DerivFactors("VD" + name, D, idx, numderiv))
  {
    var fs := DerivFactors("VD" + name, D, idx, numderiv);
    var inner := Join(" * ", RenderReads(fs));
    forall k | 0 <= k < dim
      ensures ' ' !in RenderReads(fs)[k]
    {
      assert ' ' !in NatToString(fs[k].axis) && ' ' !in NatToString(fs[k].stride);
      assert ' ' !in NatToString(fs[k].offset);
    }
    SplitJoin(RenderReads(fs), " * ");
    assert PDeriv(name, D, idx, dim, numderiv).value == "(" + inner + ")";
    assert ("(" + inner + ")")[1..|inner| + 1] == inner;
  }

  /**
   * Read `k` of `gen_pderiv` is of table `VD<name>k` at `(numderiv+1)*idx_k + D[dim-1-k]`,
   * so the order of the x-derivative `D[0]` lands on the last axis, and each read
   * decodes back to the index and the order it was built from.
   */
  lemma PDerivReads(name: string, D: seq<int>, idx: string, numderiv: nat, k: nat, v: nat)
    requires ValidOrders(D, numderiv) && k < |D|
    ensures var f := DerivFactors("VD" + name, D, idx, numderiv)[k];
            f.table == "VD" + name && f.axis == k && f.offset == D[|D| - 1 - k] &&
            ReadPosition(f, v) == (numderiv + 1) * v + D[|D| - 1 - k] &&
            ReadPosition(f, v) / (numderiv + 1) == v &&
            ReadPosition(f, v) % (numderiv + 1) == D[|D| - 1 - k]
  {
    ReadPositionDecodes(DerivFactors("VD" + name, D, idx, numderiv)[k], v);
  }

  /** `grad_comp(var, idx, j)`: component `j` of the gradient, first derivatives stored with stride 2. */
  function GradCompFactors(v: string, idx: string, j: nat, dim: nat): (fs: seq<TableRead>)
    ensures |fs| == dim
  {
    seq(dim, k requires 0 <= k => TableRead(v, k, 2, idx, if k + j + 1 == dim then 1 else 0))
  }

  function GradComp(v: string, idx: string, j: nat, dim: nat): string
  {
    Join(" * ", RenderReads(GradCompFactors(v, idx, j, dim)))
  }

  /** The derivative orders of the `j`-th unit vector. */
  function UnitOrders(dim: nat, j: nat): (D: seq<int>)
    ensures |D| == dim
  {
    seq(dim, m => if m == j then 1 else 0)
  }

  /**
   * `grad_comp(var, idx, j)` has `dim` factors of stride 2; exactly the factor
   * of axis `dim-1-j` reads a first derivative. It is the partial derivative
   * along the `j`-th unit vector with first derivatives tabulated.
   */
  lemma GradCompIsUnitDerivative(v: string, idx: string, j: nat, dim: nat)
    requires j < dim && ' ' !in v && ' ' !in idx
    ensures SplitOn(GradComp(v, idx, j, dim), " * ") == RenderReads(GradCompFactors(v, idx, j, dim))
    ensures forall k :: 0 <= k < dim ==> (GradCompFactors(v, idx, j, dim)[k].offset == 1 <==> k == dim - 1 - j)
    ensures ValidOrders(UnitOrders(dim, j), 1) &&
            GradCompFactors(v, idx, j, dim) == DerivFactors(v, UnitOrders(dim, j), idx, 1)
  {
    var fs := GradCompFactors(v, idx, j, dim);
    forall k | 0 <= k < dim
      ensures ' ' !in RenderReads(fs)[k]
    {
      assert ' ' !in NatToString(k) && ' ' !in NatToString(2) && ' ' !in NatToString(fs[k].offset);
    }
    SplitJoin(RenderReads(fs), " * ");
  }

  // ---------------------------------------------------------------------
  // field_type

  function Colons(n: nat): (r: seq<string>)
    ensures |r| == n
  {
    seq(n, _ => ":")
  }

  /** `field_type(var)`: a C-contiguous memoryview over the grid axes and the value axes. */
  function FieldType(dim: nat, rank: nat): string
  {
    "double[" + Join(", ", Colons(dim + rank)) + ":1]"
  }

  /** `field_type` declares `dim + rank` axes, all `:` but the last, which is `::1`. */
  lemma FieldTypeAxes(dim: nat, rank: nat)
    requires dim + rank >= 1
    ensures var s := FieldType(dim, rank);
            var inner := s[7..|s| - 1];
            s[..7] == "double[" && s[|s| - 1] == ']' &&
            SplitOn(inner, ", ") == Colons(dim + rank - 1) + ["::1"]
  {
    var n := dim + rank;
    JoinAppendLast(", ", Colons(n), ":1");
    var parts := Colons(n)[..n - 1] + [Colons(n)[n - 1] + ":1"];
    assert Colons(n)[..n - 1] == Colons(n - 1);
    assert Colons(n)[n - 1] + ":1" == "::1";
    assert parts == Colons(n - 1) + ["::1"];
    SplitJoin(parts, ", ");
    var inner := Join(", ", Colons(n)) + ":1";
    assert FieldType(dim, rank) == "double[" + inner + "]";
    assert ("double[" + inner + "]")[7..|inner| + 7] == inner;
  }

  // ---------------------------------------------------------------------
  // parse_src

  /** Where an input variable comes from: an input field, or a named source expression. */
  datatype Src = InputField(name: string) | Named(text: string)

  const GAUSS_WEIGHT: string := "@GaussWeight"

  /**
   * `parse_src(var)`: an input field is evaluated on the Gauss grid (values for
   * derivative 0, Jacobians for derivative 1, anything else fails); the Gauss
   * weight marker becomes the tensor product of the per-axis weights; any other
   * text is used verbatim.
   */
  function ParseSrc(src: Src, deriv: int, dim: nat): (r: Result<string>)
    ensures r.Failure? <==> src.InputField? && deriv != 0 && deriv != 1
    ensures src.Named? && src.text != GAUSS_WEIGHT ==> r == Success(src.text)
  {
    match src
    case InputField(name) =>
      if deriv == 0 then Success("grid_eval(" + name + ", self.gaussgrid)")
      else if deriv == 1 then Success(name + ".grid_jacobian(self.gaussgrid)")
      else Failure("invalid derivative for input field")
    case Named(text) =>
      if text == GAUSS_WEIGHT then Success(TensorProd(dim, "gaussweights")) else Success(text)
  }

  /** The Gauss weight marker expands to one weight factor per axis, each along its own axis. */
  lemma ParseSrcGaussWeight(dim: nat)
    requires dim >= 1
    ensures var r := ParseSrc(Named(GAUSS_WEIGHT), 0, dim);
            r.Success? &&
            var parts := SplitOn(r.value, " * ");
            |parts| == dim &&
            forall k :: 0 <= k < dim ==> parts[k] == "gaussweights" + "[" + NatToString(k) + "][" + ExtendDim(dim, k) + "]"
  {
    var w := "gaussweights";
    assert ParseSrc(Named(GAUSS_WEIGHT), 0, dim) == Success(TensorProd(dim, w));
    assert forall i :: 0 <= i < |w| ==> w[i] != ' ';
    TensorProdFactors(dim, w);
  }

  // ---------------------------------------------------------------------
  // to_seq

  /** The row-major index expression: a single digit, or `(prefix) * n[axis] + i[axis]`. */
  datatype RankExpr = Digit(axis: nat) | Horner(prefix: RankExpr, axis: nat)

  predicate AxesBelow(e: RankExpr, d: nat)
  {
    match e
    case Digit(a) => a < d
    case Horner(p, a) => a < d && AxesBelow(p, d)
  }

  /** The Horner expression over the first `dim` axes, axis 0 innermost. */
  function HornerExpr(dim: nat): (e: RankExpr)
    requires dim >= 1
    ensures AxesBelow(e, dim)
  {
    if dim == 1 then Digit(0)
    else
      var p := HornerExpr(dim - 1);
      AxesBelowMono(p, dim - 1, dim);
      Horner(p, dim - 1)
  }

  lemma AxesBelowMono(e: RankExpr, d: nat, d': nat)
    requires AxesBelow(e, d) && d <= d'
    ensures AxesBelow(e, d')
  {
  }

  /** The text of an index expression, given the names of the digits and the extents. */
  function Render(e: RankExpr, i: seq<string>, n: seq<string>): string
    requires |i| == |n| && AxesBelow(e, |i|)
  {
    match e
    case Digit(a) => i[a]
    case Horner(p, a) => "(" + Render(p, i, n) + ") * " + n[a] + " + " + i[a]
  }

  /** The value of an index expression, given the digits and the extents. */
  function Eval(e: RankExpr, I: seq<nat>, n: seq<nat>): nat
    requires |I| == |n| && AxesBelow(e, |I|)
  {
    match e
    case Digit(a) => I[a]
    case Horner(p, a) => Eval(p, I, n) * n[a] + I[a]
  }

  /** `to_seq(i, n)`: fold the axes 1.. into the expression, starting from `i[0]`. */
  method ToSeq(i: seq<string>, n: seq<string>) returns (s: string)
    requires |i| == |n| >= 1
    ensures s == Render(HornerExpr(|i|), i, n)
  {
    s := i[0];
    var k := 1;
    while k < |i|
      invariant 1 <= k <= |i|
      invariant AxesBelow(HornerExpr(k), |i|)
      invariant s == Render(HornerExpr(k), i, n)
    {
      AxesBelowMono(HornerExpr(k + 1), k + 1, |i|);
      s := "(" + s + ") * " + n[k] + " + " + i[k];
      k := k + 1;
    }
  }

  lemma {:induction false} HornerPrefixRank(k: nat, I: seq<nat>, n: seq<nat>)
    requires |I| == |n| && 1 <= k <= |I|
    ensures AxesBelow(HornerExpr(k), |I|)
    ensures Eval(HornerExpr(k), I, n) == Indexing.Rank(I[..k], n[..k])
  {
    AxesBelowMono(HornerExpr(k), k, |I|);
    if k == 1 {
      assert I[..1][..0] == [] && n[..1][..0] == [];
    } else {
      HornerPrefixRank(k - 1, I, n);
      assert I[..k][..k - 1] == I[..k - 1] && n[..k][..k - 1] == n[..k - 1];
    }
  }

  /** The emitted `to_seq` expression evaluates to the row-major rank, last axis fastest. */
  lemma ToSeqIsRank(I: seq<nat>, n: seq<nat>)
    requires |I| == |n| >= 1
    ensures AxesBelow(HornerExpr(|I|), |I|)
    ensures Eval(HornerExpr(|I|), I, n) == Indexing.Rank(I, n)
  {
    HornerPrefixRank(|I|, I, n);
    assert I[..|I|] == I && n[..|n|] == n;
  }
}
