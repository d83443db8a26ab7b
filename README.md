# pyiga assembler generation and assembly indexing, modelled in Dafny

pyiga is an isogeometric-analysis library. It turns variational forms into
Cython assembler classes, and runs them to fill stiffness and mass
matrices for tensor-product B-spline spaces. This project models the part of
that machinery that decides *what code is written* and *which entry goes
where*:

- **Code generation** (`pyiga/codegen/cython.py`): the `CodeGen` line buffer
  with its indentation. The string emitters of `AsmGenerator`
  (`extend_dim`, `dimrep`, `tensorprod`, `gen_pderiv`, `field_type`,
  `parse_src`). `gen_assign`, which writes scalar, vector and matrix
  assignments. `gen_entry_impl_header`, which writes the prologue of every
  generated `entry_impl` routine, including its per-axis support test.
- **The generated runtime of the Cython template** (same file): space
  information and `base_init`; `entry1`, `entry`, `multi_entries_chunk` and
  `assemble_vector` of `BaseAssembler`; the banded kernels
  `_asm_core_kernel` and `_asm_core_vec_kernel` with their drivers; and
  `from_seq`, `entry_impl` and `assemble_vector` of `BaseVectorAssembler`.
- **The older assembler-generation script** (`scripts/generate-assemblers.py`):
  the helpers `to_seq`, `extend_dim`, `tensorprod` and `grad_comp`. Its
  template's `base_init`, `from_seq`, `assemble`, `multi_assemble_chunk`,
  the `assemble_impl_header` support test, and `generic_assemble_{DIM}d`,
  which produces the COO triples of a symmetric matrix.

Multi-indices are linearised in C order: the last axis varies fastest.
`Indexing.Rank` and `Indexing.Unrank` are that linearisation and its
inverse. Every conversion in the source is tied to them: the script's
`to_seq` string, both `from_seq`s, the lexicographic iteration and the
slot layout of the banded kernels. Generated code is modelled as the
sequence of lines put into the buffer. Its properties are stated about the
text: how it splits into factors, which slot each assignment writes, and
how often the early return for empty supports appears.

The floating-point kernels (`entry_impl`, `combine`) are function-valued
parameters. Entries are `real`. Helpers that these files call but that are defined elsewhere in pyiga
(`next_lexicographic`, `intersect_intervals`, `make_intv`,
`find_joint_support_functions`, `get_transpose_idx_for_bidx`) get a
definition of their own here (the first three) or an abstract contract
(the last two).

Modules: `Wrappers` (Option/Result), `Text` (join, split, decimal
rendering, counting), `CodeGenerator`, `Emitters`, `AsmGen`, `Indexing`,
`Support`, `Triples`, `ScriptAssembler`, `Banded`, `CythonAssembler`.

## Model

| member | source | states |
|---|---|---|
| CodeGenerator.CodeGen.constructor | pyiga/codegen/cython.py:6-8 | A new buffer holds no lines and has empty indentation. |
| CodeGenerator.CodeGen.Indent | pyiga/codegen/cython.py:10-11 | Appends `num` units of four spaces (none for `num <= 0`); the indentation stays all spaces; no line is added. |
| CodeGenerator.CodeGen.Dedent | pyiga/codegen/cython.py:13-14 | Drops the first `4*num` characters, with Python slice semantics for negative and oversized `num`; lines are untouched. |
| CodeGenerator.CodeGen.Put | pyiga/codegen/cython.py:16-20 | Appends exactly one line: empty for empty text, otherwise the text under the current indentation; the indentation is unchanged. |
| CodeGenerator.CodeGen.DeclareLocalVariable | pyiga/codegen/cython.py:25-29 | Appends one `cdef` declaration line, with an initialiser exactly when one is given. |
| CodeGenerator.CodeGen.ForLoop | pyiga/codegen/cython.py:31-33 | Appends the loop header and indents one level. |
| CodeGenerator.CodeGen.EndLoop | pyiga/codegen/cython.py:35-36 | Removes one indentation level and adds no line. |
| CodeGenerator.IndentDedentRestores | pyiga/codegen/cython.py:10-14 | Indenting by `n` and then dedenting by `n` restores the previous indentation. |
| CodeGenerator.ResultLines | pyiga/codegen/cython.py:38-39 | The joined result splits back on newlines into exactly the lines put, when no line contains a newline. |
| Emitters.ExtendDimEntries | pyiga/codegen/cython.py:76-80 | `extend_dim(i)` has `dim` comma-separated entries: `:` at position `i` and `None` everywhere else. |
| Emitters.ExtendDimNoSpace | pyiga/codegen/cython.py:76-80 | The broadcast slice contains no blank, so it can sit inside a ` * ` product. |
| Emitters.DimRepEntries | pyiga/codegen/cython.py:73-74 | `dimrep(s, sep)` splits on `sep` into exactly `dim` parts, part `k` being the template with `k` filled in. |
| Emitters.FormatAvoids | pyiga/codegen/cython.py:73-74 | A filled-in template contains a character only if its literals do (axis numbers are digits). |
| Emitters.FormatOneHoleInjective | pyiga/codegen/cython.py:73-74 | Two filled-in copies of a one-hole template are equal only for the same axis. |
| Emitters.TensorProdFactors | pyiga/codegen/cython.py:82-84 | `tensorprod(v)` is a ` * ` product of exactly `dim` factors, factor `k` being `v[k][extend_dim(k)]`. |
| Emitters.PDeriv | pyiga/codegen/cython.py:86-100 | `gen_pderiv` succeeds iff `D` has one order per axis and each order lies in `0..numderiv`; otherwise it fails, as the assertions do. |
| Emitters.PDerivShape | pyiga/codegen/cython.py:86-100 | A successful result is a parenthesised ` * ` product whose factors are the table reads, one per axis. |
| Emitters.PDerivReads | pyiga/codegen/cython.py:86-100 | Factor `k` reads table `VD<name>k` at `(numderiv+1)*v + D[dim-1-k]`: the order is reversed so that x is the last axis, and the position decodes back to the basis index and the order. |
| Emitters.ReadPositionDecodes | pyiga/codegen/cython.py:86-100 | A strided read position decodes uniquely to its index (quotient) and derivative order (remainder). |
| Emitters.GradCompIsUnitDerivative | scripts/generate-assemblers.py:348-357 | `grad_comp(v, idx, j)` has `dim` factors; exactly factor `dim-1-j` reads the first derivative; it is the unit derivative order vector with stride 2. |
| Emitters.FieldTypeAxes | pyiga/codegen/cython.py:141-142 | `field_type` is `double[...]` with `dim + rank` axes: `dim + rank - 1` plain colons and a final contiguous `::1`. |
| Emitters.ParseSrc | pyiga/codegen/cython.py:349-361 | Fails iff the source is an input field with a derivative other than 0 or 1; a named expression other than the Gauss weight is passed through unchanged. |
| Emitters.ParseSrcGaussWeight | pyiga/codegen/cython.py:358-359 | The Gauss weight becomes the tensor product of the `gaussweights` factors, one per axis. |
| Emitters.ToSeq | scripts/generate-assemblers.py:330-334 | The loop builds the nested Horner string `((i0) * n1 + i1) * n2 + ...` over all axes. |
| Emitters.HornerPrefixRank | scripts/generate-assemblers.py:330-334 | After `k` axes the Horner expression evaluates to the C-order rank of the first `k` index components. |
| Emitters.ToSeqIsRank | scripts/generate-assemblers.py:30-32 | The emitted `to_seq` expression evaluates to the C-order rank of the multi-index. |
| AsmGen.RowAssignsWrite | pyiga/codegen/cython.py:124-133 | Each assignment of row `i` targets the variable, lies in row `i` of the corrected layout, is not below the diagonal when symmetric, and carries that entry's code. |
| AsmGen.MatrixAssignsWrite | pyiga/codegen/cython.py:124-133 | Every matrix assignment writes the code of the entry whose slot it targets. |
| AsmGen.RowSlotCount | pyiga/codegen/cython.py:126-133 | Row `r` writes each slot of its row once, except the skipped ones below the diagonal, and no other slot. |
| AsmGen.MatrixSlotCount | pyiga/codegen/cython.py:124-133 | Over the first `rows` rows, slot `t` is written once if it is in those rows and not skipped, otherwise never. |
| AsmGen.MatrixAssignsCoverage | pyiga/codegen/cython.py:124-133 | Corrected layout: every slot of an `m x n` matrix is written exactly once (for symmetric variables, never below the diagonal) with its own entry's code. |
| AsmGen.RowAssignsLength | pyiga/codegen/cython.py:126-133 | A row writes all its columns, or only those on or above the diagonal when symmetric. |
| AsmGen.MatrixAssignsLength | pyiga/codegen/cython.py:124-133 | `rows*n` assignments, or `rows*n - rows*(rows-1)/2` for a symmetric variable. |
| AsmGen.AssignmentCounts | pyiga/codegen/cython.py:116-134 | A scalar gives one unindexed assignment, a vector one per component, a matrix `m*n`; a symmetric square matrix gives `m(m+1)/2`. |
| AsmGen.VectorAssignsComponents | pyiga/codegen/cython.py:118-123 | Component `k` is assigned its own code at index `k`. |
| AsmGen.LayoutsAgreeOnSquare | pyiga/codegen/cython.py:124-133 | For square matrices the as-written slot `i*m+j` and the corrected slot `i*n+j` give identical assignments. |
| AsmGen.AsWrittenSlotsCollide | pyiga/codegen/cython.py:131 | For a 2x3 matrix, the as-written layout sends entries (0,2) and (1,0) to the same slot 2, and none of the six assignments writes slot 5. |
| AsmGen.AsmGenerator.constructor | pyiga/codegen/cython.py:44-54 | The generator keeps the dimension, vector flag, arity, basis functions and the buffer it writes to. |
| AsmGen.AsmGenerator.GenAssign | pyiga/codegen/cython.py:116-134 | Appends exactly the rendered assignments of the expression, under the current indentation, and leaves the indentation unchanged. |
| AsmGen.AsmGenerator.GenAssignVector | pyiga/codegen/cython.py:117-122 | The vector branch appends one assignment per component, component `k` into slot `k`, in order. |
| AsmGen.AsmGenerator.GenAssignMatrix | pyiga/codegen/cython.py:123-133 | The matrix branch appends the assignments of every row in row order. |
| AsmGen.AsmGenerator.GenAssignRow | pyiga/codegen/cython.py:126-133 | The column loop appends the assignments of one row, skipping entries below the diagonal for symmetric variables. |
| AsmGen.IdxBfun | pyiga/codegen/cython.py:289-294 | Succeeds exactly for arity 2, or arity 1 with a basis function; pairs at most two basis functions with indices. |
| AsmGen.GuardTextUnique | pyiga/codegen/cython.py:299-317 | Of all header lines, only the early-return line renders as the `if intv.a >= intv.b: return` guard. |
| AsmGen.AxisBlockGuards | pyiga/codegen/cython.py:296-317 | One axis block contains the early return exactly once when two basis functions are paired, and never otherwise. |
| AsmGen.AxisBlocksGuards | pyiga/codegen/cython.py:296-317 | The `dim` axis blocks contain `dim` early returns for a paired form and none otherwise. |
| AsmGen.PrologueNoGuard | pyiga/codegen/cython.py:279-287 | Pragmas, signature and declarations contain no early return. |
| AsmGen.EntryHeaderGuards | pyiga/codegen/cython.py:272-318 | The header of a bilinear form with two basis functions returns early once per axis; a linear form's header never does. The trial function is indexed by `j` and the test function by `i`. |
| AsmGen.AsmGenerator.EmitSignature | pyiga/codegen/cython.py:273-281 | Puts the three pragmas and the signature, then indents the body one level. |
| AsmGen.AsmGenerator.EmitLocals | pyiga/codegen/cython.py:282-285 | Puts the four local declarations at body depth. |
| AsmGen.AsmGenerator.EmitValuesDecls | pyiga/codegen/cython.py:286-287 | Puts one `values_<name>` pointer-array declaration per basis function, in order. |
| AsmGen.AsmGenerator.EmitInterval | pyiga/codegen/cython.py:297-309 | Puts the `make_intv` line for one basis function, or the intersection block for two. |
| AsmGen.AsmGenerator.EmitIntersection | pyiga/codegen/cython.py:301-309 | Puts the `intersect_intervals(` opener, two argument lines two levels deeper, the closing line and the guard, and restores the indentation. |
| AsmGen.AsmGenerator.EmitIntersectArgs | pyiga/codegen/cython.py:304-306 | Puts one `make_intv` argument line per paired basis function. |
| AsmGen.AsmGenerator.EmitAxis | pyiga/codegen/cython.py:297-317 | Puts axis `k`'s interval lines, its Gauss start and end, and one table pointer per basis function. |
| AsmGen.AsmGenerator.EmitAxes | pyiga/codegen/cython.py:296-317 | Puts the axis blocks for axes `0..dim-1`, in order. |
| AsmGen.AsmGenerator.PutLine | pyiga/codegen/cython.py:16-20 | Puts one header line at the requested depth below the routine's base indentation. |
| AsmGen.AsmGenerator.PutAssignment | pyiga/codegen/cython.py:119-133 | Puts one `name[k] = rhs` or `name = rhs` line. |
| AsmGen.AsmGenerator.GenEntryImplHeader | pyiga/codegen/cython.py:272-318 | Succeeds iff the arity is valid. On success the buffer gains exactly the full header (prologue, one block per axis, blank line); on failure it gains only the prologue, as the assertion fires after it. Either way the body is left indented one level. |
| Indexing.RankOfUnrank | scripts/generate-assemblers.py:37-42 | Converting a linear index below the product of the extents to a multi-index and back returns it. |
| Indexing.UnrankOfRank | scripts/generate-assemblers.py:30-42 | Converting an in-range multi-index to its linear index and back returns it. |
| Indexing.RankBound | scripts/generate-assemblers.py:30-32 | The linear index of an in-range multi-index is below the product of the extents. |
| Indexing.UnrankInRange | scripts/generate-assemblers.py:37-42 | A linear index below the product of the extents yields a multi-index within the extents on every axis. |
| Indexing.UnrankInjective | scripts/generate-assemblers.py:37-42 | Distinct linear indices in range give distinct multi-indices. |
| Indexing.RankInjective | scripts/generate-assemblers.py:30-32 | Distinct in-range multi-indices give distinct linear indices. |
| Indexing.RankAppend | scripts/generate-assemblers.py:146-149 | Appending axes multiplies the rank by the new extents' product and adds the new part's rank. The carry of `next_lexicographic` is split at the advanced axis with this. |
| Indexing.AppendAxis | pyiga/codegen/cython.py:788-795 | One more trailing axis of extent `m` gives rank `rank*m + c`, which stays below `Prod*m` and unranks back to the index followed by `c`. |
| Indexing.RankOfZeros | pyiga/codegen/cython.py:665-667 | The all-zero multi-index, where iteration starts, has rank 0. |
| Indexing.RankOfLargest | pyiga/codegen/cython.py:669-673 | The multi-index with every component at its maximum has the last rank, `N-1`. |
| Indexing.FromSeq | scripts/generate-assemblers.py:37-42 | The in-place loop writes exactly the C-order multi-index of `i`. |
| Indexing.BoxElemInBox | scripts/generate-assemblers.py:113-149 | The `t`-th element of a box lies in the box. |
| Indexing.BoxElemInjective | scripts/generate-assemblers.py:113-149 | Distinct positions give distinct box elements. |
| Indexing.BoxElemOfRank | scripts/generate-assemblers.py:113-149 | A multi-index in the box is the element at the rank of its offset from the box start. |
| Indexing.BoxSuccessor | scripts/generate-assemblers.py:146-149 | Incrementing the last non-maximal axis and resetting the later ones to the box start gives the next element in C order. |
| Indexing.LastOfBox | scripts/generate-assemblers.py:146-149 | If every axis is at its maximum, the element is the last one. |
| Indexing.StartIndex | scripts/generate-assemblers.py:120 | A fresh multi-index buffer is initialised to the start of the box. |
| Indexing.NextLexicographic | scripts/generate-assemblers.py:146-149 | Advancing the multi-index reports more elements exactly when position `t+1` is inside the box, and then leaves element `t+1` in the buffer. |
| Support.EmptyIffNoSpan | scripts/generate-assemblers.py:206-207 | An interval with `a >= b` contains no span, and conversely. |
| Support.IntersectIntervals | scripts/generate-assemblers.py:203-205 | The intersection contains a span iff both intervals do. |
| Support.GaussNodeSpan | scripts/generate-assemblers.py:208-209 | Gauss node `g` lies in `[nqp*a, nqp*b)` iff its span `g / nqp` lies in the interval. |
| Support.SpanNodeCountOutside | scripts/generate-assemblers.py:208-209 | No node below `nqp*a` or from `nqp*b` on belongs to a span of the interval. |
| Support.SpanNodeCountInside | scripts/generate-assemblers.py:208-209 | Every node of `[nqp*a, nqp*b)` belongs to a span of the interval. |
| Support.GaussNodeCount | scripts/generate-assemblers.py:208-209 | Counting the nodes `g` whose span `g / nqp` lies in an interval of `b - a` spans, over any window covering the Gauss range, gives `nqp*(b - a)`: `nqp` nodes per span. |
| Support.NumQuadPoints | scripts/generate-assemblers.py:17 | `nqp` exceeds every degree and equals one degree plus one: it is the largest degree plus one. |
| Support.SingleHeader | pyiga/codegen/cython.py:297-300 | A single basis function never returns early and gets a Gauss range on every axis. |
| Support.IntersectSupports | scripts/generate-assemblers.py:202-209 | The per-axis loop returns early on the first empty intersection and otherwise fills the Gauss ranges, as the outcome function says. |
| Support.PairHeaderRanges | scripts/generate-assemblers.py:202-209 | The support test returns early iff some axis has no common span. Otherwise each axis's Gauss range holds exactly the nodes of the spans both supports share. |
| Triples.MirroredCount | scripts/generate-assemblers.py:134-144 | Mirroring a list maps each triple's multiplicity to its mirror's. |
| Triples.BalancedCount | scripts/generate-assemblers.py:134-144 | In a mirror-balanced list a triple and its mirror occur equally often. |
| Triples.PairTriplesBalanced | scripts/generate-assemblers.py:134-144 | The triples pushed for one pair form a symmetric set: the diagonal once, an off-diagonal entry together with its mirror. |
| Triples.BalancedAppend | scripts/generate-assemblers.py:121-149 | Concatenating mirror-balanced lists keeps them balanced. |
| Triples.FlattenBalanced | scripts/generate-assemblers.py:121-149 | Flattening balanced parts gives a balanced list. |
| Triples.FlattenMember | scripts/generate-assemblers.py:121-149 | A triple of the flattened list comes from one of the parts. |
| Triples.PosCountAppend | scripts/generate-assemblers.py:136-144 | The number of triples at a position in a concatenation is the sum of the counts of the two parts. |
| Triples.PairPositions | scripts/generate-assemblers.py:134-144 | The triples pushed for the pair `(ii, jj)` occupy `(ii, jj)` and `(jj, ii)` once each when `jj >= ii`, and nothing otherwise. |
| Triples.AtMostOnceDistinct | scripts/generate-assemblers.py:136-144 | A list in which every position occurs at most once has pairwise-distinct positions. |
| Triples.ZipSnoc | scripts/generate-assemblers.py:136-144 | Pushing a value and its two indices onto the three vectors appends one triple. |
| ScriptAssembler.Assembler.constructor | scripts/generate-assemblers.py:15-20 | Stores one extent and mesh support per knot vector; `nqp` is the largest degree plus one. |
| ScriptAssembler.Assembler.Supports | scripts/generate-assemblers.py:203-205 | One support interval per axis, taken from that axis's mesh support table. |
| ScriptAssembler.Assembler.AssembleImpl | scripts/generate-assemblers.py:191-212 | Returns 0 when some axis has no common span, otherwise the kernel over the Gauss ranges of the shared spans. |
| ScriptAssembler.Assembler.EntryVanishesOffSupport | scripts/generate-assemblers.py:206-207 | If the supports of `I` and `J` share no span on some axis, the entry is zero. |
| ScriptAssembler.Assembler.EntryOnCommonSpans | scripts/generate-assemblers.py:202-209 | If the supports share spans on every axis, the kernel is reached; its Gauss range on each axis is exactly the nodes of the shared spans. |
| ScriptAssembler.Assembler.Assemble | scripts/generate-assemblers.py:47-52 | `assemble(i, j)` is the entry of the multi-indices of `i` and `j`. |
| ScriptAssembler.Assembler.MultiAssembleChunk | scripts/generate-assemblers.py:56-63 | Writes entry `k` of the chunk to `out[k]` and leaves the rest of `out` untouched. |
| ScriptAssembler.Assembler.ChunkBoxAxes | scripts/generate-assemblers.py:113-119 | The chunk bounds restrict axis 0 only (a negative bound means none); the other axes range over all their basis functions. |
| ScriptAssembler.Assembler.ChunkBox | scripts/generate-assemblers.py:113-119 | Builds the start and end of the chunk box as stated by the chunk bounds. |
| ScriptAssembler.Assembler.NeighbourBox | scripts/generate-assemblers.py:126-130 | Builds the box of basis functions whose support meets that of `I`, axis by axis. |
| ScriptAssembler.Assembler.NeighbourInRange | scripts/generate-assemblers.py:126-130 | Every neighbour is a valid multi-index. |
| ScriptAssembler.Assembler.NeighboursNonempty | scripts/generate-assemblers.py:126-130 | The neighbour box is never empty, so the `while True` loop body runs at least once. |
| ScriptAssembler.Assembler.PairTriplesRecorded | scripts/generate-assemblers.py:134-144 | Every triple pushed for a pair carries in-range indices and the entry of the smaller index (row) against the larger (column). |
| ScriptAssembler.Assembler.RowTriplesRecorded | scripts/generate-assemblers.py:126-147 | All triples of one row are so recorded. |
| ScriptAssembler.Assembler.RowTriplesBalanced | scripts/generate-assemblers.py:126-147 | The triples of one row are mirror-balanced. |
| ScriptAssembler.Assembler.ChunkTriplesRecorded | scripts/generate-assemblers.py:121-149 | Every triple of a chunk is a computed entry of a neighbouring pair at its own position or mirrored. Together with `ChunkTriplesDistinct` and `ChunkTriplesCover`, the assembled matrix is, entry for entry, the computed upper triangle and its mirror. |
| ScriptAssembler.Assembler.NeighbourPositionInjective | scripts/generate-assemblers.py:127-143 | Two neighbours of one row that are pushed at the same position are the same neighbour. |
| ScriptAssembler.Assembler.RowPositions | scripts/generate-assemblers.py:127-146 | Over the first `s` neighbours of a row, a position is recorded exactly once if one of them is pushed there, and never otherwise. |
| ScriptAssembler.Assembler.ChunkRowPositionInjective | scripts/generate-assemblers.py:121-149 | Two rows of a chunk that push a triple at the same position are the same row. |
| ScriptAssembler.Assembler.ChunkPositions | scripts/generate-assemblers.py:121-149 | Over the first `t` rows of a chunk, a position is recorded exactly once if one of those rows pushes a triple there, and never otherwise. |
| ScriptAssembler.Assembler.ChunkTriplesDistinct | scripts/generate-assemblers.py:121-149 | No two triples of a chunk share a position `(row, col)`. |
| ScriptAssembler.Assembler.ChunkTriplesCover | scripts/generate-assemblers.py:127-146 | For each row `I` of the chunk and each neighbour `J` with `Rank(J) >= Rank(I)`, the triple `(Rank(I), Rank(J), entry)` is recorded, and so is its mirror when `Rank(J) > Rank(I)`. |
| ScriptAssembler.Assembler.ChunkTriplesBalanced | scripts/generate-assemblers.py:121-149 | The triples of a chunk are mirror-balanced, so the assembled COO matrix is symmetric. |
| ScriptAssembler.Assembler.RowUnfold | scripts/generate-assemblers.py:132-147 | One more neighbour appends exactly the triples of the pair it forms with `I`. |
| ScriptAssembler.Assembler.ChunkUnfold | scripts/generate-assemblers.py:121-149 | One more row appends exactly all triples of that row. |
| ScriptAssembler.Assembler.VisitPair | scripts/generate-assemblers.py:134-144 | Computes the entry only when `jj >= ii`, and pushes it at `(ii, jj)` and, off the diagonal, at `(jj, ii)`. |
| ScriptAssembler.Assembler.RowStep | scripts/generate-assemblers.py:132-147 | The row's triples after visiting neighbour `s` are those before it plus that pair's triples. |
| ScriptAssembler.Assembler.AssembleRow | scripts/generate-assemblers.py:126-147 | The inner loop appends exactly the triples of all neighbours of `I`, in lexicographic order. |
| ScriptAssembler.Assembler.GenericAssemble | scripts/generate-assemblers.py:103-149 | The output vectors hold exactly the chunk's triples, row by row in lexicographic order. |
| Banded.FirstNonzeroDecides | pyiga/codegen/cython.py:734-746 | A slot is off the diagonal iff some axis offset is non-zero, and above it iff the first non-zero offset is positive. This is the cascaded `diag` test of the kernel. |
| Banded.MirrorAbove | pyiga/codegen/cython.py:734-753 | Negating every offset turns "above the diagonal" into "off the diagonal and not above it". |
| Banded.TransposedIndexFacts | pyiga/codegen/cython.py:753 | The transposed multi-index is in range, is an involution, swaps the test and trial indices, and negates the offsets. |
| Banded.TransposedSlotFacts | pyiga/codegen/cython.py:753 | The transposed slot is a slot, holds the transposed multi-index, and transposing twice leads back. |
| Banded.SkippedPartner | pyiga/codegen/cython.py:734-753 | In symmetric mode a slot's transposed slot is skipped iff the slot is computed and off the diagonal; an off-diagonal slot differs from its transposed slot. |
| Banded.SourceStep | pyiga/codegen/cython.py:748-753 | Visiting slot `t` fills slot `t` (when not skipped) and, off the diagonal in symmetric mode, its transposed slot; every other slot is unchanged. |
| Banded.SymmetricAssemblyIsFull | pyiga/codegen/cython.py:734-753 | For an entry symmetric in its arguments, the symmetric kernel's result equals evaluating every slot directly. |
| Banded.TransposedComponentInvolution | pyiga/codegen/cython.py:897-899 | Swapping row and column within an `nc x nc` block twice is the identity. |
| Banded.SymmetricBlockAssemblyIsFull | pyiga/codegen/cython.py:888-899 | If swapping the pair transposes the block, the symmetric vector kernel's result equals evaluating every block directly. |
| CythonAssembler.InitSpaceInfo | pyiga/codegen/cython.py:556-565 | Records each knot vector's number of functions, degree and mesh support, per axis. |
| CythonAssembler.BaseInit | pyiga/codegen/cython.py:556-579 | Fails exactly when a list does not hold `DIM` knot vectors, as the assertion in `init_spaceinfo` does. Otherwise the test space defaults to the trial space, and `nqp` is the largest degree of both spaces plus one. |
| CythonAssembler.QuadRuleOfBoth | pyiga/codegen/cython.py:578 | The maximum over `kvs0 + kvs1` exceeds every degree of both spaces and is attained by one of them. |
| CythonAssembler.BaseAssembler.constructor | pyiga/codegen/cython.py:574-579 | Initialises both spaces and the quadrature size as `base_init` does, with `kvs = (kvs0, kvs1)`. |
| CythonAssembler.BaseAssembler.VectorEntryAt | pyiga/codegen/cython.py:589-596 | The vector entry at the rank of `I` is `entry_impl(I, null)`. |
| CythonAssembler.BaseAssembler.MatrixEntryAt | pyiga/codegen/cython.py:598-606 | The matrix entry at (rank of `I` in the test space, rank of `J` in the trial space) is `entry_impl(I, J)`. |
| CythonAssembler.BaseAssembler.Entry1 | pyiga/codegen/cython.py:589-596 | Returns 0 unless the form is linear, and then the entry at `i`. |
| CythonAssembler.BaseAssembler.Entry | pyiga/codegen/cython.py:598-606 | Returns 0 unless the form is bilinear, with `i` in the test space and `j` in the trial space. |
| CythonAssembler.BaseAssembler.MultiEntriesChunk | pyiga/codegen/cython.py:610-619 | Writes nothing unless bilinear; then `out[k]` is entry `k` of the index pairs and the rest of `out` is untouched. |
| CythonAssembler.BaseAssembler.AssembleVector | pyiga/codegen/cython.py:658-674 | No result unless linear; otherwise a fresh array of length `N` whose position `t` holds the entry of the `t`-th multi-index in C order. |
| CythonAssembler.DiagonalTest | pyiga/codegen/cython.py:734-746 | The cascaded per-axis test decides "above the diagonal" and "off the diagonal" exactly. |
| CythonAssembler.AsmCoreKernelSlot | pyiga/codegen/cython.py:715-753 | Visiting one slot updates every slot to its state after one more visit: computed or skipped, with the transposed write. |
| CythonAssembler.GenericAssembleCore | pyiga/codegen/cython.py:682-710 | No result unless bilinear. Otherwise every slot holds the entry of the pair that fills it: its own pair, or the transposed one when skipped. |
| CythonAssembler.BaseVectorAssembler.constructor | pyiga/codegen/cython.py:770-775 | Initialises both spaces, the quadrature size and the component counts. |
| CythonAssembler.BaseVectorAssembler.FromSeq | pyiga/codegen/cython.py:788-795 | Writes the C-order multi-index of `i` over the space extents followed by the component axis. |
| CythonAssembler.BaseVectorAssembler.ComponentLayout | pyiga/codegen/cython.py:788-795 | Position `rank(I)*nc + c` is component `c` of function `I`, and it decodes back to `(I, c)`. |
| CythonAssembler.BaseVectorAssembler.EntryImpl | pyiga/codegen/cython.py:254-258 | The generated routine adds the kernel's component `c` to position `base + c` of the output (`result[c] += ...`) and changes nothing else. |
| CythonAssembler.BaseVectorAssembler.AssembleVector | pyiga/codegen/cython.py:802-818 | No result unless linear; otherwise position `q` holds component `q mod nc` of the `q div nc`-th function. |
| CythonAssembler.BaseVectorAssembler.VectorStep | pyiga/codegen/cython.py:813-815 | The block of the next function is still zero, so the additive `entry_impl` leaves exactly its entries there. The output pointer advances by `numcomp[0]`, and everything after it stays zero. |
| CythonAssembler.BlockPosition | pyiga/codegen/cython.py:893 | A position inside a block belongs to exactly one block. |
| CythonAssembler.BlocksDisjoint | pyiga/codegen/cython.py:893-899 | Different blocks do not overlap. |
| CythonAssembler.CopyTransposedBlock | pyiga/codegen/cython.py:897-899 | The double loop copies the source block, transposed, into the destination block and changes nothing else. |
| CythonAssembler.CopyTransposedRow | pyiga/codegen/cython.py:898-899 | One `row` iteration writes that row's cells from the transposed cells and changes nothing else. |
| CythonAssembler.AsmCoreVecKernelSlot | pyiga/codegen/cython.py:859-899 | Visiting one slot updates every block component to its state after one more visit. |
| CythonAssembler.FillBlock | pyiga/codegen/cython.py:893 | The block of a computed slot `t` is still zero when it is visited (no earlier transposed copy targets it), so `entry_impl` leaves exactly that slot's block there. All other blocks are left as they were. |
| CythonAssembler.FillTransposedBlock | pyiga/codegen/cython.py:895-899 | Off the diagonal, the transposed slot's block receives the transposed copy; every other position is unchanged. |
| CythonAssembler.TransposedFill | pyiga/codegen/cython.py:895-899 | After the copy, every position holds what it should hold after slot `t` is visited. |
| CythonAssembler.GenericAssembleCoreVec | pyiga/codegen/cython.py:823-854 | No result unless bilinear. Otherwise each block component holds the kernel's value for the pair that fills that slot, transposed for a skipped slot. |

## Left out

- Threading: `prange` over the first pattern axis, thread pools, `multi_entries`, `multi_assemble`, `shared_clone`, `_share_base`, the `*_parallel` drivers and chunk splitting. Only the sequential code paths are modelled.
- Floating point: entries are `real`, and the generated kernels (`entry_impl`, `combine`) are uninterpreted function parameters.
- The Jinja templating and module assembly (`generate_generic`, `generate`, `generate_kernel`, `generate_entry_impl`, the `declare_*` and `load_field_var` helpers, `start_loop_with_fields`). Only the named emitters are modelled.
- The conversion of COO triples to a scipy matrix after `generic_assemble_{DIM}d`: the model returns the three vectors.
- `clear_spaceinfo`, `__dealloc__`, `entry_func_ptr`, `_entry_func_{DIM}d`, `num_components`: memory-management and C-callback glue.
- `get_transpose_idx_for_bidx` is not part of this model. The transposition table is a parameter characterised by `Banded.TransposeOf`.
- `find_joint_support_functions` is not part of this model. The neighbour range is an abstract function constrained by `ScriptAssembler.Assembler.NeighboursValid`.
- `next_lexicographic`, `intersect_intervals` and `make_intv` are not part of the source files modelled. They are given definitions here whose contracts their call sites require.
- The kernels' nested `for mu_k` loops over the pattern are flattened to one loop over C-order slots, with the same visiting order.
- CythonAssembler.BaseAssembler.constructor: requires `DIM` knot vectors in `kvs0` and, when given, in `kvs1`. A wrong count, where the source's assertion in `init_spaceinfo` raises, is excluded here because a constructor has no failure result. `CythonAssembler.BaseInit` models that failure as `None`.
- CythonAssembler.BaseVectorAssembler.constructor: requires `DIM` knot vectors in `kvs0` and, when given, in `kvs1`. A wrong count, where the source's assertion in `init_spaceinfo` raises, is excluded here because a constructor has no failure result. `CythonAssembler.BaseInit` models that failure as `None`.
- CythonAssembler.GenericAssembleCoreVec: symmetric mode requires `numcomp[0] == numcomp[1]`, because the transposed copy is only well-defined for square blocks. It also requires a non-empty block.
- C integer widths: `size_t`, `long` and the `<int>` casts of the diagonal test are unbounded integers here, so overflow and wrap-around are not modelled.
- AsmGen.AsmGenerator.GenAssignMatrix: emits the corrected row-major slot `i*n+j`, not the source's `i*m+j` (see Findings). The two agree on square matrices (`AsmGen.LayoutsAgreeOnSquare`).
- AsmGen.AsmGenerator.GenAssignRow: emits the corrected row-major slot `i*n+j`, not the source's `i*m+j` (see Findings). The two agree on square matrices (`AsmGen.LayoutsAgreeOnSquare`).
- ScriptAssembler.Assembler.GenericAssemble: requires a non-empty row chunk (`chunk_start < chunk_end`). The source's do-while loop would still assemble row `dof_start` of an empty chunk, and would read past `meshsupp` when `chunk_start == ndofs[0]`. The chunks come from the chunk-splitting code, which is not part of this model.
- AsmGen.AsmGenerator.GenAssign: uses the corrected slot `i*n+j` (see Findings). Its contract is therefore not the as-written behaviour for non-square matrices; `AsmGen.AsWrittenSlotsCollide` covers that behaviour.
- The `AsmGenerator` methods other than those listed (`declare_var`, `declare_params`, `declare_array_vars`, `end_function` and the rest) lie outside this model's core.

## Findings

| source | as written | input that shows it | evidently intended | confidence | as-written member | corrected member |
|---|---|---|---|---|---|---|
| pyiga/codegen/cython.py:131 | matrix entry `(i, j)` of an `m x n` matrix is assigned to slot `i*m + j` | a 2x3 matrix variable: entries (0,2) and (1,0) both go to slot 2, and slot 5 is never written | row-major slot `i*n + j`, so each of the `m*n` slots is written once | not executed | AsmGen.AsWrittenSlotsCollide | AsmGen.MatrixAssignsCoverage |
