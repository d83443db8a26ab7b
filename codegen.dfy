/**
 * The line buffer of the Cython code generator: a list of emitted lines and
 * an indentation prefix that `indent`/`dedent` grow and shrink in steps of
 * four spaces.
 */
module CodeGenerator {
  import opened Text
  import opened Wrappers

  const INDENT_UNIT: string := "    "

  /** The line `put(s)` stores: an empty string stays empty, anything else gets the current prefix. */
  function IndentedLine(indentation: string, s: string): string
  {
    if |s| == 0 then "" else indentation + s
  }

  /** The text of `declare_local_variable(type, name, init)`. */
  function Declaration(typ: string, name: string, init: Option<string>): string
  {
    match init
    case Some(v) => "cdef " + typ + " " + name + " = " + v
    case None => "cdef " + typ + " " + name
  }

  class CodeGen {
    var lines: seq<string>
    var indentation: string

    constructor ()
      ensures lines == [] && indentation == ""
    {
      lines := [];
      indentation := "";
    }

    /** `indent(num)`: append `num` indentation units (none when `num <= 0`). */
    method Indent(num: int := 1)
      modifies this
      ensures indentation == old(indentation) + Repeat(INDENT_UNIT, num)
      ensures |indentation| == |old(indentation)| + (if num > 0 then 4 * num else 0)
      ensures AllSpaces(old(indentation)) ==> AllSpaces(indentation)
      ensures lines == old(lines)
    {
      RepeatSpaces(num);
      indentation := indentation + Repeat(INDENT_UNIT, num);
    }

    /** `dedent(num)`: keep `indentation[4*num:]`, Python slice semantics included. */
    method Dedent(num: int := 1)
      modifies this
      ensures indentation == SliceFrom(old(indentation), 4 * num)
      ensures AllSpaces(old(indentation)) ==> AllSpaces(indentation)
      ensures lines == old(lines)
    {
      indentation := SliceFrom(indentation, 4 * num);
    }

    /** `put(s)`: append exactly one line. */
    method Put(s: string)
      modifies this
      ensures lines == old(lines) + [IndentedLine(old(indentation), s)]
      ensures indentation == old(indentation)
    {
      if |s| == 0 {
        lines := lines + [""];
      } else {
        lines := lines + [indentation + s];
      }
    }

    method DeclareLocalVariable(typ: string, name: string, init: Option<string> := None)
      modifies this
      ensures lines == old(lines) + [IndentedLine(old(indentation), Declaration(typ, name, init))]
      ensures indentation == old(indentation)
    {
      if init.Some? {
        Put("cdef " + typ + " " + name + " = " + init.value);
      } else {
        Put("cdef " + typ + " " + name);
      }
    }

    /** `for_loop(idx, upper)`: the loop header, then one level deeper. */
    method ForLoop(idx: string, upper: string)
      modifies this
      ensures lines == old(lines) + [IndentedLine(old(indentation), "for " + idx + " in range(" + upper + "):")]
      ensures indentation == old(indentation) + INDENT_UNIT
    {
      Put("for " + idx + " in range(" + upper + "):");
      Indent();
    }

    method EndLoop()
      modifies this
      ensures indentation == SliceFrom(old(indentation), 4)
      ensures lines == old(lines)
    {
      Dedent();
    }

    /** `result()`: the lines joined by newlines. */
    function Result(): string
      reads this
    {
      Join("\n", lines)
    }
  }

  /** `indent(n)` followed by `dedent(n)` gives back an all-space prefix unchanged. */
  lemma IndentDedentRestores(indentation: string, n: int)
    requires AllSpaces(indentation) && n >= 0
    ensures SliceFrom(indentation + Repeat(INDENT_UNIT, n), 4 * n) == indentation
  {
    RepeatSpaces(n);
    var grown := indentation + Repeat(INDENT_UNIT, n);
    assert AllSpaces(grown);
    AllSpacesEqual(SliceFrom(grown, 4 * n), indentation);
  }

  /** The generated text splits back into exactly the lines that were put, when none contains a newline. */
  lemma ResultLines(lines: seq<string>)
    requires |lines| >= 1
    requires forall k :: 0 <= k < |lines| ==> '\n' !in lines[k]
    ensures SplitOn(Join("\n", lines), "\n") == lines
  {
    SplitJoin(lines, "\n");
  }
}
