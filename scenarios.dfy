/** Whole runs on small inputs, worked out from the definitions. They show the
    behaviour of `run` as written: directive lines are echoed, line breaks vanish,
    no macro is ever substituted, and a quoted include checks the empty path.
    Each input literal is a parameter fixed by a `requires` instead of written
    inline: string literals inside the calls make the solver time out. */
module Scenarios {
  import opened Text
  import opened Semantics

  /** A run over text without '\n' is one step on that line. */
  lemma RunOneLine(line: string, canOpen: string -> bool)
    requires line != [] && '\n' !in line
    ensures Run(line, canOpen) ==
      var step := StepLine(Empty, line, canOpen);
      if step.Continue? then RunResult(Done(line), step.tables) else RunResult(Halted(step.halt), Empty)
  {
    LinesSingle(line);
    var step := StepLine(Empty, line, canOpen);
    if step.Continue? {
      assert [line][1..] == [];
      assert RunFrom([line], Empty, "", canOpen) == RunFrom([], step.tables, "" + line, canOpen);
      assert "" + line == line;
    }
  }

  /** A run over two lines separated by '\n'. */
  lemma RunTwoLines(l1: string, l2: string, canOpen: string -> bool)
    requires IsBareLine(l1) && l2 != [] && '\n' !in l2
    requires StepLine(Empty, l1, canOpen).Continue?
    ensures Run(l1 + "\n" + l2, canOpen) == RunFrom([l2], StepLine(Empty, l1, canOpen).tables, l1, canOpen)
  {
    LinesCons(l1, l2);
    LinesSingle(l2);
    assert [l1] + [l2] == [l1, l2] && [l1, l2][1..] == [l2];
    assert "" + l1 == l1;
  }

  /** A directive line whose tokens are known steps by dispatching on them. */
  lemma DirectiveStep(line: string, ws: seq<string>, t: Tables, canOpen: string -> bool)
    requires IsDirective(line)
    requires line == Join(ws, " ")
    requires forall i :: 0 <= i < |ws| ==> IsWord(ws[i])
    ensures SplitWhitespace(line) == ws && |ws| > 0
    ensures StepLine(t, line, canOpen) == Dispatch(t, ws, canOpen)
  {
    SplitJoin(ws);
    DirectiveTokens(line);
  }

  /** `#define MAX 100` then a body line using MAX: the map records MAX -> 100 and
      the output is both lines glued together, MAX not replaced. */
  lemma DefineThenUse(l1: string, l2: string, canOpen: string -> bool)
    requires l1 == "#define MAX 100" && l2 == "int x = MAX;"
    ensures Run(l1 + "\n" + l2, canOpen) ==
      RunResult(Done(l1 + l2), Tables({}, map["MAX" := "100"], {}))
  {
    var t1 := Tables({}, map["MAX" := "100"], {});
    DefineMax(l1, canOpen);
    RunTwoLines(l1, l2, canOpen);
    NoDirectiveLine(l2, t1, l1, canOpen);
  }

  lemma DefineMax(l1: string, canOpen: string -> bool)
    requires l1 == "#define MAX 100"
    ensures StepLine(Empty, l1, canOpen) == Continue(Tables({}, map["MAX" := "100"], {}))
    ensures IsBareLine(l1)
  {
    var ws := ["#define", "MAX", "100"];
    DirectiveStep(l1, ws, Empty, canOpen);
    assert Join(ws[2..], " ") == "100";
  }

  lemma NoDirectiveLine(l: string, t: Tables, acc: string, canOpen: string -> bool)
    requires !IsDirective(l)
    ensures RunFrom([l], t, acc, canOpen) == RunResult(Done(acc + l), t)
  {
    assert [l][1..] == [];
  }

  /** `#define DEBUG` makes DEBUG a flag macro and nothing else. */
  lemma DefineFlag(line: string, canOpen: string -> bool)
    requires line == "#define DEBUG"
    ensures Run(line, canOpen) == RunResult(Done(line), Tables({"DEBUG"}, map[], {}))
  {
    DefineDebug(line, canOpen);
    RunOneLine(line, canOpen);
  }

  lemma DefineDebug(line: string, canOpen: string -> bool)
    requires line == "#define DEBUG"
    ensures StepLine(Empty, line, canOpen) == Continue(Tables({"DEBUG"}, map[], {}))
    ensures '\n' !in line
  {
    DirectiveStep(line, ["#define", "DEBUG"], Empty, canOpen);
  }

  /** `#define DEBUG` followed by `#ifdef-unused line`: the second line starts with
      '#', so it is a directive, and its keyword is unsupported: the run aborts
      there, with DEBUG already a flag. */
  lemma DefineFlagThenHashLine(l1: string, l2: string, canOpen: string -> bool)
    requires l1 == "#define DEBUG" && l2 == "#ifdef-unused line"
    ensures Run(l1 + "\n" + l2, canOpen) ==
      RunResult(Halted(Aborted("#ifdef-unused")), Tables({"DEBUG"}, map[], {}))
  {
    var t1 := Tables({"DEBUG"}, map[], {});
    DefineDebug(l1, canOpen);
    assert IsBareLine(l1);
    IfdefAborts(l2, t1, canOpen);
    RunTwoLines(l1, l2, canOpen);
    assert RunFrom([l2], t1, l1, canOpen) == RunResult(Halted(Aborted("#ifdef-unused")), t1);
  }

  lemma IfdefAborts(line: string, t: Tables, canOpen: string -> bool)
    requires line == "#ifdef-unused line"
    ensures StepLine(t, line, canOpen) == Stop(Aborted("#ifdef-unused"))
    ensures line != [] && '\n' !in line
  {
    DirectiveStep(line, ["#ifdef-unused", "line"], t, canOpen);
  }

  /** `#include "existing.h"` has two tokens, so the path checked and recorded is
      the empty string: the run succeeds exactly when "" can be opened. */
  lemma IncludeQuoted(line: string, canOpen: string -> bool)
    requires line == "#include \"existing.h\""
    ensures Run(line, canOpen) ==
      if canOpen("") then RunResult(Done(line), Tables({}, map[], {""}))
      else RunResult(Halted(Failed(InvalidInclude)), Empty)
  {
    IncludeExisting(line, canOpen);
    RunOneLine(line, canOpen);
  }

  lemma IncludeExisting(line: string, canOpen: string -> bool)
    requires line == "#include \"existing.h\""
    ensures StepLine(Empty, line, canOpen) ==
      if canOpen("") then Continue(Tables({}, map[], {""})) else Stop(Failed(InvalidInclude))
    ensures line != [] && '\n' !in line
  {
    IncludeTokens(line);
    var path := "\"existing.h\"";
    assert path[0] as int < 0x80;
    IncludeStep(line, path, canOpen);
  }

  lemma IncludeTokens(line: string)
    requires line == "#include \"existing.h\""
    ensures SplitWhitespace(line) == ["#include", "\"existing.h\""]
  {
    var ws := ["#include", "\"existing.h\""];
    assert Join(ws, " ") == line;
    SplitJoin(ws);
  }

  lemma IncludeStep(line: string, path: string, canOpen: string -> bool)
    requires IsDirective(line) && SplitWhitespace(line) == ["#include", path]
    requires path != [] && path[0] as int < 0x80
    ensures StepLine(Empty, line, canOpen) ==
      if canOpen("") then Continue(Tables({}, map[], {""})) else Stop(Failed(InvalidInclude))
  {
    IncludeTwoTokens(Empty, "#include", path, canOpen);
  }

  /** An unsupported directive ends the run with that token. */
  lemma UnknownDirective(line: string, canOpen: string -> bool)
    requires line == "#frobnicate"
    ensures Run(line, canOpen) == RunResult(Halted(Aborted("#frobnicate")), Empty)
  {
    Frobnicate(line, canOpen);
    RunOneLine(line, canOpen);
  }

  lemma Frobnicate(line: string, canOpen: string -> bool)
    requires line == "#frobnicate"
    ensures StepLine(Empty, line, canOpen) == Stop(Aborted("#frobnicate"))
    ensures line != [] && '\n' !in line
  {
    DirectiveStep(line, ["#frobnicate"], Empty, canOpen);
  }

  /** `#define` with no name indexes past the token vector: a panic. */
  lemma DefineWithoutName(line: string, canOpen: string -> bool)
    requires line == "#define"
    ensures Run(line, canOpen) == RunResult(Halted(Panicked(IndexOutOfBounds)), Empty)
  {
    DirectiveStep(line, ["#define"], Empty, canOpen);
    RunOneLine(line, canOpen);
  }
}
