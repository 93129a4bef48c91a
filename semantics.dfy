/** What the preprocessor does, as functions on values: the three tables of
    `Preprocessor` (src/main.rs), the effect of each directive handler on them,
    the dispatch on a directive's first token, and the single forward pass of
    `run` over the lines of the input. The class in engine.dfy is proved to
    behave exactly as these functions say. */
module Semantics {
  import opened Text

  /** `PreprocessorError`. */
  datatype PreprocessorError = EmptyDirective | InvalidInclude

  /** The two ways the handlers can panic: indexing the token vector past its end,
      and slicing the include token at a byte range Rust refuses. */
  datatype PanicKind = IndexOutOfBounds | SliceOutOfRange

  /** Every way a pass can end early: an error returned through `?`, a panic, or
      the `exit(1)` taken on an unsupported directive (with the offending token). */
  datatype Halt =
    | Failed(error: PreprocessorError)
    | Panicked(kind: PanicKind)
    | Aborted(directive: string)

  /** The fields `definitions`, `substitutions` and `includes`. */
  datatype Tables = Tables(
    definitions: set<string>,
    substitutions: map<string, string>,
    includes: set<string>)

  /** What one directive or one line does: go on with new tables, or stop. */
  datatype Step = Continue(tables: Tables) | Stop(halt: Halt)

  /** What `run` returns, with `exit` and panics made into values. */
  datatype Outcome = Done(output: string) | Halted(halt: Halt)

  datatype RunResult = RunResult(outcome: Outcome, tables: Tables)

  /** The tables as `Preprocessor::new` creates them. */
  const Empty := Tables({}, map[], {})

  /** No name is both a flag macro and a substitution macro. */
  predicate Disjoint(t: Tables) {
    t.definitions !! t.substitutions.Keys
  }

  /** `t2` agrees with `t1` on every name other than `name`, in both macro tables. */
  ghost predicate SameMacrosExcept(t1: Tables, t2: Tables, name: string) {
    (forall n :: n != name ==> (n in t2.definitions <==> n in t1.definitions))
    && (forall n :: n != name ==> (n in t2.substitutions <==> n in t1.substitutions))
    && (forall n :: n != name && n in t1.substitutions && n in t2.substitutions ==>
          t2.substitutions[n] == t1.substitutions[n])
  }

  // ---------------------------------------------------------------------------
  // The handlers
  // ---------------------------------------------------------------------------

  /** `process_define`. With exactly two tokens the name becomes a flag macro and
      loses any replacement text; otherwise (from three tokens on) it maps to the
      remaining tokens joined by single spaces and stops being a flag. */
  function Define(t: Tables, tokens: seq<string>): (r: Step)
    ensures |tokens| == 0 <==> r == Stop(Failed(EmptyDirective))
    ensures |tokens| == 1 <==> r == Stop(Panicked(IndexOutOfBounds))
    ensures |tokens| >= 2 <==> r.Continue?
    ensures |tokens| == 2 ==>
      tokens[1] in r.tables.definitions && tokens[1] !in r.tables.substitutions
    ensures |tokens| >= 3 ==>
      tokens[1] !in r.tables.definitions && tokens[1] in r.tables.substitutions
      && r.tables.substitutions[tokens[1]] == Join(tokens[2..], " ")
    ensures r.Continue? ==>
      r.tables.includes == t.includes && SameMacrosExcept(t, r.tables, tokens[1])
    ensures r.Continue? && Disjoint(t) ==> Disjoint(r.tables)
  {
    if |tokens| == 0 then Stop(Failed(EmptyDirective))
    else if |tokens| == 2 then
      Continue(t.(definitions := t.definitions + {tokens[1]},
                  substitutions := t.substitutions - {tokens[1]}))
    else if |tokens| < 2 then Stop(Panicked(IndexOutOfBounds))
    else
      Continue(t.(definitions := t.definitions - {tokens[1]},
                  substitutions := t.substitutions[tokens[1] := Join(tokens[2..], " ")]))
  }

  /** `process_undef`: the name stops being a flag macro; a substitution macro of
      that name is left alone. */
  function Undef(t: Tables, tokens: seq<string>): (r: Step)
    ensures |tokens| == 0 <==> r == Stop(Failed(EmptyDirective))
    ensures |tokens| == 1 <==> r == Stop(Panicked(IndexOutOfBounds))
    ensures |tokens| >= 2 <==> r.Continue?
    ensures r.Continue? ==>
      tokens[1] !in r.tables.definitions
      && r.tables.substitutions == t.substitutions && r.tables.includes == t.includes
      && SameMacrosExcept(t, r.tables, tokens[1])
    ensures r.Continue? && Disjoint(t) ==> Disjoint(r.tables)
  {
    if |tokens| == 0 then Stop(Failed(EmptyDirective))
    else if |tokens| < 2 then Stop(Panicked(IndexOutOfBounds))
    else Continue(t.(definitions := t.definitions - {tokens[1]}))
  }

  /** The path `process_include` checks: the bytes of the second token from offset 1
      up to (not including) offset "number of tokens - 1"; `None` where that slice
      panics. */
  function IncludePath(tokens: seq<string>): Option<string>
    requires |tokens| >= 2
  {
    ByteSlice(tokens[1], 1, |tokens| - 1)
  }

  /** `process_include`, with `File::open(name).is_ok()` given as `canOpen(name)`. */
  function Include(t: Tables, tokens: seq<string>, canOpen: string -> bool): (r: Step)
    ensures |tokens| == 0 <==> r == Stop(Failed(EmptyDirective))
    ensures |tokens| == 1 <==> r == Stop(Panicked(IndexOutOfBounds))
    ensures |tokens| >= 2 ==>
      (r == Stop(Panicked(SliceOutOfRange)) <==> IncludePath(tokens).None?)
    ensures |tokens| >= 2 && IncludePath(tokens).Some? ==>
      (r == Stop(Failed(InvalidInclude)) <==> !canOpen(IncludePath(tokens).value))
    ensures r.Continue? <==>
      |tokens| >= 2 && IncludePath(tokens).Some? && canOpen(IncludePath(tokens).value)
    ensures r.Continue? ==>
      |tokens| >= 2 && IncludePath(tokens).Some?
      && r.tables.includes == t.includes + {IncludePath(tokens).value}
      && r.tables.definitions == t.definitions
      && r.tables.substitutions == t.substitutions
  {
    if |tokens| == 0 then Stop(Failed(EmptyDirective))
    else if |tokens| < 2 then Stop(Panicked(IndexOutOfBounds))
    else match IncludePath(tokens)
      case None => Stop(Panicked(SliceOutOfRange))
      case Some(name) =>
        if !canOpen(name) then Stop(Failed(InvalidInclude))
        else Continue(t.(includes := t.includes + {name}))
  }

  /** On an ASCII path token long enough for the slice, the include path is a plain
      character slice whose end is fixed by the token count, not the token length. */
  lemma IncludePathAscii(tokens: seq<string>)
    requires |tokens| >= 2 && IsAscii(tokens[1]) && |tokens| - 1 <= |tokens[1]|
    ensures IncludePath(tokens) == Some(tokens[1][1..|tokens| - 1])
  {
    AsciiByteSlice(tokens[1], 1, |tokens| - 1);
  }

  /** With an ASCII path token long enough for the slice, and any number of tokens
      from two on, `#include` checks the token's characters 1 up to the token count
      minus 1: it records them when they open and fails with InvalidInclude when
      they do not. */
  lemma IncludeAscii(t: Tables, tokens: seq<string>, canOpen: string -> bool)
    requires |tokens| >= 2 && IsAscii(tokens[1]) && |tokens| - 1 <= |tokens[1]|
    ensures var path := tokens[1][1..|tokens| - 1];
      Include(t, tokens, canOpen) ==
        if canOpen(path) then Continue(t.(includes := t.includes + {path}))
        else Stop(Failed(InvalidInclude))
  {
    IncludePathAscii(tokens);
  }

  /** `#include "a.h"` has two tokens, so the checked path is always the empty
      string, whatever the quoted name is, as long as its first character is ASCII. */
  lemma IncludeTwoTokens(t: Tables, keyword: string, path: string, canOpen: string -> bool)
    requires path != [] && path[0] as int < 0x80
    ensures Include(t, [keyword, path], canOpen) ==
      if canOpen("") then Continue(t.(includes := t.includes + {""}))
      else Stop(Failed(InvalidInclude))
  {
    assert CharIndex(path, 1) == Some(1);
    assert IncludePath([keyword, path]) == Some("");
  }

  /** A two-token include whose path starts with a multi-byte character panics:
      byte offset 1 falls inside that character. */
  lemma IncludeTwoTokensWide(t: Tables, keyword: string, path: string, canOpen: string -> bool)
    requires path != [] && path[0] as int >= 0x80
    ensures Include(t, [keyword, path], canOpen) == Stop(Panicked(SliceOutOfRange))
  {
    assert CharIndex(path, 1) == None;
  }

  // ---------------------------------------------------------------------------
  // Classification and dispatch
  // ---------------------------------------------------------------------------

  /** `line.starts_with('#')`. */
  predicate IsDirective(line: string) {
    |line| > 0 && line[0] == '#'
  }

  /** The first tokens that `run` dispatches on; anything else is unsupported. */
  predicate IsKnownKeyword(keyword: string) {
    keyword == "#define" || keyword == "#include" || keyword == "#undef"
    || keyword == "#region" || keyword == "#endregion"
  }

  /** The `match line[0]` of `run`, on a non-empty token vector. */
  function Dispatch(t: Tables, tokens: seq<string>, canOpen: string -> bool): (r: Step)
    requires |tokens| > 0
    ensures r.Stop? && r.halt.Aborted? <==> !IsKnownKeyword(tokens[0])
    ensures r.Stop? && r.halt.Aborted? ==> r.halt.directive == tokens[0]
    ensures tokens[0] == "#region" || tokens[0] == "#endregion" ==> r == Continue(t)
    ensures r != Stop(Failed(EmptyDirective))
    ensures r.Continue? && Disjoint(t) ==> Disjoint(r.tables)
  {
    match tokens[0]
    case "#define" => Define(t, tokens)
    case "#include" => Include(t, tokens, canOpen)
    case "#undef" => Undef(t, tokens)
    case "#region" => Continue(t)
    case "#endregion" => Continue(t)
    case _ => Stop(Aborted(tokens[0]))
  }

  /** The whitespace tokens of a directive line: never empty, and the keyword
      starts with '#'. */
  lemma DirectiveTokens(line: string)
    requires IsDirective(line)
    ensures |SplitWhitespace(line)| > 0 && SplitWhitespace(line)[0][0] == '#'
  {
    FirstToken(line);
  }

  /** What one line does to the tables: only a line starting with '#' can do
      anything. */
  function StepLine(t: Tables, line: string, canOpen: string -> bool): (r: Step)
    ensures !IsDirective(line) ==> r == Continue(t)
    ensures r != Stop(Failed(EmptyDirective))
    ensures r.Continue? && Disjoint(t) ==> Disjoint(r.tables)
  {
    if IsDirective(line) then
      DirectiveTokens(line);
      Dispatch(t, SplitWhitespace(line), canOpen)
    else Continue(t)
  }

  // ---------------------------------------------------------------------------
  // The pass
  // ---------------------------------------------------------------------------

  /** The loop of `run` from some line on, with tables `t` and output so far `acc`:
      every line, directive or not, is appended unchanged; the first line whose
      step stops ends the pass with the tables as they were before that line. */
  function RunFrom(lines: seq<string>, t: Tables, acc: string, canOpen: string -> bool): (r: RunResult)
    ensures r.outcome.Done? ==> r.outcome.output == acc + Concat(lines)
    ensures r.outcome != Halted(Failed(EmptyDirective))
    ensures Disjoint(t) ==> Disjoint(r.tables)
    decreases |lines|
  {
    if lines == [] then RunResult(Done(acc), t)
    else match StepLine(t, lines[0], canOpen)
      case Continue(t') => RunFrom(lines[1..], t', acc + lines[0], canOpen)
      case Stop(h) => RunResult(Halted(h), t)
  }

  /** `Preprocessor::new` followed by `run`. */
  function Run(input: string, canOpen: string -> bool): RunResult {
    RunFrom(Lines(input), Empty, "", canOpen)
  }

  // ---------------------------------------------------------------------------
  // Properties of the pass
  // ---------------------------------------------------------------------------

  /** Running two blocks of lines is running the first and, only if it finished,
      the second from where it left off: nothing after a halting line is read. */
  lemma {:induction false} RunFromAppend(a: seq<string>, b: seq<string>, t: Tables, acc: string,
                                         canOpen: string -> bool)
    ensures RunFrom(a + b, t, acc, canOpen) ==
      var r := RunFrom(a, t, acc, canOpen);
      if r.outcome.Done? then RunFrom(b, r.tables, r.outcome.output, canOpen) else r
    decreases |a|
  {
    if a == [] {
      assert a + b == b;
    } else {
      assert (a + b)[0] == a[0];
      assert (a + b)[1..] == a[1..] + b;
      match StepLine(t, a[0], canOpen)
      case Continue(t') => RunFromAppend(a[1..], b, t', acc + a[0], canOpen);
      case Stop(h) =>
    }
  }

  /** The first line that stops decides the result, whatever comes after it: the
      outcome is that line's halt and the tables are those left by the lines before. */
  lemma StopsAtFirstHalt(before: seq<string>, line: string, after: seq<string>, t: Tables,
                         acc: string, canOpen: string -> bool)
    requires RunFrom(before, t, acc, canOpen).outcome.Done?
    requires StepLine(RunFrom(before, t, acc, canOpen).tables, line, canOpen).Stop?
    ensures RunFrom(before + [line] + after, t, acc, canOpen) ==
      RunResult(Halted(StepLine(RunFrom(before, t, acc, canOpen).tables, line, canOpen).halt),
                RunFrom(before, t, acc, canOpen).tables)
  {
    assert before + [line] + after == before + ([line] + after);
    RunFromAppend(before, [line] + after, t, acc, canOpen);
  }

  /** An unsupported directive on a line aborts the pass there with that token,
      whatever the later lines hold. */
  lemma UnsupportedDirectiveAborts(before: seq<string>, line: string, after: seq<string>, t: Tables,
                                   acc: string, canOpen: string -> bool)
    requires RunFrom(before, t, acc, canOpen).outcome.Done?
    requires IsDirective(line) && !IsKnownKeyword(SplitWhitespace(line)[0])
    ensures RunFrom(before + [line] + after, t, acc, canOpen).outcome ==
      Halted(Aborted(SplitWhitespace(line)[0]))
  {
    StopsAtFirstHalt(before, line, after, t, acc, canOpen);
  }

  /** Text with no directive line passes through with the tables untouched. */
  lemma {:induction false} BodyOnly(lines: seq<string>, t: Tables, acc: string, canOpen: string -> bool)
    requires forall i :: 0 <= i < |lines| ==> !IsDirective(lines[i])
    ensures RunFrom(lines, t, acc, canOpen) == RunResult(Done(acc + Concat(lines)), t)
    decreases |lines|
  {
    if lines != [] {
      BodyOnly(lines[1..], t, acc + lines[0], canOpen);
    }
  }

  /** Region markers leave every table as it was. */
  lemma RegionMarkers(t: Tables, line: string, canOpen: string -> bool)
    requires IsDirective(line)
    requires SplitWhitespace(line)[0] == "#region" || SplitWhitespace(line)[0] == "#endregion"
    ensures StepLine(t, line, canOpen) == Continue(t)
  {
  }

  /** On success the output of `run` is the input with its line terminators
      deleted: directives are echoed, nothing is substituted. */
  lemma RunOutput(input: string, canOpen: string -> bool)
    ensures Run(input, canOpen).outcome.Done? ==>
      Run(input, canOpen).outcome.output == DropLineBreaks(input)
  {
    ConcatLines(input);
  }

  /** The tables after a pass from empty tables never hold a name in both macro
      tables. */
  lemma RunKeepsDisjoint(input: string, canOpen: string -> bool)
    ensures Disjoint(Run(input, canOpen).tables)
  {
  }

  // ---------------------------------------------------------------------------
  // Sequences of directives
  // ---------------------------------------------------------------------------

  /** Defining a name as a flag and then with a replacement leaves it only in the
      substitution map. */
  lemma FlagThenSubstitution(t: Tables, name: string, value: string)
    ensures var t1 := Define(t, ["#define", name]).tables;
      var t2 := Define(t1, ["#define", name, value]).tables;
      name !in t2.definitions && name in t2.substitutions && t2.substitutions[name] == value
  {
  }

  /** `#undef` does not remove a substitution macro. */
  lemma SubstitutionSurvivesUndef(t: Tables, name: string, value: string)
    ensures var t1 := Define(t, ["#define", name, value]).tables;
      var t2 := Undef(t1, ["#undef", name]).tables;
      name !in t2.definitions && name in t2.substitutions && t2.substitutions[name] == value
  {
  }

  /** The text recorded for `#define N v1 .. vk` splits back into `v1 .. vk`. */
  lemma ReplacementRetokenises(t: Tables, line: string, canOpen: string -> bool)
    requires IsDirective(line) && |SplitWhitespace(line)| >= 3
    requires SplitWhitespace(line)[0] == "#define"
    ensures var tokens := SplitWhitespace(line);
      StepLine(t, line, canOpen).Continue?
      && SplitWhitespace(StepLine(t, line, canOpen).tables.substitutions[tokens[1]]) == tokens[2..]
  {
    var tokens := SplitWhitespace(line);
    SplitJoin(tokens[2..]);
  }
}
