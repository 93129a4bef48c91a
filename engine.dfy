/** The `Preprocessor` object of src/main.rs: its input text and the three tables it
    updates in place, the three directive handlers and the `run` loop. Each method
    is proved to do exactly what the matching function of `Semantics` says. */
module Engine {
  import opened Text
  import opened Semantics

  class Preprocessor {
    const input: string
    var definitions: set<string>
    var substitutions: map<string, string>
    var includes: set<string>

    /** The three tables as a value. */
    function State(): Tables
      reads this
    {
      Tables(definitions, substitutions, includes)
    }

    /** The table invariant: no name is both a flag and a substitution macro. */
    ghost predicate Valid()
      reads this
    {
      Disjoint(State())
    }

    /** `Preprocessor::new`, with the text it would read from the input file given
        directly. */
    constructor (input: string)
      ensures this.input == input
      ensures State() == Empty
      ensures Valid()
    {
      this.input := input;
      definitions := {};
      substitutions := map[];
      includes := {};
    }

    /** `process_define`. `failure` is `None` for `Ok(())`. */
    method ProcessDefine(tokens: seq<string>) returns (failure: Option<Halt>)
      modifies this
      ensures var step := Define(old(State()), tokens);
        if step.Continue? then failure.None? && State() == step.tables
        else failure == Some(step.halt) && State() == old(State())
    {
      if |tokens| == 0 {
        return Some(Failed(EmptyDirective));
      }
      if |tokens| == 2 {
        substitutions := substitutions - {tokens[1]};
        definitions := definitions + {tokens[1]};
      } else {
        if |tokens| < 2 {
          return Some(Panicked(IndexOutOfBounds));
        }
        definitions := definitions - {tokens[1]};
        substitutions := substitutions[tokens[1] := Join(tokens[2..], " ")];
      }
      return None;
    }

    /** `process_include`; `canOpen(name)` stands for `File::open(name)` succeeding. */
    method ProcessInclude(tokens: seq<string>, canOpen: string -> bool) returns (failure: Option<Halt>)
      modifies this
      ensures var step := Include(old(State()), tokens, canOpen);
        if step.Continue? then failure.None? && State() == step.tables
        else failure == Some(step.halt) && State() == old(State())
    {
      if |tokens| == 0 {
        return Some(Failed(EmptyDirective));
      }
      if |tokens| < 2 {
        return Some(Panicked(IndexOutOfBounds));
      }
      var path := ByteSlice(tokens[1], 1, |tokens| - 1);
      if path.None? {
        return Some(Panicked(SliceOutOfRange));
      }
      var name := path.value;
      if !canOpen(name) {
        return Some(Failed(InvalidInclude));
      }
      includes := includes + {name};
      return None;
    }

    /** `process_undef`. */
    method ProcessUndef(tokens: seq<string>) returns (failure: Option<Halt>)
      modifies this
      ensures var step := Undef(old(State()), tokens);
        if step.Continue? then failure.None? && State() == step.tables
        else failure == Some(step.halt) && State() == old(State())
    {
      if |tokens| == 0 {
        return Some(Failed(EmptyDirective));
      }
      if |tokens| < 2 {
        return Some(Panicked(IndexOutOfBounds));
      }
      definitions := definitions - {tokens[1]};
      return None;
    }

    /** `run`: one pass over the lines of the input. Every line is appended to the
        result as it is (the `line` pushed is the text line, not the token vector
        that shadows it inside the directive branch); directive lines also go
        through the handlers, and the first failure ends the pass. */
    method Run(canOpen: string -> bool) returns (outcome: Outcome)
      modifies this
      ensures RunResult(outcome, State()) == RunFrom(Lines(input), old(State()), "", canOpen)
      ensures outcome.Done? ==> outcome.output == Concat(Lines(input))
      ensures outcome != Halted(Failed(EmptyDirective))
      ensures old(Valid()) ==> Valid()
    {
      var result := "";
      var lines := Lines(input);
      var i := 0;
      while i < |lines|
        invariant 0 <= i <= |lines|
        invariant result == Concat(lines[..i])
        invariant RunFrom(lines[i..], State(), result, canOpen) ==
                  RunFrom(lines, old(State()), "", canOpen)
        invariant old(Valid()) ==> Valid()
      {
        var line := lines[i];
        assert lines[i..][0] == line && lines[i..][1..] == lines[i + 1..];
        ghost var before := State();
        if IsDirective(line) {
          var tokens := SplitWhitespace(line);
          DirectiveTokens(line);
          assert StepLine(before, line, canOpen) == Dispatch(before, tokens, canOpen);
          var failure: Option<Halt>;
          if tokens[0] == "#define" {
            failure := ProcessDefine(tokens);
          } else if tokens[0] == "#include" {
            failure := ProcessInclude(tokens, canOpen);
          } else if tokens[0] == "#undef" {
            failure := ProcessUndef(tokens);
          } else if tokens[0] == "#region" || tokens[0] == "#endregion" {
            failure := None;
          } else {
            return Halted(Aborted(tokens[0]));
          }
          if failure.Some? {
            assert StepLine(before, line, canOpen) == Stop(failure.value);
            return Halted(failure.value);
          }
        }
        assert StepLine(before, line, canOpen) == Continue(State());
        ConcatStep(lines, i);
        result := result + line;
        i := i + 1;
      }
      assert lines[i..] == [];
      outcome := Done(result);
    }
  }

  lemma ConcatStep(lines: seq<string>, i: nat)
    requires i < |lines|
    ensures Concat(lines[..i + 1]) == Concat(lines[..i]) + lines[i]
  {
    assert lines[..i + 1] == lines[..i] + [lines[i]];
    ConcatAppend(lines[..i], [lines[i]]);
  }

  /** What `main` does with the core: build a preprocessor for the text and run it
      once. The result and the final tables are those of `Semantics.Run`. */
  method Preprocess(input: string, canOpen: string -> bool) returns (outcome: Outcome, tables: Tables)
    ensures RunResult(outcome, tables) == Run(input, canOpen)
    ensures Disjoint(tables)
    ensures outcome.Done? ==> outcome.output == Concat(Lines(input))
  {
    var p := new Preprocessor(input);
    outcome := p.Run(canOpen);
    tables := p.State();
  }
}
