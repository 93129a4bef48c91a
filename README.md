# A verified model of the rust-cpp directive engine

rust-cpp is a small C-style preprocessor written in Rust. Its engine is the
`Preprocessor` object in `src/main.rs`. That object holds the input text and
three tables:

- `definitions`: the flag macros;
- `substitutions`: each substitution macro's name and its replacement text;
- `includes`: the include paths that were checked.

`run` makes one pass over the lines of the input. A line that starts with `#` is
split into whitespace tokens and dispatched on its first token. `#define`,
`#include` and `#undef` go to their handlers, which update the tables in place.
`#region` and `#endregion` are no-ops. Any other keyword ends the process with
`exit(1)`. Every line is then appended to the result.

This project models that engine in Dafny and proves what it does:

- `text.dfy` (module `Text`): the parts of Rust's `str` that the engine calls.
  These are `lines`, `split_whitespace` (with the Unicode White_Space set),
  `join(" ")` and byte-offset slicing `&s[i..j]`. The slicing follows UTF-8
  widths, so it panics at an offset that is out of range or not on a character
  boundary. Each comes with lemmas that tie it to a partner. `split_whitespace`
  returns exactly the words of any text built from words and runs of
  whitespace, and every text is built that way from its own tokens. `lines`
  inverts writing each line followed by "\n" or "\r\n", and gluing its lines
  together deletes exactly the line terminators. A byte slice is the
  characters between the two byte offsets. Slicing ASCII text is ordinary
  character slicing. `lines` follows the current standard library: a lone '\r' that ends
  the last line, with no '\n' after it, is kept. Older toolchains also dropped
  that '\r'.
- `semantics.dfy` (module `Semantics`): the tables as a value (`Tables`). It
  defines each handler, the dispatch, one line's step and the whole pass
  (`RunFrom`, `Run`) as functions, together with the properties of the pass.
- `engine.dfy` (module `Engine`): `class Preprocessor`, whose set and map fields
  its methods update under `modifies this`. Each handler method is proved to
  leave exactly the state and result that the matching `Semantics` function
  gives. `Run` is the source's `for` loop with an early return. Its invariants
  say that `result` is the concatenation of the lines processed so far, and that
  finishing the pass from the current state gives the same answer as the whole
  pass from the start.
- `scenarios.dfy` (module `Scenarios`): whole runs on small inputs, worked out
  from the definitions.

How foreign effects are modelled:

- `File::open(name).is_ok()` becomes a parameter `canOpen: string -> bool`.
  Because of that parameter, `Preprocessor.Run` takes one argument where the
  Rust `run` takes none.
- A panic becomes a `Panicked(kind)` outcome.
- `eprintln!` plus `exit(1)` becomes `Aborted(token)`.
- An error returned through `?` becomes `Failed(error)`.

## Behaviour of the code as written

The model follows the code, including where it departs from what a C
preprocessor does.

- **No substitution.** `run` never reads `substitutions`, so no macro name in a
  body line is ever replaced, and the model does no replacement.
- **Directive lines are echoed.** Directive lines are not consumed. In `run`,
  the token vector shadows `line` only inside the `if` block
  (src/main.rs:111), so `result.push_str(line)` (src/main.rs:123) appends the
  original text of every line. That includes directive lines, and no newline is
  added. `Semantics.RunOutput` states the result: a successful run returns the input
  with every '\n' deleted, together with the '\r' of every "\r\n". `Scenarios.DefineThenUse`
  shows it on `#define MAX 100` followed by `int x = MAX;`.
- **The include path.** `process_include` slices the path token up to the token
  *count* minus one (src/main.rs:89). For `#include "a.h"` that count is 2, so
  the path it checks and records is always the empty string
  (`Semantics.IncludeTwoTokens`, `Scenarios.IncludeQuoted`). This holds provided
  the token's first character is ASCII. Otherwise byte 1 falls inside that
  character and the slice panics (`Semantics.IncludeTwoTokensWide`). Rust also panics when the path token has fewer
  bytes than the slice needs, or when the slice end falls inside a multi-byte
  character. `File::open("")` fails on every platform, so in practice every
  two-token `#include` whose path starts with an ASCII character ends the run
  with `InvalidInclude`. The model leaves `canOpen` free and states the outcome
  as depending on `canOpen("")`.
- **Missing name token.** `#define`, `#undef` or `#include` with no name token
  indexes `line[1]` past the end and panics (`Scenarios.DefineWithoutName`).
  The `is_empty` checks can never fire from `run`.

## Model

| member | source | states |
|---|---|---|
| Text.IsWhitespace | src/main.rs:111 | `char::is_whitespace`: exactly the code points of the Unicode White_Space property, which decide every token boundary of `split_whitespace` |
| Text.SplitWhitespace | src/main.rs:111 | every token is non-empty and free of whitespace; a line that starts with a non-whitespace character has, as its first token, its leading run of non-whitespace |
| Text.SplitInterleave | src/main.rs:111 | for any words separated by runs of whitespace (inner runs non-empty, leading and trailing runs possibly empty), the tokens are exactly those words, in order |
| Text.GapsCorrect | src/main.rs:111 | every text is its own tokens interleaved with whitespace runs of that shape, so the tokens are all the maximal non-whitespace runs of the line, in order |
| Text.SplitJoin | src/main.rs:79 | splitting words joined by single spaces gives the words back, so the recorded replacement text re-tokenises to the directive's arguments |
| Text.Lines | src/main.rs:109 | `str::lines`: the pieces between '\n's, one trailing '\r' dropped from each piece ended by '\n', no empty last line after a final '\n'; no line holds a '\n' (characterised by ConcatLines, LinesCrlf and LinesUnlines) |
| Text.ConcatLines | src/main.rs:109 | for every text, concatenating the lines that `lines` yields gives the text with every '\n' deleted, and the '\r' of every "\r\n" with it |
| Text.LinesCrlf | src/main.rs:109 | a line ended by "\r\n" is yielded without its "\r\n", whatever it ends with |
| Text.LinesUnlines | src/main.rs:109 | `lines` reads back exactly the lines of a text written as each line followed by "\r\n" or by "\n", for lines with no '\n' (and, before a bare "\n", no trailing '\r') |
| Text.Concat | src/main.rs:123 | the repeated `push_str`: the strings appended in order with nothing between them (ConcatAppend, ConcatLines and RunFrom state its use) |
| Text.Join | src/main.rs:79 | `join(" ")`: the words in order with the separator between consecutive ones (read back by SplitJoin) |
| Text.ByteSlice | src/main.rs:89 | `&s[i..j]` on byte offsets, `None` where Rust panics (characterised by ByteSliceCorrect and AsciiByteSlice) |
| Text.ByteSliceCorrect | src/main.rs:89 | a byte slice succeeds exactly when start <= end and both offsets are character boundaries, otherwise Rust panics; a successful slice is the characters from the one starting at byte start up to the one starting at byte end, and encodes to exactly end - start bytes |
| Text.AsciiByteSlice | src/main.rs:89 | on ASCII text, the byte slice [i..j] is the character slice when i <= j <= length, and a panic otherwise |
| Semantics.Define | src/main.rs:67-83 | no tokens gives EmptyDirective; one token panics on line[1]; two tokens make the name a flag and remove it from the substitution map; three or more map it to the remaining tokens joined by single spaces and remove it from the flags; includes and every other name are unchanged; disjointness is kept |
| Semantics.Undef | src/main.rs:97-103 | no tokens gives EmptyDirective; one token panics; otherwise the name leaves the flag set while the substitution map and the includes stay exactly as they were |
| Semantics.Include | src/main.rs:85-95 | no tokens gives EmptyDirective; one token panics; an unsliceable path panics; a path that cannot be opened gives InvalidInclude with nothing changed; the include succeeds exactly when the path slices and opens, and then only the path is added to the includes |
| Semantics.IncludePath | src/main.rs:89 | the path `process_include` checks: the second token sliced at bytes 1 to the token count minus 1 (characterised by IncludePathAscii, IncludeTwoTokens and IncludeTwoTokensWide) |
| Semantics.IncludePathAscii | src/main.rs:89 | on an ASCII path token long enough for the slice (at least the token count minus 1 characters), the checked path is the token's characters from 1 up to the token count minus 1, not up to the token's own length |
| Semantics.IncludeAscii | src/main.rs:85-95 | for any token count from two on, an ASCII path token long enough for the slice makes `#include` record its characters 1 up to the token count minus 1 when they open, and fail with InvalidInclude, tables unchanged, when they do not |
| Semantics.IncludeTwoTokens | src/main.rs:89-94 | `#include <token>` checks and records the empty path whenever the token's first character is ASCII, and succeeds iff "" can be opened |
| Semantics.IncludeTwoTokensWide | src/main.rs:89 | `#include <token>` whose first character is multi-byte panics on the slice, since byte 1 is not a character boundary |
| Semantics.IsDirective | src/main.rs:110 | a line is a directive exactly when its first character is '#' |
| Semantics.IsKnownKeyword | src/main.rs:112-116 | the five first tokens `run` has an arm for: `#define`, `#include`, `#undef`, `#region`, `#endregion` |
| Semantics.Dispatch | src/main.rs:112-121 | the run aborts exactly when the first token is none of the five keywords, and then names that token; region markers change nothing; EmptyDirective is never produced; disjointness is kept |
| Semantics.DirectiveTokens | src/main.rs:110-112 | a line starting with '#' always has a first token, and that token starts with '#' |
| Semantics.StepLine | src/main.rs:109-122 | a line not starting with '#' leaves all tables unchanged; no line yields EmptyDirective; disjointness is kept |
| Semantics.RunFrom | src/main.rs:105-126 | a finished pass outputs the accumulator followed by every line concatenated in order, whatever the tables held; EmptyDirective is never the outcome; disjointness of the tables is kept |
| Semantics.Run | src/main.rs:105-127 | `Preprocessor::new` then `run`: the pass from empty tables over the input's lines (its properties are RunOutput, RunKeepsDisjoint and the scenarios) |
| Semantics.RunFromAppend | src/main.rs:109-115 | a pass over a+b is the pass over a, then, only if that finished, the pass over b from a's final tables and output |
| Semantics.StopsAtFirstHalt | src/main.rs:113-120 | once the lines before a halting line have finished, the outcome is that line's halt, the tables are those left by the earlier lines, and later lines are never read |
| Semantics.UnsupportedDirectiveAborts | src/main.rs:117-120 | an unsupported directive aborts the pass with its keyword, whatever follows |
| Semantics.BodyOnly | src/main.rs:109-124 | input with no directive line is output unchanged apart from line separators, and the tables are left untouched |
| Semantics.RegionMarkers | src/main.rs:116 | `#region` and `#endregion` lines leave every table unchanged |
| Semantics.RunOutput | src/main.rs:123 | a successful run returns the input with every '\n' deleted, and the '\r' of every "\r\n" with it |
| Semantics.RunKeepsDisjoint | src/main.rs:71-81 | after any pass from empty tables, no name is both a flag and a substitution macro |
| Semantics.FlagThenSubstitution | src/main.rs:72-80 | defining a name as a flag and then with a value leaves it only in the substitution map, with that value |
| Semantics.SubstitutionSurvivesUndef | src/main.rs:101 | `#undef` after a substitution definition leaves the substitution and its value in place |
| Semantics.ReplacementRetokenises | src/main.rs:76-80 | the text that `#define N v1 .. vk` records for N splits back into exactly v1 .. vk |
| Engine.Preprocessor.constructor | src/main.rs:58-65 | a new preprocessor holds the given text and three empty tables |
| Engine.Preprocessor.ProcessDefine | src/main.rs:67-83 | the new tables and the result are exactly those of `Define`; on failure nothing changes |
| Engine.Preprocessor.ProcessInclude | src/main.rs:85-95 | the new tables and the result are exactly those of `Include`; on failure nothing changes |
| Engine.Preprocessor.ProcessUndef | src/main.rs:97-103 | the new tables and the result are exactly those of `Undef`; on failure nothing changes |
| Engine.Preprocessor.Run | src/main.rs:105-127 | the outcome and the new tables are those of `RunFrom` over the input's lines; the output of a finished run is the concatenation of the lines; EmptyDirective never occurs; the table invariant is kept |
| Engine.Preprocess | src/main.rs:24-26 | creating a preprocessor and running it once gives `Run`'s outcome and tables, with the macro tables disjoint |
| Scenarios.DefineThenUse | src/main.rs:105-126 | `#define MAX 100` then `int x = MAX;` outputs both lines joined with nothing between them, MAX not replaced, and maps MAX to "100" |
| Scenarios.DefineFlag | src/main.rs:72-75 | `#define DEBUG` echoes the line and leaves DEBUG as the only flag, with no substitutions |
| Scenarios.DefineFlagThenHashLine | src/main.rs:110-120 | `#define DEBUG` then `#ifdef-unused line` aborts at the second line with `#ifdef-unused`, because that line starts with '#', leaving DEBUG as the only flag |
| Scenarios.IncludeQuoted | src/main.rs:89-94 | `#include "existing.h"` succeeds and records "" exactly when "" can be opened, and fails with InvalidInclude otherwise |
| Scenarios.UnknownDirective | src/main.rs:117-120 | `#frobnicate` aborts the run with that token |
| Scenarios.DefineWithoutName | src/main.rs:76-77 | a bare `#define` panics on the missing name |

## Left out

- The `Args` struct, clap parsing and `main` (src/main.rs:10-30) are command-line plumbing. `main` discards the string that `run` returns, and after a successful run it writes the struct's debug form to stderr (src/main.rs:27); `Engine.Preprocess` keeps only its "create, then run" part.
- The file read in `Preprocessor::new` (src/main.rs:60) is I/O. The constructor takes the text itself.
- `File::open` (src/main.rs:90) touches the file system. It is the `canOpen` parameter, so the model says nothing about which paths exist.
- `eprintln!` and `exit(1)` (src/main.rs:118-119) are process effects. They become the `Aborted(token)` outcome.
- Panics are values (`Panicked`). The model does not capture unwinding.
- The `Display` impl (src/main.rs:48-55) only formats messages.
- Engine.Preprocessor.Run: after a halt, the model reports the tables as the earlier lines left them. For an error returned through `?` (src/main.rs:113-115) this is exactly what the struct holds when `run` returns. `main` then passes the error on with its own `?` (src/main.rs:26), so it never prints those tables. After `exit(1)` or a panic, Rust ends the process or unwinds, so those tables cannot be observed.
- The code does not substitute macro names in body lines, match whole words, or drop directive lines, so the model does none of these either.
- Hash-table iteration order is never observed by the engine. The tables are Dafny sets and maps.
