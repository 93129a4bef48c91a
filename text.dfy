/** The parts of Rust's `str` API that the preprocessor relies on, written out as
    functions on `seq<char>` (a `char` here is a Unicode scalar value, as in Rust):
    `str::lines`, `str::split_whitespace`, `[&str]::join`, `str::starts_with`
    and byte-range slicing `&s[i..j]` over the UTF-8 encoding. */
module Text {

  datatype Option<T> = None | Some(value: T)

  // ---------------------------------------------------------------------------
  // Whitespace and split_whitespace
  // ---------------------------------------------------------------------------

  /** `char::is_whitespace`: the Unicode White_Space property. */
  predicate IsWhitespace(c: char) {
    var n := c as int;
    (0x09 <= n <= 0x0D) || n == 0x20 || n == 0x85 || n == 0xA0 || n == 0x1680
    || (0x2000 <= n <= 0x200A) || n == 0x2028 || n == 0x2029 || n == 0x202F
    || n == 0x205F || n == 0x3000
  }

  predicate NoWhitespace(s: string) {
    forall i :: 0 <= i < |s| ==> !IsWhitespace(s[i])
  }

  /** A token as `split_whitespace` yields it: non-empty, no whitespace inside. */
  predicate IsWord(w: string) {
    w != [] && NoWhitespace(w)
  }

  /** Length of the leading run of non-whitespace characters of `s`. */
  function WordLength(s: string): (k: nat)
    ensures k <= |s|
    ensures NoWhitespace(s[..k])
    ensures k < |s| ==> IsWhitespace(s[k])
    decreases |s|
  {
    if s == [] || IsWhitespace(s[0]) then 0
    else
      var k := WordLength(s[1..]);
      assert s[..1 + k] == [s[0]] + s[1..][..k];
      1 + k
  }

  /** `str::split_whitespace`: the maximal runs of non-whitespace characters, in order. */
  function SplitWhitespace(s: string): (r: seq<string>)
    ensures forall i :: 0 <= i < |r| ==> IsWord(r[i])
    ensures s != [] && !IsWhitespace(s[0]) ==> |r| > 0 && r[0] == s[..WordLength(s)]
    decreases |s|
  {
    if s == [] then []
    else if IsWhitespace(s[0]) then SplitWhitespace(s[1..])
    else
      var k := WordLength(s);
      [s[..k]] + SplitWhitespace(s[k..])
  }

  /** `[&str]::join(sep)`. */
  function Join(parts: seq<string>, sep: string): string
    decreases |parts|
  {
    if |parts| == 0 then []
    else if |parts| == 1 then parts[0]
    else parts[0] + sep + Join(parts[1..], sep)
  }

  lemma {:induction false} WordLengthOfWord(w: string, rest: string)
    requires NoWhitespace(w)
    requires rest == [] || IsWhitespace(rest[0])
    ensures WordLength(w + rest) == |w|
    decreases |w|
  {
    if w == [] {
      assert w + rest == rest;
    } else {
      assert (w + rest)[1..] == w[1..] + rest;
      WordLengthOfWord(w[1..], rest);
    }
  }

  lemma SplitAfterWord(w: string, rest: string)
    requires IsWord(w)
    requires rest == [] || IsWhitespace(rest[0])
    ensures SplitWhitespace(w + rest) == [w] + SplitWhitespace(rest)
  {
    WordLengthOfWord(w, rest);
    assert (w + rest)[..|w|] == w;
    assert (w + rest)[|w|..] == rest;
  }

  /** Joining words with single spaces and splitting again gives the words back:
      the text that `#define` records re-tokenises to the directive's arguments. */
  lemma {:induction false} SplitJoin(ws: seq<string>)
    requires forall i :: 0 <= i < |ws| ==> IsWord(ws[i])
    ensures SplitWhitespace(Join(ws, " ")) == ws
    decreases |ws|
  {
    if |ws| == 1 {
      SplitAfterWord(ws[0], []);
      assert ws[0] + [] == ws[0];
    } else if |ws| > 1 {
      var rest := " " + Join(ws[1..], " ");
      assert Join(ws, " ") == ws[0] + rest;
      SplitAfterWord(ws[0], rest);
      assert rest[1..] == Join(ws[1..], " ");
      SplitJoin(ws[1..]);
      assert ws == [ws[0]] + ws[1..];
    }
  }

  predicate AllWhitespace(s: string) {
    forall i :: 0 <= i < |s| ==> IsWhitespace(s[i])
  }

  /** `seps` can separate `n` words: n + 1 runs of whitespace, of which the inner
      ones (between two words) are non-empty. */
  predicate IsGapList(seps: seq<string>, n: nat) {
    |seps| == n + 1
    && (forall i :: 0 <= i < |seps| ==> AllWhitespace(seps[i]))
    && (forall i :: 0 < i < n ==> seps[i] != [])
  }

  /** seps[0] + ws[0] + seps[1] + ... + ws[n-1] + seps[n]. */
  function Interleave(seps: seq<string>, ws: seq<string>): string
    requires |seps| == |ws| + 1
    decreases |ws|
  {
    if ws == [] then seps[0] else seps[0] + ws[0] + Interleave(seps[1..], ws[1..])
  }

  lemma InterleaveHead(seps: seq<string>, ws: seq<string>, p: string)
    requires |seps| == |ws| + 1
    ensures Interleave([p + seps[0]] + seps[1..], ws) == p + Interleave(seps, ws)
  {
    assert ([p + seps[0]] + seps[1..])[1..] == seps[1..];
  }

  /** Leading whitespace does not change the tokens. */
  lemma {:induction false} SplitSkipsWhitespace(sp: string, rest: string)
    requires AllWhitespace(sp)
    ensures SplitWhitespace(sp + rest) == SplitWhitespace(rest)
    decreases |sp|
  {
    if sp == [] {
      assert sp + rest == rest;
    } else {
      assert (sp + rest)[1..] == sp[1..] + rest;
      SplitSkipsWhitespace(sp[1..], rest);
    }
  }

  /** The tokens of words separated by any runs of whitespace (inner runs
      non-empty, the outer ones possibly empty) are exactly those words, in order:
      `#define N a  b\t` and `#define N a b` have the same tokens. */
  lemma {:induction false} SplitInterleave(seps: seq<string>, ws: seq<string>)
    requires forall i :: 0 <= i < |ws| ==> IsWord(ws[i])
    requires IsGapList(seps, |ws|)
    ensures SplitWhitespace(Interleave(seps, ws)) == ws
    decreases |ws|
  {
    if ws == [] {
      SplitSkipsWhitespace(seps[0], []);
      assert seps[0] + [] == seps[0];
    } else {
      var rest := Interleave(seps[1..], ws[1..]);
      InterleaveCons(seps, ws);
      SplitSkipsWhitespace(seps[0], ws[0] + rest);
      GapListTail(seps, |ws|);
      InterleaveStartsWithGap(seps[1..], ws[1..]);
      SplitAfterWord(ws[0], rest);
      SplitInterleave(seps[1..], ws[1..]);
      assert ws == [ws[0]] + ws[1..];
    }
  }

  lemma InterleaveCons(seps: seq<string>, ws: seq<string>)
    requires |seps| == |ws| + 1 && ws != []
    ensures Interleave(seps, ws) == seps[0] + (ws[0] + Interleave(seps[1..], ws[1..]))
  {
  }

  lemma GapListTail(seps: seq<string>, n: nat)
    requires IsGapList(seps, n) && n > 0
    ensures IsGapList(seps[1..], n - 1)
    ensures n > 1 ==> seps[1..][0] != []
  {
  }

  /** A text built on a gap list whose first gap is empty or whitespace. */
  lemma InterleaveStartsWithGap(seps: seq<string>, ws: seq<string>)
    requires |seps| == |ws| + 1 && AllWhitespace(seps[0])
    requires ws != [] ==> seps[0] != []
    ensures Interleave(seps, ws) == [] || IsWhitespace(Interleave(seps, ws)[0])
  {
    if ws != [] {
      InterleaveCons(seps, ws);
      assert Interleave(seps, ws)[0] == seps[0][0];
    }
  }

  /** The whitespace runs around the tokens of `s`. */
  function Gaps(s: string): seq<string>
    decreases |s|
  {
    if s == [] then [[]]
    else if IsWhitespace(s[0]) then
      var g := Gaps(s[1..]);
      if g == [] then [] else [[s[0]] + g[0]] + g[1..]
    else
      [[]] + Gaps(s[WordLength(s)..])
  }

  /** `s` is the words `ws` interleaved with the whitespace runs `g`, and a text
      that starts with whitespace has a non-empty first run. */
  predicate FitsGaps(s: string, g: seq<string>, ws: seq<string>) {
    IsGapList(g, |ws|)
    && s == Interleave(g, ws)
    && (s != [] && IsWhitespace(s[0]) ==> g[0] != [])
  }

  /** The three facts `GapsCorrect` proves about `Gaps(s)`. */
  predicate GapsFit(s: string) {
    FitsGaps(s, Gaps(s), SplitWhitespace(s))
  }

  /** `s` is its tokens interleaved with its whitespace runs; with `SplitInterleave`
      this pins `SplitWhitespace` down completely. */
  lemma {:induction false} GapsCorrect(s: string)
    ensures IsGapList(Gaps(s), |SplitWhitespace(s)|)
    ensures s == Interleave(Gaps(s), SplitWhitespace(s))
    decreases |s|
  {
    GapsFitAll(s);
  }

  lemma {:induction false} GapsFitAll(s: string)
    ensures GapsFit(s)
    decreases |s|
  {
    if s == [] {
    } else if IsWhitespace(s[0]) {
      GapsFitAll(s[1..]);
      GapsLeadingSpace(s);
    } else {
      GapsFitAll(s[WordLength(s)..]);
      GapsLeadingWord(s);
    }
  }

  lemma GapsLeadingSpace(s: string)
    requires s != [] && IsWhitespace(s[0]) && GapsFit(s[1..])
    ensures GapsFit(s)
  {
    var g, ws := Gaps(s[1..]), SplitWhitespace(s[1..]);
    var g' := [[s[0]] + g[0]] + g[1..];
    assert Gaps(s) == g';
    assert SplitWhitespace(s) == ws;
    assert AllWhitespace([s[0]] + g[0]);
    assert forall i :: 1 <= i < |g'| ==> g'[i] == g[i];
    InterleaveHead(g, ws, [s[0]]);
    assert s == [s[0]] + s[1..];
  }

  lemma GapsLeadingWord(s: string)
    requires s != [] && !IsWhitespace(s[0]) && GapsFit(s[WordLength(s)..])
    ensures GapsFit(s)
  {
    var k := WordLength(s);
    GapsWordUnfold(s);
    GapsAfterWord(s);
    FitsWordAt(s, k, Gaps(s[k..]), SplitWhitespace(s[k..]));
  }

  lemma FitsWordAt(s: string, k: nat, g: seq<string>, ws: seq<string>)
    requires 0 < k <= |s| && !IsWhitespace(s[0])
    requires FitsGaps(s[k..], g, ws) && (ws != [] ==> g[0] != [])
    ensures FitsGaps(s, [[]] + g, [s[..k]] + ws)
  {
    FitsWord(s[..k], s[k..], g, ws);
    assert s[..k] + s[k..] == s;
  }

  /** A word in front of a fitting text, with an empty run before it. */
  lemma FitsWord(w: string, rest: string, g: seq<string>, ws: seq<string>)
    requires w != [] && !IsWhitespace(w[0])
    requires FitsGaps(rest, g, ws) && (ws != [] ==> g[0] != [])
    ensures FitsGaps(w + rest, [[]] + g, [w] + ws)
  {
    GapListCons(g, |ws|);
    InterleaveWord(g, ws, w);
  }

  lemma GapsWordUnfold(s: string)
    requires s != [] && !IsWhitespace(s[0])
    ensures Gaps(s) == [[]] + Gaps(s[WordLength(s)..])
    ensures SplitWhitespace(s) == [s[..WordLength(s)]] + SplitWhitespace(s[WordLength(s)..])
  {
  }

  /** After a word, the next gap is non-empty whenever another word follows. */
  lemma GapsAfterWord(s: string)
    requires s != [] && !IsWhitespace(s[0]) && GapsFit(s[WordLength(s)..])
    ensures SplitWhitespace(s[WordLength(s)..]) != [] ==> Gaps(s[WordLength(s)..])[0] != []
  {
    var k := WordLength(s);
    if SplitWhitespace(s[k..]) != [] {
      assert s[k..] != [];
      assert IsWhitespace(s[k..][0]);
    }
  }

  lemma GapListCons(g: seq<string>, n: nat)
    requires IsGapList(g, n) && (n > 0 ==> g[0] != [])
    ensures IsGapList([[]] + g, n + 1)
  {
    var g' := [[]] + g;
    assert forall i :: 1 <= i < |g'| ==> g'[i] == g[i - 1];
  }

  lemma InterleaveWord(g: seq<string>, ws: seq<string>, w: string)
    requires |g| == |ws| + 1
    ensures Interleave([[]] + g, [w] + ws) == w + Interleave(g, ws)
  {
    var g', ws' := [[]] + g, [w] + ws;
    assert g'[0] == [] && ws'[0] == w;
    assert g'[1..] == g && ws'[1..] == ws;
    InterleaveCons(g', ws');
    assert [] + (w + Interleave(g, ws)) == w + Interleave(g, ws);
  }

  /** A line that starts with a non-whitespace character has a first token, and that
      token starts with the same character. */
  lemma FirstToken(s: string)
    requires s != [] && !IsWhitespace(s[0])
    ensures |SplitWhitespace(s)| > 0
    ensures SplitWhitespace(s)[0][0] == s[0]
  {
  }

  // ---------------------------------------------------------------------------
  // lines
  // ---------------------------------------------------------------------------

  /** Index of the first '\n' of `s`, or |s| when there is none. */
  function NewlineIndex(s: string): (k: nat)
    ensures k <= |s|
    ensures k < |s| ==> s[k] == '\n'
    ensures forall i :: 0 <= i < k ==> s[i] != '\n'
    decreases |s|
  {
    if s == [] || s[0] == '\n' then 0 else 1 + NewlineIndex(s[1..])
  }

  /** Drops one trailing '\r' (the "\r\n" case of `lines`). */
  function StripCarriageReturn(s: string): string {
    if |s| > 0 && s[|s| - 1] == '\r' then s[..|s| - 1] else s
  }

  /** `str::lines`: the pieces between '\n's; a piece ended by '\n' loses one trailing
      '\r'; a final '\n' does not start an empty last line. This is `lines` of the
      current standard library, where a lone '\r' ending the last line (with no '\n'
      after it) is kept; older toolchains also dropped that '\r'. */
  function Lines(s: string): (r: seq<string>)
    ensures forall i :: 0 <= i < |r| ==> '\n' !in r[i]
    decreases |s|
  {
    if s == [] then []
    else
      var k := NewlineIndex(s);
      if k == |s| then [s]
      else
        assert '\n' !in StripCarriageReturn(s[..k]);
        [StripCarriageReturn(s[..k])] + Lines(s[k + 1..])
  }

  /** The concatenation of a sequence of strings (repeated `String::push_str`). */
  function Concat(ls: seq<string>): string
    decreases |ls|
  {
    if ls == [] then [] else ls[0] + Concat(ls[1..])
  }

  /** Each line followed by its terminator, "\r\n" where `crlf` says so and "\n"
      otherwise: the text that `Lines` reads back. */
  function Unlines(ls: seq<string>, crlf: seq<bool>): string
    requires |crlf| == |ls|
    decreases |ls|
  {
    if ls == [] then [] else ls[0] + (if crlf[0] then "\r\n" else "\n") + Unlines(ls[1..], crlf[1..])
  }

  /** `s` with its line terminators deleted: every '\n', and the '\r' of every
      "\r\n". */
  function DropLineBreaks(s: string): (r: string)
    ensures '\n' !in r
    decreases |s|
  {
    if s == [] then []
    else if s[0] == '\n' then DropLineBreaks(s[1..])
    else if |s| >= 2 && s[0] == '\r' && s[1] == '\n' then DropLineBreaks(s[2..])
    else [s[0]] + DropLineBreaks(s[1..])
  }

  lemma {:induction false} ConcatAppend(a: seq<string>, b: seq<string>)
    ensures Concat(a + b) == Concat(a) + Concat(b)
    decreases |a|
  {
    if a == [] {
      assert a + b == b;
    } else {
      assert (a + b)[1..] == a[1..] + b;
      ConcatAppend(a[1..], b);
    }
  }

  lemma {:induction false} DropLineBreaksNone(s: string)
    requires '\n' !in s
    ensures DropLineBreaks(s) == s
    decreases |s|
  {
    if s != [] {
      assert '\n' !in s[1..];
      DropLineBreaksNone(s[1..]);
      assert s == [s[0]] + s[1..];
    }
  }

  lemma StripCons(l: string)
    requires |l| >= 1 && (|l| == 1 ==> l[0] != '\r')
    ensures StripCarriageReturn(l) == [l[0]] + StripCarriageReturn(l[1..])
  {
    if |l| >= 2 {
      assert l[1..][|l| - 2] == l[|l| - 1];
      assert l[..|l| - 1] == [l[0]] + l[1..][..|l| - 2];
    }
  }

  /** Deleting the terminators of a line and its '\n' leaves the line as `lines`
      yields it. */
  lemma {:induction false} DropLineBreaksLine(l: string, rest: string)
    requires '\n' !in l
    ensures DropLineBreaks(l + "\n" + rest) == StripCarriageReturn(l) + DropLineBreaks(rest)
    decreases |l|
  {
    var s := l + "\n" + rest;
    if l == [] {
      assert s == "\n" + rest && s[1..] == rest;
    } else if l == ['\r'] {
      assert s[0] == '\r' && s[1] == '\n';
      assert s[2..] == rest;
    } else {
      assert s[0] == l[0];
      if l[0] == '\r' {
        assert s[1] == l[1];
      }
      assert s[1..] == l[1..] + "\n" + rest;
      DropLineBreaksLine(l[1..], rest);
      StripCons(l);
    }
  }

  /** Gluing the lines of a text back together gives the text with its line
      terminators deleted. */
  lemma {:induction false} ConcatLines(s: string)
    ensures Concat(Lines(s)) == DropLineBreaks(s)
    decreases |s|
  {
    if s != [] {
      var k := NewlineIndex(s);
      if k == |s| {
        DropLineBreaksNone(s);
        assert Concat(Lines(s)) == s + Concat([]);
      } else {
        var line, rest := s[..k], s[k + 1..];
        assert s == line + "\n" + rest;
        assert '\n' !in line;
        var ls := [StripCarriageReturn(line)] + Lines(rest);
        assert Lines(s) == ls;
        assert ls[1..] == Lines(rest);
        assert Concat(Lines(s)) == StripCarriageReturn(line) + Concat(Lines(rest));
        ConcatLines(rest);
        DropLineBreaksLine(line, rest);
      }
    }
  }

  /** A line as `lines` can produce it after a "\n": no '\n', no trailing '\r'. */
  predicate IsBareLine(l: string) {
    '\n' !in l && (l == [] || l[|l| - 1] != '\r')
  }

  lemma {:induction false} NewlineIndexAfter(l: string, rest: string)
    requires '\n' !in l
    ensures NewlineIndex(l + "\n" + rest) == |l|
    decreases |l|
  {
    if l != [] {
      assert (l + "\n" + rest)[1..] == l[1..] + "\n" + rest;
      NewlineIndexAfter(l[1..], rest);
    }
  }

  /** A text with no '\n' is one line. */
  lemma LinesSingle(s: string)
    requires s != [] && '\n' !in s
    ensures Lines(s) == [s]
  {
  }

  /** A bare line followed by '\n' is the first line of the text. */
  lemma LinesCons(l: string, rest: string)
    requires IsBareLine(l)
    ensures Lines(l + "\n" + rest) == [l] + Lines(rest)
  {
    var s := l + "\n" + rest;
    NewlineIndexAfter(l, rest);
    assert s[..|l|] == l;
    assert s[|l| + 1..] == rest;
  }

  /** A line followed by "\r\n" is the first line of the text, whatever it ends with. */
  lemma LinesCrlf(l: string, rest: string)
    requires '\n' !in l
    ensures Lines(l + "\r\n" + rest) == [l] + Lines(rest)
  {
    var s := l + "\r\n" + rest;
    assert s == (l + "\r") + "\n" + rest;
    NewlineIndexAfter(l + "\r", rest);
    assert s[..|l| + 1] == l + "\r";
    assert s[|l| + 2..] == rest;
    assert StripCarriageReturn(l + "\r") == l;
  }

  /** `lines` reads back the lines of a text written as line + "\n" or line + "\r\n"
      per line. */
  lemma {:induction false} LinesUnlines(ls: seq<string>, crlf: seq<bool>)
    requires |crlf| == |ls|
    requires forall i :: 0 <= i < |ls| ==> if crlf[i] then '\n' !in ls[i] else IsBareLine(ls[i])
    ensures Lines(Unlines(ls, crlf)) == ls
    decreases |ls|
  {
    if ls != [] {
      var l, tail := ls[0], Unlines(ls[1..], crlf[1..]);
      if crlf[0] {
        assert Unlines(ls, crlf) == l + "\r\n" + tail;
        LinesCrlf(l, tail);
      } else {
        assert Unlines(ls, crlf) == l + "\n" + tail;
        LinesCons(l, tail);
      }
      LinesUnlines(ls[1..], crlf[1..]);
      assert ls == [l] + ls[1..];
    }
  }

  // ---------------------------------------------------------------------------
  // Byte-range slicing over UTF-8
  // ---------------------------------------------------------------------------

  /** Number of bytes of the UTF-8 encoding of `c`. */
  function Utf8Width(c: char): nat {
    var n := c as int;
    if n < 0x80 then 1 else if n < 0x800 then 2 else if n < 0x1_0000 then 3 else 4
  }

  /** Number of bytes of the UTF-8 encoding of `s` (`str::len`). */
  function Utf8Length(s: string): nat
    decreases |s|
  {
    if s == [] then 0 else Utf8Width(s[0]) + Utf8Length(s[1..])
  }

  predicate IsAscii(s: string) {
    forall i :: 0 <= i < |s| ==> s[i] as int < 0x80
  }

  /** Byte offset `b` is where a character of `s` starts, or the end of `s`
      (`str::is_char_boundary`). */
  ghost predicate IsCharBoundary(s: string, b: nat) {
    exists k :: 0 <= k <= |s| && Utf8Length(s[..k]) == b
  }

  /** The character index at which byte offset `b` of `s` falls, when `b` is a char
      boundary of `s`. */
  function CharIndex(s: string, b: nat): (r: Option<nat>)
    decreases |s|
  {
    if b == 0 then Some(0)
    else if s == [] || b < Utf8Width(s[0]) then None
    else match CharIndex(s[1..], b - Utf8Width(s[0]))
      case None => None
      case Some(k) => Some(k + 1)
  }

  lemma PrefixTail(s: string, k: nat)
    requires 1 <= k <= |s|
    ensures Utf8Length(s[..k]) == Utf8Width(s[0]) + Utf8Length(s[1..][..k - 1])
  {
    assert s[..k][1..] == s[1..][..k - 1];
  }

  /** `CharIndex` finds the boundary exactly when there is one. */
  lemma {:induction false} CharIndexCorrect(s: string, b: nat)
    ensures CharIndex(s, b).Some? ==>
      CharIndex(s, b).value <= |s| && Utf8Length(s[..CharIndex(s, b).value]) == b
    ensures CharIndex(s, b).None? ==> !IsCharBoundary(s, b)
    decreases |s|
  {
    if b == 0 {
      assert s[..0] == [];
    } else if s == [] {
      assert forall k :: 0 <= k <= |s| ==> s[..k] == [];
    } else {
      var w := Utf8Width(s[0]);
      forall k | 1 <= k <= |s| {
        PrefixTail(s, k);
      }
      if b >= w {
        CharIndexCorrect(s[1..], b - w);
        if CharIndex(s, b).None? {
          forall k | 0 <= k <= |s| ensures Utf8Length(s[..k]) != b {
            if k == 0 {
              assert s[..k] == [];
            } else {
              assert Utf8Length(s[1..][..k - 1]) != b - w;
            }
          }
        }
      }
    }
  }

  /** `&s[i..j]` on byte offsets: `None` where Rust panics (i > j, j past the end,
      or an offset inside a character). */
  function ByteSlice(s: string, i: nat, j: nat): (r: Option<string>)
  {
    if i > j then None
    else match (CharIndex(s, i), CharIndex(s, j))
      case (Some(ci), Some(cj)) => if ci <= cj <= |s| then Some(s[ci..cj]) else None
      case _ => None
  }

  lemma {:induction false} AsciiCharIndex(s: string, b: nat)
    requires IsAscii(s)
    ensures CharIndex(s, b) == if b <= |s| then Some(b) else None
    decreases |s|
  {
    if b != 0 && s != [] {
      assert IsAscii(s[1..]);
      AsciiCharIndex(s[1..], b - 1);
    }
  }

  /** On ASCII text a byte offset is a character index, so the byte slice is the
      character slice whenever it is in range. */
  lemma AsciiByteSlice(s: string, i: nat, j: nat)
    requires IsAscii(s)
    ensures ByteSlice(s, i, j) == if i <= j <= |s| then Some(s[i..j]) else None
  {
    AsciiCharIndex(s, i);
    AsciiCharIndex(s, j);
  }

  /** A byte slice panics exactly when the offsets are out of order or one of them
      is not a char boundary; when it does not, it is the characters from the one
      starting at byte i up to the one starting at byte j, whose encoding is exactly
      j - i bytes long. */
  lemma ByteSliceCorrect(s: string, i: nat, j: nat)
    ensures ByteSlice(s, i, j).Some? <==> i <= j && IsCharBoundary(s, i) && IsCharBoundary(s, j)
    ensures ByteSlice(s, i, j).Some? ==> Utf8Length(ByteSlice(s, i, j).value) == j - i
    ensures ByteSlice(s, i, j).Some? ==>
      exists ci, cj :: 0 <= ci <= cj <= |s| && Utf8Length(s[..ci]) == i && Utf8Length(s[..cj]) == j
        && ByteSlice(s, i, j).value == s[ci..cj]
  {
    CharIndexCorrect(s, i);
    CharIndexCorrect(s, j);
    if i <= j && IsCharBoundary(s, i) && IsCharBoundary(s, j) {
      var ci := CharIndex(s, i).value;
      var cj := CharIndex(s, j).value;
      if ci > cj {
        PrefixLengthMonotone(s, cj, ci);
        assert false;
      }
      assert s[..cj] == s[..ci] + s[ci..cj];
      Utf8LengthAppend(s[..ci], s[ci..cj]);
      assert ByteSlice(s, i, j).value == s[ci..cj];
    }
  }

  lemma {:induction false} Utf8LengthAppend(a: string, b: string)
    ensures Utf8Length(a + b) == Utf8Length(a) + Utf8Length(b)
    decreases |a|
  {
    if a == [] {
      assert a + b == b;
    } else {
      assert (a + b)[1..] == a[1..] + b;
      Utf8LengthAppend(a[1..], b);
    }
  }

  lemma {:induction false} PrefixLengthMonotone(s: string, a: nat, b: nat)
    requires a <= b <= |s|
    ensures Utf8Length(s[..a]) + |s[a..b]| <= Utf8Length(s[..b])
    decreases |s|
  {
    if a == 0 {
      assert s[..0] == [];
      AtLeastOneBytePerChar(s[..b]);
      assert s[0..b] == s[..b];
    } else {
      PrefixTail(s, a);
      PrefixTail(s, b);
      PrefixLengthMonotone(s[1..], a - 1, b - 1);
      assert s[1..][a - 1..b - 1] == s[a..b];
    }
  }

  lemma {:induction false} AtLeastOneBytePerChar(s: string)
    ensures |s| <= Utf8Length(s)
    decreases |s|
  {
    if s != [] {
      AtLeastOneBytePerChar(s[1..]);
    }
  }
}
