/** The shell's tokens in a line (cmd/sh.c:285-345). The line is without its terminating NUL. */
module ShellLexer {
  import opened ShellGrammar

  predicate IsSpace(c: char) { c == ' ' || c == '\t' || c == '\r' || c == '\n' || c == '\U{000B}' }

  predicate IsSymbol(c: char) { c == '<' || c == '|' || c == '>' || c == '&' || c == ';' || c == '(' || c == ')' }

  predicate IsWord(c: char) { !IsSpace(c) && !IsSymbol(c) }

  function SkipSpace(s: string, i: nat): (j: nat)
    requires i <= |s|
    ensures i <= j <= |s| && (j < |s| ==> !IsSpace(s[j]))
    ensures forall k {:trigger s[k]} :: i <= k < j ==> IsSpace(s[k])
    decreases |s| - i
  {
    if i < |s| && IsSpace(s[i]) then SkipSpace(s, i + 1) else i
  }

  function WordEnd(s: string, i: nat): (j: nat)
    requires i <= |s|
    ensures i <= j <= |s| && (j < |s| ==> !IsWord(s[j]))
    ensures forall k {:trigger s[k]} :: i <= k < j ==> IsWord(s[k])
    decreases |s| - i
  {
    if i < |s| && IsWord(s[i]) then WordEnd(s, i + 1) else i
  }

  /** The token that begins at `i`, and where it ends. */
  function TokenAt(s: string, i: nat): (r: (Tok, nat))
    requires i < |s| && !IsSpace(s[i])
    ensures i < r.1 <= |s|
  {
    if s[i] == '>' && i + 1 < |s| && s[i + 1] == '>' then (Sym('+'), i + 2)
    else if IsSymbol(s[i]) then (Sym(s[i]), i + 1)
    else (Word(Span(i, WordEnd(s, i))), WordEnd(s, i))
  }

  function Tokens(s: string, i: nat): seq<Tok>
    requires i <= |s|
    decreases |s| - i
  {
    var j := SkipSpace(s, i);
    if j == |s| then [] else [TokenAt(s, j).0] + Tokens(s, TokenAt(s, j).1)
  }

  lemma SpaceNoToken(s: string, i: nat)
    requires i <= |s|
    ensures Tokens(s, SkipSpace(s, i)) == Tokens(s, i)
  {
    var j := SkipSpace(s, i);
    assert SkipSpace(s, j) == j;
  }

  // What the words are.

  function WordsOf(ts: seq<Tok>): seq<Span> {
    if ts == [] then [] else (if ts[0].Word? then [ts[0].sp] else []) + WordsOf(ts[1..])
  }

  /** A maximal run of word characters. */
  ghost predicate WordSpan(s: string, sp: Span) {
    sp.q < sp.eq <= |s| && (forall k {:trigger s[k]} :: sp.q <= k < sp.eq ==> IsWord(s[k])) &&
    (sp.eq < |s| ==> !IsWord(s[sp.eq]))
  }

  ghost predicate Covered(ws: seq<Span>, k: nat) {
    exists x :: 0 <= x < |ws| && ws[x].q <= k < ws[x].eq
  }

  /** The words from `i` on, in order, are the runs of word characters, all of them. */
  ghost predicate WordsFrom(s: string, i: nat, ws: seq<Span>) {
    && (forall x {:trigger ws[x]} :: 0 <= x < |ws| ==> WordSpan(s, ws[x]) && i <= ws[x].q)
    && (forall x, y {:trigger ws[x], ws[y]} :: 0 <= x < y < |ws| ==> ws[x].eq < ws[y].q)
    && (forall k {:trigger Covered(ws, k)} :: i <= k < |s| ==> (IsWord(s[k]) <==> Covered(ws, k)))
  }

  lemma {:induction false} TokensAreWords(s: string, i: nat)
    requires i <= |s|
    ensures WordsFrom(s, i, WordsOf(Tokens(s, i)))
    decreases |s| - i
  {
    var j := SkipSpace(s, i);
    if j < |s| {
      var (t, e) := TokenAt(s, j);
      TokensAreWords(s, e);
      assert Tokens(s, i)[1..] == Tokens(s, e);
      OneMoreToken(s, i, WordsOf(Tokens(s, e)));
    }
  }

  lemma {:induction false} OneMoreToken(s: string, i: nat, rest: seq<Span>)
    requires i <= |s| && SkipSpace(s, i) < |s| && WordsFrom(s, TokenAt(s, SkipSpace(s, i)).1, rest)
    ensures var t := TokenAt(s, SkipSpace(s, i)).0; WordsFrom(s, i, (if t.Word? then [t.sp] else []) + rest)
  {
    var (t, e) := TokenAt(s, SkipSpace(s, i));
    var first := if t.Word? then [t.sp] else [];
    var ws := first + rest;
    forall x | 0 <= x < |ws| ensures WordSpan(s, ws[x]) && i <= ws[x].q {
      if x >= |first| { assert ws[x] == rest[x - |first|]; }
    }
    forall x, y | 0 <= x < y < |ws| ensures ws[x].eq < ws[y].q {
      assert ws[y] == rest[y - |first|];
      if x >= |first| { assert ws[x] == rest[x - |first|]; }
    }
    forall k | i <= k < |s| ensures IsWord(s[k]) <==> Covered(ws, k) { OneMoreCovers(s, i, rest, k); }
  }

  lemma {:induction false} OneMoreCovers(s: string, i: nat, rest: seq<Span>, k: nat)
    requires i <= |s| && SkipSpace(s, i) < |s| && WordsFrom(s, TokenAt(s, SkipSpace(s, i)).1, rest) && i <= k < |s|
    ensures var t := TokenAt(s, SkipSpace(s, i)).0;
            IsWord(s[k]) <==> Covered((if t.Word? then [t.sp] else []) + rest, k)
  {
    var (t, e) := TokenAt(s, SkipSpace(s, i));
    var first := if t.Word? then [t.sp] else [];
    CoveredMore(first + rest, rest, first, k);
    if k < e {
      NotBefore(s, e, rest, k);
      SpaceIn(s, i, k);
    } else {
      assert IsWord(s[k]) <==> Covered(rest, k);
    }
  }

  lemma SpaceIn(s: string, i: nat, k: nat)
    requires i <= k < |s|
    ensures k < SkipSpace(s, i) ==> IsSpace(s[k])
  {
  }

  lemma NotBefore(s: string, e: nat, rest: seq<Span>, k: nat)
    requires WordsFrom(s, e, rest) && k < e
    ensures !Covered(rest, k)
  {
  }

  lemma CoveredMore(ws: seq<Span>, rest: seq<Span>, first: seq<Span>, k: nat)
    requires ws == first + rest && |first| <= 1
    ensures Covered(ws, k) <==> Covered(rest, k) || (first != [] && first[0].q <= k < first[0].eq)
  {
    if Covered(rest, k) {
      var x :| 0 <= x < |rest| && rest[x].q <= k < rest[x].eq;
      assert ws[|first| + x] == rest[x];
    }
    if first != [] { assert ws[0] == first[0]; }
    if Covered(ws, k) {
      var x :| 0 <= x < |ws| && ws[x].q <= k < ws[x].eq;
      if x >= |first| { assert rest[x - |first|] == ws[x]; }
    }
  }
}
