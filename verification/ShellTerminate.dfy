/** `parsecmd`: the line is parsed, then every word is NUL-terminated in place
    (cmd/sh.c:352-367, 474-519). */
module ShellTerminate {
  import opened Options
  import opened ShellGrammar
  import opened ShellLexer
  import opened ShellParser
  import ShellDerive

  const NUL: char := '\0'

  ghost predicate EndsAt(ws: seq<Span>, i: nat) {
    exists x :: 0 <= x < |ws| && ws[x].eq == i
  }

  /** A NUL at the end of each word, everything else as before. */
  ghost predicate Ended(before: seq<char>, after: seq<char>, ws: seq<Span>) {
    |after| == |before| &&
    forall i {:trigger after[i]} :: 0 <= i < |before| ==> after[i] == if EndsAt(ws, i) then NUL else before[i]
  }

  lemma EndsConcat(a: seq<Span>, b: seq<Span>, i: nat)
    ensures EndsAt(a + b, i) <==> EndsAt(a, i) || EndsAt(b, i)
  {
    if EndsAt(a, i) {
      var x :| 0 <= x < |a| && a[x].eq == i;
      assert (a + b)[x] == a[x];
    }
    if EndsAt(b, i) {
      var x :| 0 <= x < |b| && b[x].eq == i;
      assert (a + b)[|a| + x] == b[x];
    }
  }

  lemma EndedTwice(s0: seq<char>, s1: seq<char>, s2: seq<char>, a: seq<Span>, b: seq<Span>)
    requires Ended(s0, s1, a) && Ended(s1, s2, b)
    ensures Ended(s0, s2, a + b)
  {
    forall i | 0 <= i < |s0| ensures s2[i] == if EndsAt(a + b, i) then NUL else s0[i] {
      EndsConcat(a, b, i);
      assert s1[i] == if EndsAt(a, i) then NUL else s0[i];
    }
  }

  ghost predicate Within(ws: seq<Span>, n: nat) {
    forall x {:trigger ws[x]} :: 0 <= x < |ws| ==> ws[x].eq < n
  }

  /** `nulterminate`. */
  method NulTerminate(c: Cmd, buf: array<char>)
    requires Within(Spans(c), buf.Length)
    modifies buf
    ensures Ended(old(buf[..]), buf[..], Spans(c))
    decreases c
  {
    ghost var s0 := buf[..];
    match c {
      case Exec(args) =>
        EndWords(args, buf);
      case Redir(d, r) =>
        WithinParts(Spans(d), [r.file], buf.Length);
        NulTerminate(d, buf);
        ghost var s1 := buf[..];
        EndWords([r.file], buf);
        EndedTwice(s0, s1, buf[..], Spans(d), [r.file]);
      case Pipe(l, r) =>
        WithinParts(Spans(l), Spans(r), buf.Length);
        NulTerminate(l, buf);
        ghost var s1 := buf[..];
        NulTerminate(r, buf);
        EndedTwice(s0, s1, buf[..], Spans(l), Spans(r));
      case List(l, r) =>
        WithinParts(Spans(l), Spans(r), buf.Length);
        NulTerminate(l, buf);
        ghost var s1 := buf[..];
        NulTerminate(r, buf);
        EndedTwice(s0, s1, buf[..], Spans(l), Spans(r));
      case Back(d) =>
        NulTerminate(d, buf);
    }
  }

  lemma WithinParts(a: seq<Span>, b: seq<Span>, n: nat)
    requires Within(a + b, n)
    ensures Within(a, n) && Within(b, n)
  {
    forall x | 0 <= x < |a| ensures a[x].eq < n { assert (a + b)[x] == a[x]; }
    forall x | 0 <= x < |b| ensures b[x].eq < n { assert (a + b)[|a| + x] == b[x]; }
  }

  method EndWords(ws: seq<Span>, buf: array<char>)
    requires Within(ws, buf.Length)
    modifies buf
    ensures Ended(old(buf[..]), buf[..], ws)
  {
    ghost var s0 := buf[..];
    for k := 0 to |ws|
      invariant Ended(s0, buf[..], ws[.. k])
    {
      ghost var s1 := buf[..];
      buf[ws[k].eq] := NUL;
      assert Ended(s1, buf[..], [ws[k]]) by {
        forall i | 0 <= i < |s1| ensures buf[..][i] == if EndsAt([ws[k]], i) then NUL else s1[i] {
          assert EndsAt([ws[k]], i) <==> ws[k].eq == i by { if ws[k].eq == i { assert [ws[k]][0].eq == i; } }
        }
      }
      EndedTwice(s0, s1, buf[..], ws[.. k], [ws[k]]);
      assert ws[.. k] + [ws[k]] == ws[.. k + 1];
    }
    assert ws[.. |ws|] == ws;
  }

  // What the pointers then point to.

  /** The C string at `q`. */
  function CString(buf: seq<char>, q: nat): string
    decreases |buf| - q
  {
    if q >= |buf| || buf[q] == NUL then [] else [buf[q]] + CString(buf, q + 1)
  }

  lemma {:induction false} CStringIs(buf: seq<char>, q: nat, e: nat)
    requires q <= e < |buf| && buf[e] == NUL && forall k {:trigger buf[k]} :: q <= k < e ==> buf[k] != NUL
    ensures CString(buf, q) == buf[q .. e]
    decreases e - q
  {
    if q < e {
      CStringIs(buf, q + 1, e);
      assert buf[q .. e] == [buf[q]] + buf[q + 1 .. e];
    }
  }

  ghost predicate NoNul(line: string) { forall k {:trigger line[k]} :: 0 <= k < |line| ==> line[k] != NUL }

  /** No word ends inside another: what follows a word is no word character. */
  lemma EndsOutside(line: string, ws: seq<Span>, sp: Span, k: nat)
    requires (forall x {:trigger ws[x]} :: 0 <= x < |ws| ==> WordSpan(line, ws[x])) && WordSpan(line, sp) &&
             sp.q <= k < sp.eq
    ensures !EndsAt(ws, k)
  {
  }

  /** After termination every recorded word is exactly the string its pointer leads to. */
  lemma WordsTerminated(line: string, after: seq<char>, ws: seq<Span>, x: nat)
    requires NoNul(line) && Ended(line + [NUL], after, ws) && x < |ws| && WordSpan(line, ws[x])
    requires forall y {:trigger ws[y]} :: 0 <= y < |ws| ==> WordSpan(line, ws[y])
    ensures CString(after, ws[x].q) == line[ws[x].q .. ws[x].eq]
  {
    var sp := ws[x];
    assert EndsAt(ws, sp.eq);
    forall k | sp.q <= k < sp.eq ensures after[k] == line[k] && line[k] != NUL {
      EndsOutside(line, ws, sp, k);
    }
    CStringIs(after, sp.q, sp.eq);
    assert after[sp.q .. sp.eq] == line[sp.q .. sp.eq];
  }

  /** The words of an accepted line: runs of word characters, each recorded once, none left out. */
  lemma RecordedWords(line: string, c: Cmd)
    requires ParseCmd(Tokens(line, 0)) == Ok(c, [])
    ensures multiset(Spans(c)) == multiset(WordsOf(Tokens(line, 0)))
    ensures forall x {:trigger Spans(c)[x]} :: 0 <= x < |Spans(c)| ==> WordSpan(line, Spans(c)[x])
    ensures forall k {:trigger Covered(Spans(c), k)} :: 0 <= k < |line| ==> (IsWord(line[k]) <==> Covered(Spans(c), k))
  {
    LineWords(Tokens(line, 0));
    TokensAreWords(line, 0);
    SameWords(line, Spans(c), WordsOf(Tokens(line, 0)));
  }

  lemma SameWords(line: string, s: seq<Span>, ws: seq<Span>)
    requires multiset(s) == multiset(ws) && WordsFrom(line, 0, ws)
    ensures forall x {:trigger s[x]} :: 0 <= x < |s| ==> WordSpan(line, s[x])
    ensures forall k {:trigger Covered(s, k)} :: 0 <= k < |line| ==> (IsWord(line[k]) <==> Covered(s, k))
  {
    forall x | 0 <= x < |s| ensures WordSpan(line, s[x]) {
      assert s[x] in multiset(s);
      assert s[x] in ws;
    }
    forall k | 0 <= k < |line| ensures IsWord(line[k]) <==> Covered(s, k) {
      SameCovered(ws, s, k);
      SameCovered(s, ws, k);
      assert IsWord(line[k]) <==> Covered(ws, k);
    }
  }

  lemma SameCovered(a: seq<Span>, b: seq<Span>, k: nat)
    requires multiset(a) == multiset(b)
    ensures Covered(a, k) ==> Covered(b, k)
  {
    if Covered(a, k) {
      var x :| 0 <= x < |a| && a[x].q <= k < a[x].eq;
      assert a[x] in multiset(a);
      assert a[x] in b;
      var y :| 0 <= y < |b| && b[y] == a[x];
    }
  }

  /** Two recorded words never overlap. */
  lemma WordsDisjoint(line: string, c: Cmd, x: nat, y: nat)
    requires ParseCmd(Tokens(line, 0)) == Ok(c, []) && x < y < |Spans(c)|
    ensures Spans(c)[x].eq < Spans(c)[y].q || Spans(c)[y].eq < Spans(c)[x].q
  {
    RecordedWords(line, c);
    TokensAreWords(line, 0);
    OrderedApart(Spans(c), WordsOf(Tokens(line, 0)), x, y);
  }

  ghost predicate Ordered(ws: seq<Span>) {
    && (forall x {:trigger ws[x]} :: 0 <= x < |ws| ==> ws[x].q < ws[x].eq)
    && (forall x, y {:trigger ws[x], ws[y]} :: 0 <= x < y < |ws| ==> ws[x].eq < ws[y].q)
  }

  lemma OrderedApart(s: seq<Span>, ws: seq<Span>, x: nat, y: nat)
    requires multiset(s) == multiset(ws) && Ordered(ws) && x < y < |s|
    ensures s[x].eq < s[y].q || s[y].eq < s[x].q
  {
    Twice(s, x, y);
    Once(ws, s[x]);
    assert s[x] in multiset(s) && s[y] in multiset(s);
    var x' :| 0 <= x' < |ws| && ws[x'] == s[x];
    var y' :| 0 <= y' < |ws| && ws[y'] == s[y];
    assert x' != y';
  }

  lemma Twice(s: seq<Span>, x: nat, y: nat)
    requires x < y < |s|
    ensures s[x] == s[y] ==> multiset(s)[s[x]] >= 2
  {
    assert s == s[.. x] + [s[x]] + s[x + 1 .. y] + [s[y]] + s[y + 1 ..];
  }

  lemma {:induction false} Once(ws: seq<Span>, sp: Span)
    requires Ordered(ws)
    ensures multiset(ws)[sp] <= 1
    decreases |ws|
  {
    if ws != [] {
      var init, last := ws[.. |ws| - 1], ws[|ws| - 1];
      Once(init, sp);
      assert ws == init + [last];
      if sp == last { NotIn(init, last); }
    }
  }

  lemma NotIn(ws: seq<Span>, sp: Span)
    requires forall x {:trigger ws[x]} :: 0 <= x < |ws| ==> ws[x].eq < sp.q && ws[x].q < ws[x].eq
    ensures multiset(ws)[sp] == 0
  {
  }

  lemma OnlyLines(ts: seq<Tok>)
    ensures ParseCmd(ts).Ok? <==> exists c :: ShellDerive.IsLine(ts, c)
    ensures forall c {:trigger ShellDerive.IsLine(ts, c)} :: ShellDerive.IsLine(ts, c) <==> ParseCmd(ts) == Ok(c, [])
  {
    forall c ensures ShellDerive.IsLine(ts, c) <==> ParseCmd(ts) == Ok(c, []) { ShellDerive.ParserIsGrammar(ts, c); }
    if ParseCmd(ts).Ok? { assert ShellDerive.IsLine(ts, ParseCmd(ts).cmd); }
  }

  /** `parsecmd` on a buffer that holds the line and its NUL. */
  method ParseCommand(buf: array<char>, n: nat) returns (cmd: Option<Cmd>)
    requires buf.Length == n + 1 && buf[n] == NUL && NoNul(buf[.. n])
    modifies buf
    ensures var line := old(buf[.. n]);
            && (cmd.None? <==> ParseCmd(Tokens(line, 0)).Fail?)
            && (cmd.None? <==> !exists c :: ShellDerive.IsLine(Tokens(line, 0), c))
            && (cmd.Some? ==> ShellDerive.IsLine(Tokens(line, 0), cmd.value))
            && (cmd.None? ==> buf[..] == old(buf[..]))
            && (cmd.Some? ==>
                  && ParseCmd(Tokens(line, 0)) == Ok(cmd.value, [])
                  && Ended(line + [NUL], buf[..], Spans(cmd.value))
                  && forall x {:trigger Spans(cmd.value)[x]} :: 0 <= x < |Spans(cmd.value)| ==>
                       var sp := Spans(cmd.value)[x];
                       sp.q < sp.eq <= n && CString(buf[..], sp.q) == line[sp.q .. sp.eq])
  {
    var line := buf[.. n];
    assert buf[..] == line + [NUL];
    OnlyLines(Tokens(line, 0));
    var ps;
    cmd, ps := ParseLineAt(line, 0);
    if cmd.None? { return; }
    var end := AtEnd(line, ps);
    if !end { return None; }
    var c := cmd.value;
    RecordedWords(line, c);
    forall x | 0 <= x < |Spans(c)| ensures Spans(c)[x].eq < buf.Length { assert WordSpan(line, Spans(c)[x]); }
    NulTerminate(c, buf);
    forall x | 0 <= x < |Spans(c)|
      ensures Spans(c)[x].q < Spans(c)[x].eq <= n &&
              CString(buf[..], Spans(c)[x].q) == line[Spans(c)[x].q .. Spans(c)[x].eq]
    {
      assert WordSpan(line, Spans(c)[x]);
      WordsTerminated(line, buf[..], Spans(c), x);
    }
  }
}
