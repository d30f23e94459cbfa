/** Commands as characters: a command written out as a line is read back as the same command, and
    what the parser builds from any line can be written out so (cmd/sh.c:285-472). */
module ShellRender {
  import opened ShellGrammar
  import opened ShellLexer
  import opened ShellPrint

  /** Characters a word can be made of. */
  predicate Good(s: string, sp: Span) {
    sp.q < sp.eq <= |s| && forall k {:trigger s[k]} :: sp.q <= k < sp.eq ==> IsWord(s[k])
  }

  predicate GoodTok(s: string, t: Tok) {
    match t
    case Word(sp) => Good(s, sp)
    case Sym(c) => c == '+' || IsSymbol(c)
  }

  predicate AllGood(s: string, ts: seq<Tok>) { forall i {:trigger ts[i]} :: 0 <= i < |ts| ==> GoodTok(s, ts[i]) }

  predicate GoodArgs(s: string, args: seq<Span>) { forall i {:trigger args[i]} :: 0 <= i < |args| ==> Good(s, args[i]) }

  predicate GoodRedirs(s: string, rs: seq<Redirection>) {
    forall i {:trigger rs[i]} :: 0 <= i < |rs| ==> IsOp(rs[i].op) && Good(s, rs[i].file)
  }

  /** A command with words of the line `s`, within what the parser can build. */
  predicate GoodCmd(s: string, c: Cmd) {
    match c
    case Exec(args) => |args| < MAXARGS && GoodArgs(s, args)
    case Redir(d, r) => GoodCmd(s, d) && IsOp(r.op) && Good(s, r.file)
    case Pipe(l, r) => GoodCmd(s, l) && GoodCmd(s, r)
    case List(l, r) => GoodCmd(s, l) && GoodCmd(s, r)
    case Back(d) => GoodCmd(s, d)
  }

  lemma {:induction false} GoodProper(s: string, c: Cmd)
    requires GoodCmd(s, c)
    ensures Proper(c)
  {
    match c
    case Exec(args) =>
    case Redir(d, r) => GoodProper(s, d);
    case Pipe(l, r) => GoodProper(s, l); GoodProper(s, r);
    case List(l, r) => GoodProper(s, l); GoodProper(s, r);
    case Back(d) => GoodProper(s, d);
  }

  // What the parser builds is good.

  lemma {:induction false} TokensGood(s: string, i: nat)
    requires i <= |s|
    ensures AllGood(s, Tokens(s, i))
    decreases |s| - i
  {
    var j := SkipSpace(s, i);
    if j < |s| {
      TokensGood(s, TokenAt(s, j).1);
    }
  }

  lemma {:induction false} WrapGood(s: string, c: Cmd, rs: seq<Redirection>)
    requires GoodCmd(s, c) && GoodRedirs(s, rs)
    ensures GoodCmd(s, Wrap(c, rs))
    decreases |rs|
  {
    if rs != [] { WrapGood(s, c, rs[.. |rs| - 1]); }
  }

  lemma {:induction false} RedirsGood(s: string, ts: seq<Tok>)
    requires AllGood(s, ts)
    ensures var r := ParseRedirs(ts); r.Redirs? ==> GoodRedirs(s, r.rs) && AllGood(s, r.rest)
    decreases |ts|
  {
    if AtRedir(ts) && |ts| >= 2 && ts[1].Word? {
      RedirsGood(s, ts[2..]);
      assert GoodTok(s, ts[1]);
    }
  }

  lemma {:induction false} ArgsGood(s: string, ts: seq<Tok>, args: seq<Span>, rs: seq<Redirection>)
    requires AllGood(s, ts) && |args| < MAXARGS && GoodArgs(s, args) && GoodRedirs(s, rs)
    ensures var r := ParseArgs(ts, args, rs); r.Ok? ==> GoodCmd(s, r.cmd) && AllGood(s, r.rest)
    decreases |ts|
  {
    if AtStop(ts) || ts == [] {
      WrapGood(s, Exec(args), rs);
    } else if ts[0].Word? && |args| + 1 < MAXARGS {
      RedirsGood(s, ts[1..]);
      var p := ParseRedirs(ts[1..]);
      if p.Redirs? {
        assert GoodTok(s, ts[0]);
        ArgsGood(s, p.rest, args + [ts[0].sp], rs + p.rs);
      }
    }
  }

  lemma {:induction false} ExecGood(s: string, ts: seq<Tok>)
    requires AllGood(s, ts)
    ensures var r := ParseExec(ts); r.Ok? ==> GoodCmd(s, r.cmd) && AllGood(s, r.rest)
    decreases |ts|, 1
  {
    if Is(ts, '(') {
      BlockGood(s, ts);
    } else {
      RedirsGood(s, ts);
      var p := ParseRedirs(ts);
      if p.Redirs? { ArgsGood(s, p.rest, [], p.rs); }
    }
  }

  lemma {:induction false} BlockGood(s: string, ts: seq<Tok>)
    requires AllGood(s, ts) && Is(ts, '(')
    ensures var r := ParseBlock(ts); r.Ok? ==> GoodCmd(s, r.cmd) && AllGood(s, r.rest)
    decreases |ts|, 0
  {
    LineGood(s, ts[1..]);
    var p := ParseLine(ts[1..]);
    if p.Ok? && Is(p.rest, ')') {
      RedirsGood(s, p.rest[1..]);
      var q := ParseRedirs(p.rest[1..]);
      if q.Redirs? { WrapGood(s, p.cmd, q.rs); }
    }
  }

  lemma {:induction false} PipeGood(s: string, ts: seq<Tok>)
    requires AllGood(s, ts)
    ensures var r := ParsePipe(ts); r.Ok? ==> GoodCmd(s, r.cmd) && AllGood(s, r.rest)
    decreases |ts|, 2
  {
    ExecGood(s, ts);
    var p := ParseExec(ts);
    if p.Ok? && Is(p.rest, '|') { PipeGood(s, p.rest[1..]); }
  }

  lemma {:induction false} BacksGood(s: string, c: Cmd, ts: seq<Tok>)
    requires AllGood(s, ts) && GoodCmd(s, c)
    ensures var r := ParseBacks(c, ts); GoodCmd(s, r.cmd) && AllGood(s, r.rest)
    decreases |ts|
  {
    if Is(ts, '&') { BacksGood(s, Back(c), ts[1..]); }
  }

  lemma {:induction false} LineGood(s: string, ts: seq<Tok>)
    requires AllGood(s, ts)
    ensures var r := ParseLine(ts); r.Ok? ==> GoodCmd(s, r.cmd) && AllGood(s, r.rest)
    decreases |ts|, 3
  {
    PipeGood(s, ts);
    var p := ParsePipe(ts);
    if p.Ok? {
      BacksGood(s, p.cmd, p.rest);
      var b := ParseBacks(p.cmd, p.rest);
      if Is(b.rest, ';') { LineGood(s, b.rest[1..]); }
    }
  }

  /** Whatever a line parses to is a command with words of the line, within the bound on words. */
  lemma ParsedGood(line: string, c: Cmd)
    requires ParseCmd(Tokens(line, 0)) == Ok(c, [])
    ensures GoodCmd(line, c) && Proper(c)
  {
    TokensGood(line, 0);
    LineGood(line, Tokens(line, 0));
    GoodProper(line, c);
  }

  // The same command in two lines.

  predicate SameWord(s: string, sp: Span, s': string, sp': Span) {
    sp.q <= sp.eq <= |s| && sp'.q <= sp'.eq <= |s'| && s[sp.q .. sp.eq] == s'[sp'.q .. sp'.eq]
  }

  predicate SameTok(s: string, t: Tok, s': string, t': Tok) {
    match (t, t')
    case (Word(sp), Word(sp')) => SameWord(s, sp, s', sp')
    case (Sym(c), Sym(c')) => c == c'
    case _ => false
  }

  predicate SameToks(s: string, ts: seq<Tok>, s': string, ts': seq<Tok>) {
    |ts| == |ts'| && forall i {:trigger ts[i]} {:trigger ts'[i]} :: 0 <= i < |ts| ==> SameTok(s, ts[i], s', ts'[i])
  }

  predicate SameArgs(s: string, args: seq<Span>, s': string, args': seq<Span>) {
    && |args| == |args'|
    && forall i {:trigger args[i]} {:trigger args'[i]} :: 0 <= i < |args| ==> SameWord(s, args[i], s', args'[i])
  }

  predicate SameRedirs(s: string, rs: seq<Redirection>, s': string, rs': seq<Redirection>) {
    && |rs| == |rs'|
    && forall i {:trigger rs[i]} {:trigger rs'[i]} :: 0 <= i < |rs| ==>
         rs[i].op == rs'[i].op && SameWord(s, rs[i].file, s', rs'[i].file)
  }

  /** The same tree, with words of the same characters. */
  predicate SameCmd(s: string, c: Cmd, s': string, c': Cmd) {
    match (c, c')
    case (Exec(args), Exec(args')) => SameArgs(s, args, s', args')
    case (Redir(d, r), Redir(d', r')) => SameCmd(s, d, s', d') && r.op == r'.op && SameWord(s, r.file, s', r'.file)
    case (Pipe(x, y), Pipe(x', y')) => SameCmd(s, x, s', x') && SameCmd(s, y, s', y')
    case (List(x, y), List(x', y')) => SameCmd(s, x, s', x') && SameCmd(s, y, s', y')
    case (Back(d), Back(d')) => SameCmd(s, d, s', d')
    case _ => false
  }

  predicate SameParsed(s: string, r: Parsed, s': string, r': Parsed) {
    match (r, r')
    case (Ok(c, rest), Ok(c', rest')) => SameCmd(s, c, s', c') && SameToks(s, rest, s', rest')
    case (Fail, Fail) => true
    case _ => false
  }

  lemma SameIs(s: string, ts: seq<Tok>, s': string, ts': seq<Tok>)
    requires SameToks(s, ts, s', ts')
    ensures forall c :: Is(ts, c) <==> Is(ts', c)
    ensures AtRedir(ts) <==> AtRedir(ts')
    ensures AtStop(ts) <==> AtStop(ts')
  {
    if ts != [] { assert SameTok(s, ts[0], s', ts'[0]); }
  }

  lemma SameTail(s: string, ts: seq<Tok>, s': string, ts': seq<Tok>)
    requires SameToks(s, ts, s', ts') && ts != []
    ensures SameToks(s, ts[1..], s', ts'[1..])
  {
  }

  lemma SameCons(s: string, ts: seq<Tok>, s': string, t': Tok, rest': seq<Tok>)
    requires ts != [] && SameTok(s, ts[0], s', t') && SameToks(s, ts[1..], s', rest')
    ensures SameToks(s, ts, s', [t'] + rest')
  {
    var ts' := [t'] + rest';
    forall i | 0 <= i < |ts| ensures SameTok(s, ts[i], s', ts'[i]) {
      if i > 0 { assert ts[i] == ts[1..][i - 1] && ts'[i] == rest'[i - 1]; }
    }
  }

  lemma {:induction false} SameWrap(s: string, c: Cmd, rs: seq<Redirection>, s': string, c': Cmd, rs': seq<Redirection>)
    requires SameCmd(s, c, s', c') && SameRedirs(s, rs, s', rs')
    ensures SameCmd(s, Wrap(c, rs), s', Wrap(c', rs'))
    decreases |rs|
  {
    if rs != [] { SameWrap(s, c, rs[.. |rs| - 1], s', c', rs'[.. |rs| - 1]); }
  }

  predicate SameRedirections(s: string, r: Redirs, s': string, r': Redirs) {
    match (r, r')
    case (Redirs(rs, rest), Redirs(rs', rest')) => SameRedirs(s, rs, s', rs') && SameToks(s, rest, s', rest')
    case (NoFile, NoFile) => true
    case _ => false
  }

  lemma {:induction false} RedirsSame(s: string, ts: seq<Tok>, s': string, ts': seq<Tok>)
    requires SameToks(s, ts, s', ts')
    ensures SameRedirections(s, ParseRedirs(ts), s', ParseRedirs(ts'))
    decreases |ts|
  {
    SameIs(s, ts, s', ts');
    if AtRedir(ts) && |ts| >= 2 {
      assert SameTok(s, ts[0], s', ts'[0]) && SameTok(s, ts[1], s', ts'[1]);
      RedirsSame(s, ts[2..], s', ts'[2..]);
    }
  }

  lemma {:induction false} ArgsSame(s: string, ts: seq<Tok>, args: seq<Span>, rs: seq<Redirection>,
                                    s': string, ts': seq<Tok>, args': seq<Span>, rs': seq<Redirection>)
    requires SameToks(s, ts, s', ts') && SameArgs(s, args, s', args') && SameRedirs(s, rs, s', rs')
    ensures SameParsed(s, ParseArgs(ts, args, rs), s', ParseArgs(ts', args', rs'))
    decreases |ts|
  {
    SameIs(s, ts, s', ts');
    if AtStop(ts) || ts == [] {
      SameWrap(s, Exec(args), rs, s', Exec(args'), rs');
    } else {
      assert SameTok(s, ts[0], s', ts'[0]);
      if ts[0].Word? && |args| + 1 < MAXARGS {
        SameTail(s, ts, s', ts');
        RedirsSame(s, ts[1..], s', ts'[1..]);
        var p, p' := ParseRedirs(ts[1..]), ParseRedirs(ts'[1..]);
        if p.Redirs? {
          ArgsSame(s, p.rest, args + [ts[0].sp], rs + p.rs, s', p'.rest, args' + [ts'[0].sp], rs' + p'.rs);
        }
      }
    }
  }

  lemma {:induction false} ExecSame(s: string, ts: seq<Tok>, s': string, ts': seq<Tok>)
    requires SameToks(s, ts, s', ts')
    ensures SameParsed(s, ParseExec(ts), s', ParseExec(ts'))
    decreases |ts|, 1
  {
    SameIs(s, ts, s', ts');
    if Is(ts, '(') {
      BlockSame(s, ts, s', ts');
    } else {
      RedirsSame(s, ts, s', ts');
      var p, p' := ParseRedirs(ts), ParseRedirs(ts');
      if p.Redirs? { ArgsSame(s, p.rest, [], p.rs, s', p'.rest, [], p'.rs); }
    }
  }

  lemma {:induction false} BlockSame(s: string, ts: seq<Tok>, s': string, ts': seq<Tok>)
    requires SameToks(s, ts, s', ts') && Is(ts, '(') && Is(ts', '(')
    ensures SameParsed(s, ParseBlock(ts), s', ParseBlock(ts'))
    decreases |ts|, 0
  {
    SameTail(s, ts, s', ts');
    LineSame(s, ts[1..], s', ts'[1..]);
    var p, p' := ParseLine(ts[1..]), ParseLine(ts'[1..]);
    if p.Ok? {
      SameIs(s, p.rest, s', p'.rest);
      if Is(p.rest, ')') {
        SameTail(s, p.rest, s', p'.rest);
        RedirsSame(s, p.rest[1..], s', p'.rest[1..]);
        var q, q' := ParseRedirs(p.rest[1..]), ParseRedirs(p'.rest[1..]);
        if q.Redirs? { SameWrap(s, p.cmd, q.rs, s', p'.cmd, q'.rs); }
      }
    }
  }

  lemma {:induction false} PipeSame(s: string, ts: seq<Tok>, s': string, ts': seq<Tok>)
    requires SameToks(s, ts, s', ts')
    ensures SameParsed(s, ParsePipe(ts), s', ParsePipe(ts'))
    decreases |ts|, 2
  {
    ExecSame(s, ts, s', ts');
    var p, p' := ParseExec(ts), ParseExec(ts');
    if p.Ok? {
      SameIs(s, p.rest, s', p'.rest);
      if Is(p.rest, '|') {
        SameTail(s, p.rest, s', p'.rest);
        PipeSame(s, p.rest[1..], s', p'.rest[1..]);
      }
    }
  }

  lemma {:induction false} BacksSame(s: string, c: Cmd, ts: seq<Tok>, s': string, c': Cmd, ts': seq<Tok>)
    requires SameToks(s, ts, s', ts') && SameCmd(s, c, s', c')
    ensures SameParsed(s, ParseBacks(c, ts), s', ParseBacks(c', ts'))
    decreases |ts|
  {
    SameIs(s, ts, s', ts');
    if Is(ts, '&') {
      SameTail(s, ts, s', ts');
      BacksSame(s, Back(c), ts[1..], s', Back(c'), ts'[1..]);
    }
  }

  /** The parser looks at no word. */
  lemma {:induction false} LineSame(s: string, ts: seq<Tok>, s': string, ts': seq<Tok>)
    requires SameToks(s, ts, s', ts')
    ensures SameParsed(s, ParseLine(ts), s', ParseLine(ts'))
    decreases |ts|, 3
  {
    PipeSame(s, ts, s', ts');
    var p, p' := ParsePipe(ts), ParsePipe(ts');
    if p.Ok? {
      BacksSame(s, p.cmd, p.rest, s', p'.cmd, p'.rest);
      var b, b' := ParseBacks(p.cmd, p.rest), ParseBacks(p'.cmd, p'.rest);
      SameIs(s, b.rest, s', b'.rest);
      if Is(b.rest, ';') {
        SameTail(s, b.rest, s', b'.rest);
        LineSame(s, b.rest[1..], s', b'.rest[1..]);
      }
    }
  }

  // Writing tokens out.

  function Text(s: string, t: Tok): (r: string)
    requires GoodTok(s, t)
    ensures r != [] && !IsSpace(r[0])
  {
    match t
    case Word(sp) => s[sp.q .. sp.eq]
    case Sym(c) => if c == '+' then ">>" else [c]
  }

  /** The tokens, each followed by a space. */
  function Render(s: string, ts: seq<Tok>): string
    requires AllGood(s, ts)
  {
    if ts == [] then "" else Text(s, ts[0]) + " " + Render(s, ts[1..])
  }

  /** The characters of a string that are not white space, in order. */
  function Solid(s: string): string {
    if s == [] then "" else (if IsSpace(s[0]) then "" else [s[0]]) + Solid(s[1..])
  }

  function Spelled(s: string, ts: seq<Tok>): string
    requires AllGood(s, ts)
  {
    if ts == [] then "" else Text(s, ts[0]) + Spelled(s, ts[1..])
  }

  lemma {:induction false} SolidConcat(a: string, b: string)
    ensures Solid(a + b) == Solid(a) + Solid(b)
  {
    if a == [] {
      assert a + b == b;
    } else {
      SolidConcat(a[1..], b);
      assert (a + b)[1..] == a[1..] + b;
    }
  }

  lemma {:induction false} SolidSpace(s: string)
    requires forall k {:trigger s[k]} :: 0 <= k < |s| ==> IsSpace(s[k])
    ensures Solid(s) == ""
  {
    if s != [] { SolidSpace(s[1..]); }
  }

  lemma {:induction false} SolidSame(s: string)
    requires forall k {:trigger s[k]} :: 0 <= k < |s| ==> !IsSpace(s[k])
    ensures Solid(s) == s
  {
    if s != [] { SolidSame(s[1..]); }
  }

  /** The tokens of a line spell its characters, all but the white space. */
  lemma {:induction false} TokensSpell(s: string, i: nat)
    requires i <= |s|
    ensures AllGood(s, Tokens(s, i)) && Spelled(s, Tokens(s, i)) == Solid(s[i ..])
    decreases |s| - i
  {
    TokensGood(s, i);
    var j := SkipSpace(s, i);
    SolidSkip(s, i, j);
    if j < |s| {
      var (t, e) := TokenAt(s, j);
      TokensSpell(s, e);
      TokenText(s, j);
      SolidTake(s, j, e);
      SpelledFirst(s, t, Tokens(s, e));
    }
  }

  lemma SpelledFirst(s: string, t: Tok, ts: seq<Tok>)
    requires GoodTok(s, t) && AllGood(s, ts)
    ensures AllGood(s, [t] + ts) && Spelled(s, [t] + ts) == Text(s, t) + Spelled(s, ts)
  {
    assert ([t] + ts)[1..] == ts;
  }

  lemma SolidSkip(s: string, i: nat, j: nat)
    requires i <= j <= |s| && forall k {:trigger s[k]} :: i <= k < j ==> IsSpace(s[k])
    ensures Solid(s[i ..]) == Solid(s[j ..])
  {
    SolidSpace(s[i .. j]);
    SolidConcat(s[i .. j], s[j ..]);
    assert s[i ..] == s[i .. j] + s[j ..];
  }

  lemma SolidTake(s: string, j: nat, e: nat)
    requires j <= e <= |s| && forall k {:trigger s[k]} :: j <= k < e ==> !IsSpace(s[k])
    ensures Solid(s[j ..]) == s[j .. e] + Solid(s[e ..])
  {
    SolidSame(s[j .. e]);
    SolidConcat(s[j .. e], s[e ..]);
    assert s[j ..] == s[j .. e] + s[e ..];
  }

  lemma TokenText(s: string, j: nat)
    requires j < |s| && !IsSpace(s[j])
    ensures var (t, e) := TokenAt(s, j);
            GoodTok(s, t) && Text(s, t) == s[j .. e] && forall k {:trigger s[k]} :: j <= k < e ==> !IsSpace(s[k])
  {
  }

  lemma {:induction false} WordEndIs(s: string, i: nat, e: nat)
    requires i <= e < |s| && !IsWord(s[e]) && forall k {:trigger s[k]} :: i <= k < e ==> IsWord(s[k])
    ensures WordEnd(s, i) == e
    decreases e - i
  {
    if i < e { WordEndIs(s, i + 1, e); }
  }

  /** A word in the middle of a line, with a space behind it. */
  lemma WordToken(s: string, sp: Span, line: string, i: nat, e: nat)
    requires Good(s, sp) && i < e < |line| && line[i .. e] == s[sp.q .. sp.eq] && line[e] == ' '
    ensures !IsSpace(line[i]) && TokenAt(line, i) == (Word(Span(i, e)), e)
  {
    forall k | i <= k < e ensures IsWord(line[k]) {
      assert line[k] == line[i .. e][k - i] == s[sp.q + (k - i)];
    }
    WordEndIs(line, i, e);
  }

  lemma SymToken(c: char, line: string, i: nat, e: nat)
    requires c == '+' || IsSymbol(c)
    requires i < e < |line| && line[i .. e] == (if c == '+' then ">>" else [c]) && line[e] == ' '
    ensures !IsSpace(line[i]) && TokenAt(line, i) == (Sym(c), e)
  {
    assert line[i] == line[i .. e][0];
    if c == '+' { assert line[i + 1] == line[i .. e][1]; }
  }

  lemma OneToken(s: string, t: Tok, line: string, i: nat, e: nat)
    requires GoodTok(s, t) && i < e < |line| && line[i .. e] == Text(s, t) && line[e] == ' '
    ensures !IsSpace(line[i]) && SameTok(s, t, line, TokenAt(line, i).0) && TokenAt(line, i).1 == e
  {
    match t
    case Word(sp) => WordToken(s, sp, line, i, e);
    case Sym(c) => SymToken(c, line, i, e);
  }

  lemma TokensMore(line: string, i: nat, e: nat)
    requires i < e < |line| && !IsSpace(line[i]) && TokenAt(line, i).1 == e && line[e] == ' '
    ensures Tokens(line, i) == [TokenAt(line, i).0] + Tokens(line, e + 1)
  {
    assert SkipSpace(line, e) == SkipSpace(line, e + 1);
  }

  lemma {:induction false} RenderedTokens(s: string, ts: seq<Tok>, line: string, i: nat)
    requires AllGood(s, ts) && i <= |line| && line[i ..] == Render(s, ts)
    ensures SameToks(s, ts, line, Tokens(line, i))
    decreases |ts|
  {
    if ts != [] {
      var e := i + |Text(s, ts[0])|;
      RenderedFirst(s, ts, line, i, e);
      RenderedTokens(s, ts[1..], line, e + 1);
      FirstAndRest(s, ts, line, i, e);
    }
  }

  lemma FirstAndRest(s: string, ts: seq<Tok>, line: string, i: nat, e: nat)
    requires ts != [] && GoodTok(s, ts[0]) && i < e < |line| && line[i .. e] == Text(s, ts[0]) && line[e] == ' '
    requires SameToks(s, ts[1..], line, Tokens(line, e + 1))
    ensures SameToks(s, ts, line, Tokens(line, i))
  {
    OneToken(s, ts[0], line, i, e);
    TokensMore(line, i, e);
    SameCons(s, ts, line, TokenAt(line, i).0, Tokens(line, e + 1));
  }

  lemma RenderedFirst(s: string, ts: seq<Tok>, line: string, i: nat, e: nat)
    requires AllGood(s, ts) && i <= |line| && line[i ..] == Render(s, ts) && ts != [] && e == i + |Text(s, ts[0])|
    ensures e < |line| && line[i .. e] == Text(s, ts[0]) && line[e] == ' ' && line[e + 1 ..] == Render(s, ts[1..])
  {
    var text, rest := Text(s, ts[0]), Render(s, ts[1..]);
    assert line[i ..] == text + " " + rest;
    assert line[e] == line[i ..][e - i];
    assert line[i .. e] == line[i ..][.. |text|];
    assert line[e + 1 ..] == line[i ..][|text| + 1 ..];
  }

  // The tokens of a good command are good.

  lemma {:induction false} PartsGood(s: string, c: Cmd)
    requires GoodCmd(s, c)
    ensures GoodCmd(s, Base(c)) && GoodRedirs(s, Outer(c))
  {
    match c
    case Redir(d, r) => PartsGood(s, d);
    case _ =>
  }

  lemma {:induction false} RedirToksGood(s: string, rs: seq<Redirection>)
    requires GoodRedirs(s, rs)
    ensures AllGood(s, RedirToks(rs))
  {
    if rs != [] { RedirToksGood(s, rs[1..]); }
  }

  lemma {:induction false} WordToksGood(s: string, args: seq<Span>)
    requires GoodArgs(s, args)
    ensures AllGood(s, Words(args))
  {
    if args != [] { WordToksGood(s, args[1..]); }
  }

  lemma {:induction false} PrintLineGood(s: string, c: Cmd)
    requires GoodCmd(s, c)
    ensures AllGood(s, PrintLine(c))
    decreases c, 3
  {
    match c
    case List(l, r) => PrintBacksGood(s, l); PrintLineGood(s, r);
    case _ => PrintBacksGood(s, c);
  }

  lemma {:induction false} PrintBacksGood(s: string, c: Cmd)
    requires GoodCmd(s, c)
    ensures AllGood(s, PrintBacks(c))
    decreases c, if c.List? then 6 else 2
  {
    match c
    case Back(d) => PrintBacksGood(s, d);
    case _ => PrintPipeGood(s, c);
  }

  lemma {:induction false} PrintPipeGood(s: string, c: Cmd)
    requires GoodCmd(s, c)
    ensures AllGood(s, PrintPipe(c))
    decreases c, if c.List? || c.Back? then 5 else 1
  {
    match c
    case Pipe(l, r) => PrintExecGood(s, l); PrintPipeGood(s, r);
    case _ => PrintExecGood(s, c);
  }

  lemma {:induction false} PrintExecGood(s: string, c: Cmd)
    requires GoodCmd(s, c)
    ensures AllGood(s, PrintExec(c))
    decreases c, if c.List? || c.Back? || c.Pipe? then 4 else 0
  {
    PartsGood(s, c);
    RedirToksGood(s, Outer(c));
    if Base(c).Exec? { WordToksGood(s, Base(c).args); } else { PrintLineGood(s, Base(c)); }
  }

  /** The line of a command. */
  function LineOf(s: string, c: Cmd): string
    requires GoodCmd(s, c)
  {
    PrintLineGood(s, c);
    Render(s, PrintLine(c))
  }

  /** The line of a command parses, to the same command. */
  lemma LineParses(s: string, c: Cmd) returns (c': Cmd)
    requires GoodCmd(s, c)
    ensures ParseCmd(Tokens(LineOf(s, c), 0)) == Ok(c', []) && SameCmd(s, c, LineOf(s, c), c')
  {
    GoodProper(s, c);
    PrintedParses(c);
    PrintLineGood(s, c);
    var ts, line := PrintLine(c), LineOf(s, c);
    RenderedTokens(s, ts, line, 0);
    LineSame(s, ts, line, Tokens(line, 0));
    c' := ParseLine(Tokens(line, 0)).cmd;
  }

  /** Parsing a line, writing the command out and parsing again changes no command. */
  lemma Reprinted(line: string, c: Cmd) returns (c': Cmd)
    requires ParseCmd(Tokens(line, 0)) == Ok(c, [])
    ensures GoodCmd(line, c) && ParseCmd(Tokens(LineOf(line, c), 0)) == Ok(c', []) &&
            SameCmd(line, c, LineOf(line, c), c')
  {
    ParsedGood(line, c);
    c' := LineParses(line, c);
  }
}
