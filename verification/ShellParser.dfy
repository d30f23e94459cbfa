/** The shell's parser as it moves a cursor through the line, and the termination of its words in
    place (cmd/sh.c:290-472). A panic is a parse without result. */
module ShellParser {
  import opened Options
  import opened ShellGrammar
  import opened ShellLexer
  import ShellDerive

  /** The word spans of a command. */
  function Spans(c: Cmd): seq<Span> {
    match c
    case Exec(args) => args
    case Redir(d, r) => Spans(d) + [r.file]
    case Pipe(l, r) => Spans(l) + Spans(r)
    case List(l, r) => Spans(l) + Spans(r)
    case Back(d) => Spans(d)
  }

  function Files(rs: seq<Redirection>): seq<Span> {
    if rs == [] then [] else [rs[0].file] + Files(rs[1..])
  }

  // No word of the line is lost or recorded twice.

  lemma {:induction false} FilesConcat(a: seq<Redirection>, b: seq<Redirection>)
    ensures Files(a + b) == Files(a) + Files(b)
  {
    if a == [] {
      assert a + b == b;
    } else {
      FilesConcat(a[1..], b);
      assert (a + b)[1..] == a[1..] + b;
    }
  }

  lemma {:induction false} WrapSpans(c: Cmd, rs: seq<Redirection>)
    ensures Spans(Wrap(c, rs)) == Spans(c) + Files(rs)
    decreases |rs|
  {
    if rs == [] {
      assert Spans(c) + Files(rs) == Spans(c);
    } else {
      var init, last := rs[.. |rs| - 1], rs[|rs| - 1];
      WrapSpans(c, init);
      assert rs == init + [last];
      FilesConcat(init, [last]);
      assert Files([last]) == [last.file];
    }
  }

  lemma {:induction false} RedirsWords(ts: seq<Tok>)
    ensures var r := ParseRedirs(ts); r.Redirs? ==> WordsOf(ts) == Files(r.rs) + WordsOf(r.rest)
    decreases |ts|
  {
    if AtRedir(ts) && |ts| >= 2 && ts[1].Word? {
      RedirsWords(ts[2..]);
      assert ts[1..][1..] == ts[2..];
      var r := ParseRedirs(ts[2..]);
      if r.Redirs? {
        assert ([To(ts[0].c, ts[1].sp)] + r.rs)[1..] == r.rs;
      }
    }
  }

  lemma {:induction false} ArgsWords(ts: seq<Tok>, args: seq<Span>, rs: seq<Redirection>)
    ensures var r := ParseArgs(ts, args, rs);
            r.Ok? ==> multiset(args + Files(rs)) + multiset(WordsOf(ts)) ==
              multiset(Spans(r.cmd)) + multiset(WordsOf(r.rest))
    decreases |ts|
  {
    if AtStop(ts) || ts == [] {
      WrapSpans(Exec(args), rs);
    } else if ts[0].Word? && |args| + 1 < MAXARGS {
      RedirsWords(ts[1..]);
      var p := ParseRedirs(ts[1..]);
      if p.Redirs? {
        ArgsWords(p.rest, args + [ts[0].sp], rs + p.rs);
        FilesConcat(rs, p.rs);
        assert WordsOf(ts) == [ts[0].sp] + WordsOf(ts[1..]);
      }
    }
  }

  lemma {:induction false} ExecWords(ts: seq<Tok>)
    ensures var r := ParseExec(ts);
            r.Ok? ==> multiset(WordsOf(ts)) == multiset(Spans(r.cmd)) + multiset(WordsOf(r.rest))
    decreases |ts|, 1
  {
    if Is(ts, '(') {
      BlockWords(ts);
    } else {
      RedirsWords(ts);
      var p := ParseRedirs(ts);
      if p.Redirs? {
        ArgsWords(p.rest, [], p.rs);
        assert [] + Files(p.rs) == Files(p.rs);
      }
    }
  }

  lemma {:induction false} SymNoWord(ts: seq<Tok>)
    requires ts != [] && !ts[0].Word?
    ensures WordsOf(ts) == WordsOf(ts[1..])
  {
  }

  lemma {:induction false} BlockWords(ts: seq<Tok>)
    requires Is(ts, '(')
    ensures var r := ParseBlock(ts);
            r.Ok? ==> multiset(WordsOf(ts)) == multiset(Spans(r.cmd)) + multiset(WordsOf(r.rest))
    decreases |ts|, 0
  {
    LineWords(ts[1..]);
    SymNoWord(ts);
    var p := ParseLine(ts[1..]);
    if p.Ok? && Is(p.rest, ')') {
      SymNoWord(p.rest);
      RedirsWords(p.rest[1..]);
      var q := ParseRedirs(p.rest[1..]);
      if q.Redirs? { WrapSpans(p.cmd, q.rs); }
    }
  }

  lemma {:induction false} PipeWords(ts: seq<Tok>)
    ensures var r := ParsePipe(ts);
            r.Ok? ==> multiset(WordsOf(ts)) == multiset(Spans(r.cmd)) + multiset(WordsOf(r.rest))
    decreases |ts|, 2
  {
    ExecWords(ts);
    var p := ParseExec(ts);
    if p.Ok? && Is(p.rest, '|') {
      SymNoWord(p.rest);
      PipeWords(p.rest[1..]);
    }
  }

  lemma {:induction false} BacksWords(c: Cmd, ts: seq<Tok>)
    ensures var r := ParseBacks(c, ts); Spans(r.cmd) == Spans(c) && WordsOf(r.rest) == WordsOf(ts)
    decreases |ts|
  {
    if Is(ts, '&') {
      BacksWords(Back(c), ts[1..]);
      SymNoWord(ts);
    }
  }

  lemma {:induction false} LineWords(ts: seq<Tok>)
    ensures var r := ParseLine(ts);
            r.Ok? ==> multiset(WordsOf(ts)) == multiset(Spans(r.cmd)) + multiset(WordsOf(r.rest))
    decreases |ts|, 3
  {
    PipeWords(ts);
    var p := ParsePipe(ts);
    if p.Ok? {
      BacksWords(p.cmd, p.rest);
      var b := ParseBacks(p.cmd, p.rest);
      if Is(b.rest, ';') {
        SymNoWord(b.rest);
        LineWords(b.rest[1..]);
      }
    }
  }

  // The cursor.

  /** `gettoken`: the next token, none at the end of the line. */
  method GetToken(s: string, ps: nat) returns (tok: Option<Tok>, ps': nat)
    requires ps <= |s|
    ensures ps <= ps' <= |s|
    ensures Tokens(s, ps) == (if tok.None? then [] else [tok.value] + Tokens(s, ps'))
    ensures tok.Some? ==> ps < ps'
    ensures tok.None? ==> Tokens(s, ps') == []
  {
    var i := Skip(s, ps);
    SpaceNoToken(s, ps);
    if i == |s| { return None, i; }
    var e;
    if s[i] == '>' {
      e := i + 1;
      if e < |s| && s[e] == '>' {
        e := e + 1;
        tok := Some(Sym('+'));
      } else {
        tok := Some(Sym('>'));
      }
    } else if IsSymbol(s[i]) {
      e := i + 1;
      tok := Some(Sym(s[i]));
    } else {
      e := i;
      while e < |s| && !IsSpace(s[e]) && !IsSymbol(s[e])
        invariant i <= e <= |s| && WordEnd(s, e) == WordEnd(s, i)
      {
        e := e + 1;
      }
      tok := Some(Word(Span(i, e)));
    }
    assert (tok.value, e) == TokenAt(s, i);
    ps' := Skip(s, e);
    SpaceNoToken(s, e);
  }

  method Skip(s: string, ps: nat) returns (i: nat)
    requires ps <= |s|
    ensures i == SkipSpace(s, ps)
  {
    i := ps;
    while i < |s| && IsSpace(s[i])
      invariant ps <= i <= |s| && SkipSpace(s, i) == SkipSpace(s, ps)
    {
      i := i + 1;
    }
  }

  /** `peek` for one of the symbols given. */
  method Peek(s: string, ps: nat, toks: string) returns (yes: bool, ps': nat)
    requires ps <= |s| && forall c :: c in toks ==> IsSymbol(c)
    ensures ps <= ps' <= |s| && Tokens(s, ps') == Tokens(s, ps)
    ensures yes <==> (Tokens(s, ps) != [] && Tokens(s, ps)[0].Sym? && FirstChar(Tokens(s, ps)[0].c) in toks)
  {
    ps' := Skip(s, ps);
    SpaceNoToken(s, ps);
    assert SkipSpace(s, ps') == ps';
    yes := ps' < |s| && s[ps'] in toks;
  }

  function FirstChar(c: char): char { if c == '+' then '>' else c }

  method PeekSym(s: string, ps: nat, c: char) returns (yes: bool, ps': nat)
    requires ps <= |s| && IsSymbol(c) && c != '<' && c != '>'
    ensures ps <= ps' <= |s| && Tokens(s, ps') == Tokens(s, ps) && yes == Is(Tokens(s, ps), c)
  {
    yes, ps' := Peek(s, ps, [c]);
  }

  method PeekRedir(s: string, ps: nat) returns (yes: bool, ps': nat)
    requires ps <= |s|
    ensures ps <= ps' <= |s| && Tokens(s, ps') == Tokens(s, ps) && yes == AtRedir(Tokens(s, ps))
  {
    yes, ps' := Peek(s, ps, "<>");
  }

  method PeekStop(s: string, ps: nat) returns (yes: bool, ps': nat)
    requires ps <= |s|
    ensures ps <= ps' <= |s| && Tokens(s, ps') == Tokens(s, ps) && yes == AtStop(Tokens(s, ps))
  {
    yes, ps' := Peek(s, ps, "|)&;");
  }

  function Prepend(rs: seq<Redirection>, r: Redirs): Redirs {
    if r.NoFile? then r else Redirs(rs + r.rs, r.rest)
  }

  lemma PrependStep(rs: seq<Redirection>, ts: seq<Tok>)
    requires AtRedir(ts)
    ensures |ts| >= 2 && ts[1].Word? ==>
              Prepend(rs, ParseRedirs(ts)) == Prepend(rs + [To(ts[0].c, ts[1].sp)], ParseRedirs(ts[2..]))
    ensures |ts| < 2 || !ts[1].Word? ==> Prepend(rs, ParseRedirs(ts)) == NoFile
  {
    if |ts| >= 2 && ts[1].Word? {
      var x, r := To(ts[0].c, ts[1].sp), ParseRedirs(ts[2..]);
      if r.Redirs? { assert rs + ([x] + r.rs) == rs + [x] + r.rs; }
    }
  }

  lemma PrependNone(rs: seq<Redirection>, r: Redirs)
    ensures Prepend([], r) == r
    ensures r.Redirs? && r.rs == [] ==> Prepend(rs, r) == Redirs(rs, r.rest)
  {
    if r.Redirs? { assert [] + r.rs == r.rs && rs + [] == rs; }
  }

  /** One redirection: the operator and the word behind it. */
  method RedirAt(s: string, ps: nat) returns (r: Option<Redirection>, ps': nat)
    requires ps <= |s| && AtRedir(Tokens(s, ps))
    ensures ps < ps' <= |s|
    ensures var ts := Tokens(s, ps);
            && (r.None? <==> |ts| < 2 || !ts[1].Word?)
            && (r.Some? ==> r.value == To(ts[0].c, ts[1].sp) && ts[2..] == Tokens(s, ps'))
  {
    ghost var ts := Tokens(s, ps);
    var op, file;
    op, ps' := GetToken(s, ps);
    assert ts[1..] == Tokens(s, ps');
    file, ps' := GetToken(s, ps');
    if file.None? || !file.value.Word? { return None, ps'; }
    assert ts[2..] == Tokens(s, ps');
    r := Some(To(op.value.c, file.value.sp));
  }

  /** The loop of `parseredirs`. */
  method ParseRedirsAt(s: string, ps: nat) returns (rs: Option<seq<Redirection>>, ps': nat)
    requires ps <= |s|
    ensures ps <= ps' <= |s|
    ensures var r := ParseRedirs(Tokens(s, ps));
            (rs.None? <==> r.NoFile?) && (rs.Some? ==> r == Redirs(rs.value, Tokens(s, ps')))
  {
    var acc: seq<Redirection> := [];
    ghost var r0 := ParseRedirs(Tokens(s, ps));
    PrependNone([], r0);
    var more;
    more, ps' := PeekRedir(s, ps);
    while more
      invariant ps <= ps' <= |s| && more == AtRedir(Tokens(s, ps')) && Prepend(acc, ParseRedirs(Tokens(s, ps'))) == r0
      decreases |s| - ps'
    {
      PrependStep(acc, Tokens(s, ps'));
      var r;
      r, ps' := RedirAt(s, ps');
      if r.None? { return None, ps'; }
      acc := acc + [r.value];
      more, ps' := PeekRedir(s, ps');
    }
    PrependNone(acc, ParseRedirs(Tokens(s, ps')));
    rs := Some(acc);
  }

  ghost predicate Agrees(s: string, r: Parsed, cmd: Option<Cmd>, ps': nat)
    requires ps' <= |s|
  {
    (cmd.None? <==> r.Fail?) && (cmd.Some? ==> r == Ok(cmd.value, Tokens(s, ps')))
  }

  /** A symbol that was seen by `peek` is taken. */
  method Take(s: string, ps: nat) returns (ps': nat)
    requires ps <= |s| && Tokens(s, ps) != []
    ensures ps < ps' <= |s| && Tokens(s, ps') == Tokens(s, ps)[1..]
  {
    var t;
    t, ps' := GetToken(s, ps);
  }

  /** The loop of `parseline` over '&'. */
  method ParseBacksAt(s: string, ps: nat, c0: Cmd) returns (c: Cmd, ps': nat)
    requires ps <= |s|
    ensures ps <= ps' <= |s| && ParseBacks(c0, Tokens(s, ps)) == Ok(c, Tokens(s, ps'))
  {
    c := c0;
    ghost var r0 := ParseBacks(c0, Tokens(s, ps));
    var more;
    more, ps' := PeekSym(s, ps, '&');
    while more
      invariant ps <= ps' <= |s| && more == Is(Tokens(s, ps'), '&') && ParseBacks(c, Tokens(s, ps')) == r0
      decreases |s| - ps'
    {
      ps' := Take(s, ps');
      c := Back(c);
      more, ps' := PeekSym(s, ps', '&');
    }
  }

  method ParseLineAt(s: string, ps: nat) returns (cmd: Option<Cmd>, ps': nat)
    requires ps <= |s|
    ensures ps <= ps' <= |s| && Agrees(s, ParseLine(Tokens(s, ps)), cmd, ps')
    decreases |s| - ps, 3
  {
    cmd, ps' := ParsePipeAt(s, ps);
    if cmd.None? { return; }
    var c, list;
    c, ps' := ParseBacksAt(s, ps', cmd.value);
    cmd := Some(c);
    list, ps' := PeekSym(s, ps', ';');
    if list {
      ps' := Take(s, ps');
      var right;
      right, ps' := ParseLineAt(s, ps');
      cmd := if right.None? then None else Some(List(c, right.value));
    }
  }

  method ParsePipeAt(s: string, ps: nat) returns (cmd: Option<Cmd>, ps': nat)
    requires ps <= |s|
    ensures ps <= ps' <= |s| && Agrees(s, ParsePipe(Tokens(s, ps)), cmd, ps')
    decreases |s| - ps, 2
  {
    cmd, ps' := ParseExecAt(s, ps);
    if cmd.None? { return; }
    var pipe;
    pipe, ps' := PeekSym(s, ps', '|');
    if pipe {
      ps' := Take(s, ps');
      var right;
      right, ps' := ParsePipeAt(s, ps');
      cmd := if right.None? then None else Some(Pipe(cmd.value, right.value));
    }
  }

  method ParseBlockAt(s: string, ps: nat) returns (cmd: Option<Cmd>, ps': nat)
    requires ps <= |s| && Is(Tokens(s, ps), '(')
    ensures ps <= ps' <= |s| && Agrees(s, ParseBlock(Tokens(s, ps)), cmd, ps')
    decreases |s| - ps, 0
  {
    var close, rs;
    ps' := Take(s, ps);
    cmd, ps' := ParseLineAt(s, ps');
    if cmd.None? { return; }
    close, ps' := PeekSym(s, ps', ')');
    if !close { return None, ps'; }
    ps' := Take(s, ps');
    rs, ps' := ParseRedirsAt(s, ps');
    cmd := if rs.None? then None else Some(Wrap(cmd.value, rs.value));
  }

  method ParseExecAt(s: string, ps: nat) returns (cmd: Option<Cmd>, ps': nat)
    requires ps <= |s|
    ensures ps <= ps' <= |s| && Agrees(s, ParseExec(Tokens(s, ps)), cmd, ps')
    decreases |s| - ps, 1
  {
    var block, rs;
    block, ps' := PeekSym(s, ps, '(');
    if block {
      cmd, ps' := ParseBlockAt(s, ps');
      return;
    }
    rs, ps' := ParseRedirsAt(s, ps');
    if rs.None? { return None, ps'; }
    cmd, ps' := ParseArgsAt(s, ps', rs.value);
  }

  /** One word of a command with the redirections behind it. */
  method ArgAt(s: string, ps: nat, n: nat) returns (sp: Option<Span>, rs: seq<Redirection>, ps': nat)
    requires ps <= |s| && Tokens(s, ps) != []
    ensures ps < ps' <= |s|
    ensures var ts := Tokens(s, ps);
            && (sp.None? <==> !ts[0].Word? || n + 1 >= MAXARGS || ParseRedirs(ts[1..]).NoFile?)
            && (sp.Some? ==> sp.value == ts[0].sp && ParseRedirs(ts[1..]) == Redirs(rs, Tokens(s, ps')))
  {
    ghost var ts := Tokens(s, ps);
    var t, more;
    rs := [];
    t, ps' := GetToken(s, ps);
    assert ts[1..] == Tokens(s, ps');
    if !t.value.Word? { return None, [], ps'; }
    if n + 1 >= MAXARGS { return None, [], ps'; }
    more, ps' := ParseRedirsAt(s, ps');
    if more.None? { return None, [], ps'; }
    sp, rs := Some(t.value.sp), more.value;
  }

  /** The loop of `parseexec` over the words of a command. */
  method ParseArgsAt(s: string, ps: nat, rs0: seq<Redirection>) returns (cmd: Option<Cmd>, ps': nat)
    requires ps <= |s|
    ensures ps <= ps' <= |s| && Agrees(s, ParseArgs(Tokens(s, ps), [], rs0), cmd, ps')
    ensures cmd.Some? ==> ShellDerive.Reads(Tokens(s, ps), Tokens(s, ps'), rs0, cmd.value)
  {
    var args: seq<Span>, rs := [], rs0;
    ghost var r0 := ParseArgs(Tokens(s, ps), [], rs0);
    var stop, t, more;
    stop, ps' := PeekStop(s, ps);
    while !stop
      invariant ps <= ps' <= |s| && (stop ==> AtStop(Tokens(s, ps')) || Tokens(s, ps') == []) &&
                (!stop ==> !AtStop(Tokens(s, ps')))
      invariant ParseArgs(Tokens(s, ps'), args, rs) == r0
      decreases !stop, |s| - ps'
    {
      var end := AtEnd(s, ps');
      if end {
        stop := true;
      } else {
        t, more, ps' := ArgAt(s, ps', |args|);
        if t.None? { return None, ps'; }
        args, rs := args + [t.value], rs + more;
        stop, ps' := PeekStop(s, ps');
      }
    }
    cmd := Some(Wrap(Exec(args), rs));
    ShellDerive.ArgsRead(Tokens(s, ps), rs0, r0);
  }

  method AtEnd(s: string, ps: nat) returns (end: bool)
    requires ps <= |s|
    ensures end <==> Tokens(s, ps) == []
  {
    var i := Skip(s, ps);
    end := i == |s|;
  }
}
