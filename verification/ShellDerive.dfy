/** The grammar of command lines, stated over whole token sequences, and that the parser accepts exactly
    its lines and builds exactly their commands (cmd/sh.c:352-472). */
module ShellDerive {
  import opened ShellGrammar
  import opened ShellPrint

  // The grammar.

  /** Operators, each with the word behind it. */
  ghost predicate Pairs(ts: seq<Tok>, rs: seq<Redirection>) {
    && |ts| == 2 * |rs|
    && forall i {:trigger rs[i]} :: 0 <= i < |rs| ==>
         IsOp(rs[i].op) && ts[2 * i] == Sym(rs[i].op) && ts[2 * i + 1] == Word(rs[i].file)
  }

  /** Words and redirections in any order: the redirections are the operators with the words behind them,
      the arguments the other words, both in the order of the line. */
  predicate Simple(ts: seq<Tok>, args: seq<Span>, rs: seq<Redirection>)
    decreases |ts|
  {
    if ts == [] then args == [] && rs == []
    else if ts[0].Word? then args != [] && args[0] == ts[0].sp && Simple(ts[1..], args[1..], rs)
    else
      && IsOp(ts[0].c) && |ts| >= 2 && ts[1].Word? && rs != [] && rs[0] == To(ts[0].c, ts[1].sp)
      && Simple(ts[2..], args, rs[1..])
  }

  /** Command `c` is `d` inside the redirections `rs`, the first one innermost. */
  predicate Layered(c: Cmd, d: Cmd, rs: seq<Redirection>)
    decreases |rs|
  {
    if rs == [] then c == d else c.Redir? && c.r == rs[|rs| - 1] && Layered(c.cmd, d, rs[.. |rs| - 1])
  }

  ghost predicate IsSimple(ts: seq<Tok>, c: Cmd, args: seq<Span>, rs: seq<Redirection>) {
    |args| < MAXARGS && Simple(ts, args, rs) && Layered(c, Exec(args), rs)
  }

  /** `( line )` and redirections. */
  ghost predicate IsBlock(ts: seq<Tok>, c: Cmd, k: nat, d: Cmd, rs: seq<Redirection>)
    decreases |ts|, 0
  {
    && 0 < k < |ts| && ts[0] == Sym('(') && ts[k] == Sym(')')
    && IsLine(ts[1 .. k], d) && Pairs(ts[k + 1 ..], rs) && Layered(c, d, rs)
  }

  ghost predicate IsCommand(ts: seq<Tok>, c: Cmd)
    decreases |ts|, 1
  {
    (exists args, rs :: IsSimple(ts, c, args, rs)) || (exists k: nat, d, rs :: IsBlock(ts, c, k, d, rs))
  }

  ghost predicate IsPipe(ts: seq<Tok>, c: Cmd, k: nat)
    decreases |ts|, 2
  {
    k < |ts| && ts[k] == Sym('|') && c.Pipe? && IsCommand(ts[.. k], c.left) && IsPipeline(ts[k + 1 ..], c.right)
  }

  ghost predicate IsPipeline(ts: seq<Tok>, c: Cmd)
    decreases |ts|, 3
  {
    IsCommand(ts, c) || exists k: nat :: IsPipe(ts, c, k)
  }

  ghost predicate IsBackground(ts: seq<Tok>, c: Cmd)
    decreases |ts|, 4
  {
    || IsPipeline(ts, c)
    || (ts != [] && ts[|ts| - 1] == Sym('&') && c.Back? && IsBackground(ts[.. |ts| - 1], c.cmd))
  }

  ghost predicate IsList(ts: seq<Tok>, c: Cmd, k: nat)
    decreases |ts|, 5
  {
    k < |ts| && ts[k] == Sym(';') && c.List? && IsBackground(ts[.. k], c.left) && IsLine(ts[k + 1 ..], c.right)
  }

  ghost predicate IsLine(ts: seq<Tok>, c: Cmd)
    decreases |ts|, 6
  {
    IsBackground(ts, c) || exists k: nat :: IsList(ts, c, k)
  }

  // Layers.

  lemma {:induction false} WrapLayers(c: Cmd, d: Cmd, rs: seq<Redirection>)
    ensures Layered(c, d, rs) <==> c == Wrap(d, rs)
    decreases |rs|
  {
    if rs != [] && c.Redir? { WrapLayers(c.cmd, d, rs[.. |rs| - 1]); }
  }

  // Redirections.

  lemma PairsFirst(ts: seq<Tok>, rs: seq<Redirection>)
    requires Pairs(ts, rs) && rs != []
    ensures ts == [Sym(rs[0].op), Word(rs[0].file)] + ts[2..] && IsOp(rs[0].op) && Pairs(ts[2..], rs[1..])
  {
    forall i | 0 <= i < |rs[1..]|
      ensures var r := rs[1..][i]; IsOp(r.op) && ts[2..][2 * i] == Sym(r.op) && ts[2..][2 * i + 1] == Word(r.file)
    {
      assert rs[1..][i] == rs[i + 1];
    }
    assert rs[0] == rs[0];
  }

  lemma PairsMore(r: Redirection, ts: seq<Tok>, rs: seq<Redirection>)
    requires IsOp(r.op) && Pairs(ts, rs)
    ensures Pairs([Sym(r.op), Word(r.file)] + ts, [r] + rs)
  {
    var ts', rs' := [Sym(r.op), Word(r.file)] + ts, [r] + rs;
    forall i | 0 <= i < |rs'|
      ensures IsOp(rs'[i].op) && ts'[2 * i] == Sym(rs'[i].op) && ts'[2 * i + 1] == Word(rs'[i].file)
    {
      if i > 0 { assert rs'[i] == rs[i - 1]; }
    }
  }

  lemma RedirsStep(ts: seq<Tok>)
    requires ParseRedirs(ts).Redirs?
    ensures AtRedir(ts) ==> |ts| >= 2 && ts[0].Sym? && IsOp(ts[0].c) && ts[1].Word? && ParseRedirs(ts[2..]).Redirs?
    ensures ParseRedirs(ts) ==
              if !AtRedir(ts) then Redirs([], ts)
              else var r := ParseRedirs(ts[2..]); Redirs([To(ts[0].c, ts[1].sp)] + r.rs, r.rest)
  {
  }

  /** What `ParseRedirs` takes is pairs, and it takes all there are. */
  lemma {:induction false} RedirsSound(ts: seq<Tok>) returns (used: seq<Tok>)
    requires ParseRedirs(ts).Redirs?
    ensures var r := ParseRedirs(ts); ts == used + r.rest && Pairs(used, r.rs) && !AtRedir(r.rest)
    decreases |ts|
  {
    RedirsStep(ts);
    if AtRedir(ts) {
      var more := RedirsSound(ts[2..]);
      var r := To(ts[0].c, ts[1].sp);
      used := [Sym(r.op), Word(r.file)] + more;
      PairsMore(r, more, ParseRedirs(ts[2..]).rs);
      assert ts == [Sym(r.op), Word(r.file)] + ts[2..];
    } else {
      used := [];
    }
  }

  lemma {:induction false} RedirsComplete(ts: seq<Tok>, rs: seq<Redirection>, rest: seq<Tok>)
    requires Pairs(ts, rs) && !AtRedir(rest)
    ensures ParseRedirs(ts + rest) == Redirs(rs, rest)
    decreases |rs|
  {
    if rs == [] {
      assert ts + rest == rest;
    } else {
      PairsFirst(ts, rs);
      RedirsComplete(ts[2..], rs[1..], rest);
      OneRedir(rs[0], ts[2..] + rest, rs[1..], rest);
      assert ts + rest == [Sym(rs[0].op), Word(rs[0].file)] + (ts[2..] + rest);
      assert [rs[0]] + rs[1..] == rs;
    }
  }

  // Simple commands: what is accepted.

  lemma {:induction false} PairsThenSimple(pre: seq<Tok>, rs: seq<Redirection>, ts: seq<Tok>, args: seq<Span>,
                                           more: seq<Redirection>)
    requires Pairs(pre, rs) && Simple(ts, args, more)
    ensures Simple(pre + ts, args, rs + more)
    decreases |rs|
  {
    if rs == [] {
      assert pre + ts == ts && rs + more == more;
    } else {
      PairsFirst(pre, rs);
      PairsThenSimple(pre[2..], rs[1..], ts, args, more);
      assert (pre + ts)[2..] == pre[2..] + ts && (rs + more)[1..] == rs[1..] + more;
    }
  }

  /** One word more, with the redirections behind it. */
  lemma ArgsStep(ts: seq<Tok>, args: seq<Span>, rs: seq<Redirection>)
    requires !AtStop(ts) && ts != []
    ensures var r := ParseArgs(ts, args, rs);
            if !ts[0].Word? || |args| + 1 >= MAXARGS || ParseRedirs(ts[1..]).NoFile? then r.Fail?
            else var p := ParseRedirs(ts[1..]); r == ParseArgs(p.rest, args + [ts[0].sp], rs + p.rs)
  {
  }

  lemma WordThenSimple(w: Span, ts: seq<Tok>, args: seq<Span>, rs: seq<Redirection>)
    requires Simple(ts, args, rs)
    ensures Simple([Word(w)] + ts, [w] + args, rs)
  {
    assert ([Word(w)] + ts)[1..] == ts && ([w] + args)[1..] == args;
  }

  lemma {:induction false} ArgsSound(ts: seq<Tok>, args: seq<Span>, rs: seq<Redirection>, r: Parsed)
    returns (used: seq<Tok>, args': seq<Span>, rs': seq<Redirection>)
    requires r == ParseArgs(ts, args, rs) && r.Ok? && |args| < MAXARGS
    ensures ts == used + r.rest && Simple(used, args', rs') && Stops(r.rest)
    ensures |args| + |args'| < MAXARGS && r.cmd == Wrap(Exec(args + args'), rs + rs')
    decreases |ts|
  {
    if AtStop(ts) || ts == [] {
      used, args', rs' := [], [], [];
      assert args + args' == args && rs + rs' == rs;
    } else {
      ArgsStep(ts, args, rs);
      var w, p := ts[0].sp, ParseRedirs(ts[1..]);
      var u1 := RedirsSound(ts[1..]);
      var u2, args1, rs1 := ArgsSound(p.rest, args + [w], rs + p.rs, r);
      used, args', rs' := [Word(w)] + (u1 + u2), [w] + args1, p.rs + rs1;
      PairsThenSimple(u1, p.rs, u2, args1, rs1);
      WordThenSimple(w, u1 + u2, args1, p.rs + rs1);
      Regroup(Word(w), u1, u2, r.rest, ts);
      SpanGroup(args, w, args1);
      assert rs + p.rs + rs1 == rs + (p.rs + rs1);
    }
  }

  lemma Regroup(t: Tok, a: seq<Tok>, b: seq<Tok>, rest: seq<Tok>, ts: seq<Tok>)
    requires ts != [] && ts[0] == t && ts[1..] == a + (b + rest)
    ensures ts == [t] + (a + b) + rest
  {
    assert ts == [ts[0]] + ts[1..];
  }

  lemma SpanGroup(args: seq<Span>, w: Span, more: seq<Span>)
    ensures args + [w] + more == args + ([w] + more)
  {
  }

  /** Behind the redirections `before`, the tokens up to `rest` are a simple command that makes `c`. */
  ghost predicate Reads(ts: seq<Tok>, rest: seq<Tok>, before: seq<Redirection>, c: Cmd) {
    exists used, args, rs :: ReadsAs(ts, rest, before, c, used, args, rs)
  }

  ghost predicate ReadsAs(ts: seq<Tok>, rest: seq<Tok>, before: seq<Redirection>, c: Cmd, used: seq<Tok>,
                          args: seq<Span>, rs: seq<Redirection>) {
    ts == used + rest && |args| < MAXARGS && Simple(used, args, rs) && Layered(c, Exec(args), before + rs)
  }

  lemma ArgsRead(ts: seq<Tok>, before: seq<Redirection>, r: Parsed)
    requires r == ParseArgs(ts, [], before) && r.Ok?
    ensures Reads(ts, r.rest, before, r.cmd)
  {
    var used, args, rs := ArgsSound(ts, [], before, r);
    assert [] + args == args;
    WrapLayers(r.cmd, Exec(args), before + rs);
    assert ReadsAs(ts, r.rest, before, r.cmd, used, args, rs);
  }

  lemma ExecStep(ts: seq<Tok>)
    requires !Is(ts, '(')
    ensures ParseExec(ts) ==
              if ParseRedirs(ts).NoFile? then Fail else ParseArgs(ParseRedirs(ts).rest, [], ParseRedirs(ts).rs)
  {
  }

  lemma SimpleIs(ts: seq<Tok>, c: Cmd, args: seq<Span>, rs: seq<Redirection>)
    requires |args| < MAXARGS && Simple(ts, args, rs) && c == Wrap(Exec([] + args), rs)
    ensures IsCommand(ts, c)
  {
    assert [] + args == args;
    WrapLayers(c, Exec(args), rs);
    assert IsSimple(ts, c, args, rs);
  }

  lemma Grouped(u1: seq<Tok>, u2: seq<Tok>, rest: seq<Tok>)
    ensures u1 + (u2 + rest) == u1 + u2 + rest
  {
  }

  lemma SimpleSound(ts: seq<Tok>, r: Parsed) returns (used: seq<Tok>)
    requires r == ParseExec(ts) && r.Ok? && !Is(ts, '(')
    ensures ts == used + r.rest && IsCommand(used, r.cmd)
  {
    ExecStep(ts);
    var p := ParseRedirs(ts);
    var u1 := RedirsSound(ts);
    var u2, args, rs := ArgsSound(p.rest, [], p.rs, r);
    used := u1 + u2;
    PairsThenSimple(u1, p.rs, u2, args, rs);
    SimpleIs(used, r.cmd, args, p.rs + rs);
    Grouped(u1, u2, r.rest);
  }

  // Simple commands: all are accepted.

  lemma SimpleStart(ts: seq<Tok>, args: seq<Span>, rs: seq<Redirection>, rest: seq<Tok>)
    requires Simple(ts, args, rs) && Stops(rest)
    ensures AtRedir(ts + rest) <==> ts != [] && !ts[0].Word?
    ensures !Is(ts + rest, '(')
  {
    if ts == [] {
      assert ts + rest == rest;
    } else {
      assert (ts + rest)[0] == ts[0];
    }
  }

  /** The redirections a simple command begins with. */
  lemma {:induction false} LeadingPairs(ts: seq<Tok>, args: seq<Span>, rs: seq<Redirection>, rest: seq<Tok>)
    returns (rs1: seq<Redirection>, ts2: seq<Tok>, rs2: seq<Redirection>)
    requires Simple(ts, args, rs) && Stops(rest)
    ensures rs == rs1 + rs2 && |ts2| <= |ts| && ParseRedirs(ts + rest) == Redirs(rs1, ts2 + rest)
    ensures Simple(ts2, args, rs2) && (ts2 != [] ==> ts2[0].Word?)
    decreases |ts|
  {
    SimpleStart(ts, args, rs, rest);
    if ts == [] || ts[0].Word? {
      rs1, ts2, rs2 := [], ts, rs;
    } else {
      var more;
      more, ts2, rs2 := LeadingPairs(ts[2..], args, rs[1..], rest);
      rs1 := [rs[0]] + more;
      OneRedir(rs[0], ts[2..] + rest, more, ts2 + rest);
      TwoFirst(ts, rest);
      assert rs == [rs[0]] + rs[1..];
    }
  }

  lemma NoMoreArgs(pre: seq<Span>, before: seq<Redirection>, rest: seq<Tok>)
    requires Stops(rest)
    ensures ParseArgs(rest, pre, before) == Ok(Wrap(Exec(pre + []), before + []), rest)
  {
    assert pre + [] == pre && before + [] == before;
  }

  lemma TwoFirst(ts: seq<Tok>, rest: seq<Tok>)
    requires |ts| >= 2
    ensures ts + rest == [ts[0], ts[1]] + (ts[2..] + rest)
  {
  }

  lemma OneFirst(ts: seq<Tok>, rest: seq<Tok>)
    requires ts != []
    ensures (ts + rest)[0] == ts[0] && (ts + rest)[1..] == ts[1..] + rest
  {
  }

  lemma {:induction false} ArgsComplete(ts: seq<Tok>, args: seq<Span>, rs: seq<Redirection>, pre: seq<Span>,
                                        before: seq<Redirection>, rest: seq<Tok>)
    requires Simple(ts, args, rs) && Stops(rest) && (ts != [] ==> ts[0].Word?) && |pre| + |args| < MAXARGS
    ensures ParseArgs(ts + rest, pre, before) == Ok(Wrap(Exec(pre + args), before + rs), rest)
    decreases |ts|
  {
    if ts == [] {
      NoMoreArgs(pre, before, rest);
      assert ts + rest == rest;
    } else {
      var rs1, ts2, rs2 := LeadingPairs(ts[1..], args[1..], rs, rest);
      ArgsComplete(ts2, args[1..], rs2, pre + [args[0]], before + rs1, rest);
      OneFirst(ts, rest);
      ArgsStep(ts + rest, pre, before);
      SpanGroup(pre, args[0], args[1..]);
      assert args == [args[0]] + args[1..];
      assert before + rs1 + rs2 == before + (rs1 + rs2);
    }
  }

  lemma SimpleComplete(ts: seq<Tok>, c: Cmd, args: seq<Span>, rs: seq<Redirection>, rest: seq<Tok>)
    requires IsSimple(ts, c, args, rs) && Stops(rest)
    ensures ParseExec(ts + rest) == Ok(c, rest)
  {
    SimpleStart(ts, args, rs, rest);
    var rs1, ts2, rs2 := LeadingPairs(ts, args, rs, rest);
    ArgsComplete(ts2, args, rs2, [], rs1, rest);
    assert [] + args == args;
    WrapLayers(c, Exec(args), rs);
  }

  // Lines: what is accepted.

  lemma {:induction false} ExecSound(ts: seq<Tok>, r: Parsed) returns (used: seq<Tok>)
    requires r == ParseExec(ts) && r.Ok?
    ensures ts == used + r.rest && IsCommand(used, r.cmd)
    decreases |ts|, 1
  {
    if Is(ts, '(') {
      var p := ParseLine(ts[1..]);
      var u1 := LineSound(ts[1..], p);
      var q := ParseRedirs(p.rest[1..]);
      var u2 := RedirsSound(p.rest[1..]);
      used := BlockJoin(ts, u1, p.cmd, p.rest, u2, q.rs, q.rest);
    } else {
      used := SimpleSound(ts, r);
    }
  }

  lemma BlockJoin(ts: seq<Tok>, u1: seq<Tok>, d: Cmd, mid: seq<Tok>, u2: seq<Tok>, rs: seq<Redirection>, rest: seq<Tok>)
    returns (used: seq<Tok>)
    requires Is(ts, '(') && ts[1..] == u1 + mid && IsLine(u1, d)
    requires Is(mid, ')') && mid[1..] == u2 + rest && Pairs(u2, rs)
    ensures ts == used + rest && IsCommand(used, Wrap(d, rs))
  {
    used := [Sym('(')] + (u1 + ([Sym(')')] + u2));
    var k := |u1| + 1;
    assert ts == [ts[0]] + ts[1..] && mid == [mid[0]] + mid[1..];
    assert used + rest == [Sym('(')] + (u1 + ([Sym(')')] + (u2 + rest)));
    assert used[1 .. k] == u1 && used[k + 1 ..] == u2;
    WrapLayers(Wrap(d, rs), d, rs);
    assert IsBlock(used, Wrap(d, rs), k, d, rs);
  }

  lemma {:induction false} PipeSound(ts: seq<Tok>, r: Parsed) returns (used: seq<Tok>)
    requires r == ParsePipe(ts) && r.Ok?
    ensures ts == used + r.rest && IsPipeline(used, r.cmd)
    decreases |ts|, 2
  {
    var p := ParseExec(ts);
    used := ExecSound(ts, p);
    if Is(p.rest, '|') {
      var u2 := PipeSound(p.rest[1..], ParsePipe(p.rest[1..]));
      PipeJoin(used, p.cmd, u2, ParsePipe(p.rest[1..]).cmd);
      Joined(ts, used, p.rest, u2, r.rest);
      used := used + ([Sym('|')] + u2);
    }
  }

  lemma PipeJoin(u1: seq<Tok>, c: Cmd, u2: seq<Tok>, d: Cmd)
    requires IsCommand(u1, c) && IsPipeline(u2, d)
    ensures IsPipeline(u1 + ([Sym('|')] + u2), Pipe(c, d))
  {
    var ts := u1 + ([Sym('|')] + u2);
    assert ts[.. |u1|] == u1 && ts[|u1| + 1 ..] == u2;
    assert IsPipe(ts, Pipe(c, d), |u1|);
  }

  lemma ListJoin(u1: seq<Tok>, c: Cmd, u2: seq<Tok>, d: Cmd)
    requires IsBackground(u1, c) && IsLine(u2, d)
    ensures IsLine(u1 + ([Sym(';')] + u2), List(c, d))
  {
    var ts := u1 + ([Sym(';')] + u2);
    assert ts[.. |u1|] == u1 && ts[|u1| + 1 ..] == u2;
    assert IsList(ts, List(c, d), |u1|);
  }

  lemma Joined(ts: seq<Tok>, u1: seq<Tok>, mid: seq<Tok>, u2: seq<Tok>, rest: seq<Tok>)
    requires ts == u1 + mid && mid != [] && mid[1..] == u2 + rest
    ensures ts == u1 + ([mid[0]] + u2) + rest
  {
    assert mid == [mid[0]] + mid[1..];
  }

  lemma {:induction false} BacksSound(c: Cmd, pre: seq<Tok>, ts: seq<Tok>, r: Parsed) returns (used: seq<Tok>)
    requires IsBackground(pre, c) && r == ParseBacks(c, ts)
    ensures ts == used + r.rest && IsBackground(pre + used, r.cmd)
    decreases |ts|
  {
    if Is(ts, '&') {
      assert (pre + [Sym('&')])[.. |pre|] == pre;
      assert IsBackground(pre + [Sym('&')], Back(c));
      used := BacksSound(Back(c), pre + [Sym('&')], ts[1..], r);
      assert pre + [Sym('&')] + used == pre + ([Sym('&')] + used);
      used := [Sym('&')] + used;
      assert ts == [ts[0]] + ts[1..];
    } else {
      used := [];
      assert pre + [] == pre;
    }
  }

  lemma {:induction false} LineSound(ts: seq<Tok>, r: Parsed) returns (used: seq<Tok>)
    requires r == ParseLine(ts) && r.Ok?
    ensures ts == used + r.rest && IsLine(used, r.cmd)
    decreases |ts|, 3
  {
    var p := ParsePipe(ts);
    var u1 := PipeSound(ts, p);
    var b := ParseBacks(p.cmd, p.rest);
    var u2 := BacksSound(p.cmd, u1, p.rest, b);
    used := u1 + u2;
    Grouped(u1, u2, b.rest);
    LineStep(ts, p, b);
    if Is(b.rest, ';') {
      var q := ParseLine(b.rest[1..]);
      var u3 := LineSound(b.rest[1..], q);
      ListJoin(used, b.cmd, u3, q.cmd);
      Joined(ts, used, b.rest, u3, q.rest);
      used := used + ([Sym(';')] + u3);
    }
  }

  lemma LineStep(ts: seq<Tok>, p: Parsed, b: Parsed)
    requires p == ParsePipe(ts) && p.Ok? && b == ParseBacks(p.cmd, p.rest)
    ensures ParseLine(ts) ==
              if !Is(b.rest, ';') then b
              else
                var q := ParseLine(b.rest[1..]);
                if q.Fail? then Fail else Ok(List(b.cmd, q.cmd), q.rest)
  {
  }

  // Lines: all are accepted.

  lemma {:induction false} CommandComplete(ts: seq<Tok>, c: Cmd, rest: seq<Tok>)
    requires IsCommand(ts, c) && Stops(rest)
    ensures ParseExec(ts + rest) == Ok(c, rest)
    decreases |ts|, 1
  {
    if exists args, rs :: IsSimple(ts, c, args, rs) {
      var args, rs :| IsSimple(ts, c, args, rs);
      SimpleComplete(ts, c, args, rs, rest);
    } else {
      var k: nat, d, rs :| IsBlock(ts, c, k, d, rs);
      var x, y, z := ts[1 .. k], ts[k + 1 ..], ts[k + 1 ..] + rest;
      LineComplete(x, d, [Sym(')')] + z);
      RedirsComplete(y, rs, rest);
      BlockStep(x + ([Sym(')')] + z), d, z, rs, rest);
      BlockSplit(ts, k, rest);
      WrapLayers(c, d, rs);
    }
  }

  lemma BlockSplit(ts: seq<Tok>, k: nat, rest: seq<Tok>)
    requires 0 < k < |ts|
    ensures ts + rest == [ts[0]] + (ts[1 .. k] + ([ts[k]] + (ts[k + 1 ..] + rest)))
  {
    assert ts == [ts[0]] + ts[1 .. k] + [ts[k]] + ts[k + 1 ..];
  }

  lemma SplitAt(ts: seq<Tok>, k: nat, rest: seq<Tok>)
    requires k < |ts|
    ensures ts + rest == ts[.. k] + ([ts[k]] + (ts[k + 1 ..] + rest))
    ensures ([ts[k]] + (ts[k + 1 ..] + rest))[1..] == ts[k + 1 ..] + rest
  {
    assert ts == ts[.. k] + [ts[k]] + ts[k + 1 ..];
  }

  lemma {:induction false} PipeComplete(ts: seq<Tok>, c: Cmd, rest: seq<Tok>)
    requires IsPipeline(ts, c) && Stops(rest) && !Is(rest, '|')
    ensures ParsePipe(ts + rest) == Ok(c, rest)
    decreases |ts|, 3
  {
    if IsCommand(ts, c) {
      CommandComplete(ts, c, rest);
    } else {
      var k: nat :| IsPipe(ts, c, k);
      var rest' := [Sym('|')] + (ts[k + 1 ..] + rest);
      CommandComplete(ts[.. k], c.left, rest');
      PipeComplete(ts[k + 1 ..], c.right, rest);
      SplitAt(ts, k, rest);
    }
  }

  /** The pipeline in front of the '&'s. */
  lemma {:induction false} Foreground(ts: seq<Tok>, c: Cmd) returns (core: seq<Tok>, d: Cmd, k: nat)
    requires IsBackground(ts, c)
    ensures ts == core + Amps(k) && IsPipeline(core, d) && c == Backs(d, k)
    decreases |ts|
  {
    if IsPipeline(ts, c) {
      core, d, k := ts, c, 0;
      assert ts + Amps(0) == ts;
    } else {
      var n := |ts| - 1;
      core, d, k := Foreground(ts[.. n], c.cmd);
      AmpsLast(k);
      BacksLast(d, k);
      assert ts == ts[.. n] + [Sym('&')];
      assert core + Amps(k) + [Sym('&')] == core + (Amps(k) + [Sym('&')]);
      k := k + 1;
    }
  }

  lemma {:induction false} AmpsLast(k: nat)
    ensures Amps(k + 1) == Amps(k) + [Sym('&')]
  {
    if k > 0 {
      AmpsLast(k - 1);
      assert [Sym('&')] + (Amps(k - 1) + [Sym('&')]) == Amps(k) + [Sym('&')];
    }
  }

  lemma {:induction false} BacksLast(c: Cmd, k: nat)
    ensures Backs(c, k + 1) == Back(Backs(c, k))
    decreases k
  {
    if k > 0 { BacksLast(Back(c), k - 1); }
  }

  lemma BackgroundComplete(ts: seq<Tok>, c: Cmd, rest: seq<Tok>)
    requires IsBackground(ts, c) && (rest == [] || Is(rest, ')') || Is(rest, ';'))
    ensures var p := ParsePipe(ts + rest); p.Ok? && ParseBacks(p.cmd, p.rest) == Ok(c, rest)
    decreases |ts|, 4
  {
    var core, d, k := Foreground(ts, c);
    AmpsStop(k, rest);
    assert core + (Amps(k) + rest) == ts + rest;
    assert |core| <= |ts|;
    PipeComplete(core, d, Amps(k) + rest);
    AmpsBack(d, k, rest);
  }

  lemma {:induction false} LineComplete(ts: seq<Tok>, c: Cmd, rest: seq<Tok>)
    requires IsLine(ts, c) && (rest == [] || Is(rest, ')'))
    ensures ParseLine(ts + rest) == Ok(c, rest)
    decreases |ts|, 6
  {
    if IsBackground(ts, c) {
      BackgroundComplete(ts, c, rest);
    } else {
      var k: nat :| IsList(ts, c, k);
      var rest' := [Sym(';')] + (ts[k + 1 ..] + rest);
      BackgroundComplete(ts[.. k], c.left, rest');
      LineComplete(ts[k + 1 ..], c.right, rest);
      SplitAt(ts, k, rest);
    }
  }

  /** The parser accepts exactly the lines of the grammar, and builds the command each stands for. */
  lemma ParserIsGrammar(ts: seq<Tok>, c: Cmd)
    ensures ParseCmd(ts) == Ok(c, []) <==> IsLine(ts, c)
  {
    if ParseCmd(ts) == Ok(c, []) {
      var used := LineSound(ts, ParseLine(ts));
      assert used + [] == used;
    }
    if IsLine(ts, c) {
      LineComplete(ts, c, []);
      assert ts + [] == ts;
    }
  }

  /** So no line stands for two commands. */
  lemma Unambiguous(ts: seq<Tok>, c: Cmd, c': Cmd)
    requires IsLine(ts, c) && IsLine(ts, c')
    ensures c == c'
  {
    ParserIsGrammar(ts, c);
    ParserIsGrammar(ts, c');
  }

  // Order.

  predicate Rising(ks: seq<nat>) {
    forall i, j :: 0 <= i < j < |ks| ==> ks[i] < ks[j]
  }

  /** Word `j` is the token at `ks[j]`. */
  predicate WordsAt(ts: seq<Tok>, args: seq<Span>, ks: seq<nat>) {
    && |ks| == |args| && Rising(ks)
    && forall j {:trigger ks[j]} :: 0 <= j < |ks| ==> ks[j] < |ts| && ts[ks[j]] == Word(args[j])
  }

  /** Redirection `j` is the operator at `ks[j]` and the word behind it. */
  predicate RedirsAt(ts: seq<Tok>, rs: seq<Redirection>, ks: seq<nat>) {
    && |ks| == |rs| && Rising(ks)
    && forall j {:trigger ks[j]} :: 0 <= j < |ks| ==>
         ks[j] + 1 < |ts| && ts[ks[j]] == Sym(rs[j].op) && ts[ks[j] + 1] == Word(rs[j].file)
  }

  /** No argument is the word behind an operator. */
  predicate NotBehind(ka: seq<nat>, kr: seq<nat>) {
    forall i, j {:trigger ka[i], kr[j]} :: 0 <= i < |ka| && 0 <= j < |kr| ==> ka[i] != kr[j] + 1
  }

  function Shift(ks: seq<nat>, d: nat): (r: seq<nat>)
    ensures |r| == |ks| && forall j {:trigger r[j]} :: 0 <= j < |ks| ==> r[j] == ks[j] + d
  {
    seq(|ks|, j requires 0 <= j < |ks| => ks[j] + d)
  }

  lemma WordsShift(ts: seq<Tok>, d: nat, args: seq<Span>, ks: seq<nat>)
    requires d <= |ts| && WordsAt(ts[d ..], args, ks)
    ensures WordsAt(ts, args, Shift(ks, d))
  {
  }

  lemma RedirsShift(ts: seq<Tok>, d: nat, rs: seq<Redirection>, ks: seq<nat>)
    requires d <= |ts| && RedirsAt(ts[d ..], rs, ks)
    ensures RedirsAt(ts, rs, Shift(ks, d))
  {
    forall j | 0 <= j < |ks|
      ensures var k := Shift(ks, d)[j]; k + 1 < |ts| && ts[k] == Sym(rs[j].op) && ts[k + 1] == Word(rs[j].file)
    {
      assert ts[d ..][ks[j]] == ts[ks[j] + d] && ts[d ..][ks[j] + 1] == ts[ks[j] + d + 1];
    }
  }

  lemma WordsCons(ts: seq<Tok>, args: seq<Span>, ks: seq<nat>)
    requires ts != [] && args != [] && ts[0] == Word(args[0]) && WordsAt(ts, args[1..], Shift(ks, 1))
    ensures WordsAt(ts, args, [0] + Shift(ks, 1))
  {
    var ks' := [0] + Shift(ks, 1);
    forall j | 0 <= j < |ks'| ensures ks'[j] < |ts| && ts[ks'[j]] == Word(args[j]) {
      if j > 0 { assert ks'[j] == Shift(ks, 1)[j - 1] && args[j] == args[1..][j - 1]; }
    }
  }

  lemma RedirsCons(ts: seq<Tok>, rs: seq<Redirection>, ks: seq<nat>)
    requires |ts| >= 2 && rs != [] && ts[0] == Sym(rs[0].op) && ts[1] == Word(rs[0].file)
    requires RedirsAt(ts, rs[1..], Shift(ks, 2))
    ensures RedirsAt(ts, rs, [0] + Shift(ks, 2))
  {
    var ks' := [0] + Shift(ks, 2);
    forall j | 0 <= j < |ks'|
      ensures ks'[j] + 1 < |ts| && ts[ks'[j]] == Sym(rs[j].op) && ts[ks'[j] + 1] == Word(rs[j].file)
    {
      if j > 0 { assert ks'[j] == Shift(ks, 2)[j - 1] && rs[j] == rs[1..][j - 1]; }
    }
  }

  /** In a simple command the arguments and the redirections are found in the line in their order, no token
      is both, and there is no other. */
  lemma {:induction false} SimpleInOrder(ts: seq<Tok>, args: seq<Span>, rs: seq<Redirection>)
    returns (ka: seq<nat>, kr: seq<nat>)
    requires Simple(ts, args, rs)
    ensures WordsAt(ts, args, ka) && RedirsAt(ts, rs, kr) && NotBehind(ka, kr) && |ts| == |args| + 2 * |rs|
    decreases |ts|
  {
    if ts == [] {
      ka, kr := [], [];
    } else if ts[0].Word? {
      var ka1, kr1 := SimpleInOrder(ts[1..], args[1..], rs);
      WordsShift(ts, 1, args[1..], ka1);
      RedirsShift(ts, 1, rs, kr1);
      WordsCons(ts, args, ka1);
      ka, kr := [0] + Shift(ka1, 1), Shift(kr1, 1);
      forall i, j | 0 <= i < |ka| && 0 <= j < |kr| ensures ka[i] != kr[j] + 1 {
        if i > 0 { assert ka[i] == ka1[i - 1] + 1 && kr[j] == kr1[j] + 1; }
      }
    } else {
      var ka1, kr1 := SimpleInOrder(ts[2..], args, rs[1..]);
      WordsShift(ts, 2, args, ka1);
      RedirsShift(ts, 2, rs[1..], kr1);
      RedirsCons(ts, rs, kr1);
      ka, kr := Shift(ka1, 2), [0] + Shift(kr1, 2);
      forall i, j | 0 <= i < |ka| && 0 <= j < |kr| ensures ka[i] != kr[j] + 1 {
        if j > 0 { assert ka[i] == ka1[i] + 2 && kr[j] == kr1[j - 1] + 2; }
      }
    }
  }
}
