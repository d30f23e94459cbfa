/** A command printed as tokens, with parentheses where the grammar needs them; parsing undoes the
    printing (cmd/sh.c:369-472). */
module ShellPrint {
  import opened ShellGrammar

  predicate IsOp(c: char) { c == '<' || c == '>' || c == '+' }

  /** Commands the parser can build: fewer than MAXARGS words, the three redirections. */
  predicate Proper(c: Cmd) {
    match c
    case Exec(args) => |args| < MAXARGS
    case Redir(d, r) => Proper(d) && IsOp(r.op)
    case Pipe(l, r) => Proper(l) && Proper(r)
    case List(l, r) => Proper(l) && Proper(r)
    case Back(d) => Proper(d)
  }

  /** A command without its outer redirections, and those, innermost first. */
  function Base(c: Cmd): (d: Cmd)
    ensures !d.Redir? && (c.Redir? ==> d < c) && (!c.Redir? ==> d == c)
  {
    match c
    case Redir(d, r) => Base(d)
    case _ => c
  }

  function Outer(c: Cmd): seq<Redirection> {
    match c
    case Redir(d, r) => Outer(d) + [r]
    case _ => []
  }

  lemma {:induction false} WrapBase(c: Cmd)
    ensures Wrap(Base(c), Outer(c)) == c
  {
    match c
    case Redir(d, r) =>
      WrapBase(d);
      assert Outer(c)[.. |Outer(c)| - 1] == Outer(d);
    case _ =>
  }

  predicate AllOps(rs: seq<Redirection>) { forall i {:trigger rs[i]} :: 0 <= i < |rs| ==> IsOp(rs[i].op) }

  lemma {:induction false} ProperParts(c: Cmd)
    requires Proper(c)
    ensures Proper(Base(c)) && AllOps(Outer(c))
  {
    match c
    case Redir(d, r) => ProperParts(d);
    case _ =>
  }

  function RedirToks(rs: seq<Redirection>): seq<Tok> {
    if rs == [] then [] else [Sym(rs[0].op), Word(rs[0].file)] + RedirToks(rs[1..])
  }

  function Words(args: seq<Span>): seq<Tok> {
    if args == [] then [] else [Word(args[0])] + Words(args[1..])
  }

  function PrintLine(c: Cmd): seq<Tok>
    decreases c, 3
  {
    match c
    case List(l, r) => PrintBacks(l) + [Sym(';')] + PrintLine(r)
    case _ => PrintBacks(c)
  }

  function PrintBacks(c: Cmd): seq<Tok>
    decreases c, if c.List? then 6 else 2
  {
    match c
    case Back(d) => PrintBacks(d) + [Sym('&')]
    case _ => PrintPipe(c)
  }

  function PrintPipe(c: Cmd): seq<Tok>
    decreases c, if c.List? || c.Back? then 5 else 1
  {
    match c
    case Pipe(l, r) => PrintExec(l) + [Sym('|')] + PrintPipe(r)
    case _ => PrintExec(c)
  }

  function PrintExec(c: Cmd): seq<Tok>
    decreases c, if c.List? || c.Back? || c.Pipe? then 4 else 0
  {
    if Base(c).Exec? then Words(Base(c).args) + RedirToks(Outer(c))
    else Block(PrintLine(Base(c)), RedirToks(Outer(c)))
  }

  function Block(inner: seq<Tok>, redirs: seq<Tok>): seq<Tok> {
    [Sym('(')] + inner + ([Sym(')')] + redirs)
  }

  // Reading back.

  predicate Stops(rest: seq<Tok>) { rest == [] || AtStop(rest) }

  lemma {:induction false} FirstRedir(rs: seq<Redirection>, rest: seq<Tok>)
    requires rs != []
    ensures RedirToks(rs) + rest == [Sym(rs[0].op), Word(rs[0].file)] + (RedirToks(rs[1..]) + rest)
  {
    var a, b := [Sym(rs[0].op), Word(rs[0].file)], RedirToks(rs[1..]);
    assert RedirToks(rs) == a + b;
    assert (a + b) + rest == a + (b + rest);
  }

  lemma {:induction false} OneRedir(r: Redirection, tail: seq<Tok>, more: seq<Redirection>, rest: seq<Tok>)
    requires IsOp(r.op) && ParseRedirs(tail) == Redirs(more, rest)
    ensures ParseRedirs([Sym(r.op), Word(r.file)] + tail) == Redirs([r] + more, rest)
  {
    var ts := [Sym(r.op), Word(r.file)] + tail;
    assert ts[2..] == tail;
  }

  lemma {:induction false} RedirsBack(rs: seq<Redirection>, rest: seq<Tok>)
    requires AllOps(rs) && !AtRedir(rest)
    ensures ParseRedirs(RedirToks(rs) + rest) == Redirs(rs, rest)
  {
    if rs == [] {
      assert RedirToks(rs) + rest == rest;
    } else {
      RedirsBack(rs[1..], rest);
      FirstRedir(rs, rest);
      OneRedir(rs[0], RedirToks(rs[1..]) + rest, rs[1..], rest);
      assert [rs[0]] + rs[1..] == rs;
    }
  }

  lemma ArgStep(a: Span, tail: seq<Tok>, pre: seq<Span>, more: seq<Redirection>, rest: seq<Tok>)
    requires |pre| + 1 < MAXARGS && ParseRedirs(tail) == Redirs(more, rest)
    ensures ParseArgs([Word(a)] + tail, pre, []) == ParseArgs(rest, pre + [a], more)
  {
    assert ([Word(a)] + tail)[1..] == tail;
    assert [] + more == more;
  }

  lemma LastArg(pre: seq<Span>, a: Span, rs: seq<Redirection>, end: seq<Tok>, rest: seq<Tok>)
    requires Stops(rest) && |pre| + 1 < MAXARGS && ParseRedirs(end) == Redirs(rs, rest)
    ensures ParseArgs([Word(a)] + end, pre, []) == Ok(Wrap(Exec(pre + [a]), rs), rest)
  {
    ArgStep(a, end, pre, rs, rest);
  }

  lemma {:induction false} OneWord(a: Span)
    ensures Words([a]) == [Word(a)]
  {
    assert [a][1..] == [];
  }

  lemma {:induction false} WordsFirst(args: seq<Span>, end: seq<Tok>)
    requires args != []
    ensures Words(args) + end == [Word(args[0])] + (Words(args[1..]) + end)
    ensures (Words(args) + end)[0] == Word(args[0])
  {
    var a, b := [Word(args[0])], Words(args[1..]);
    assert Words(args) == a + b;
    assert (a + b) + end == a + (b + end);
  }

  lemma {:induction false} MoreArgs(pre: seq<Span>, a: Span, more: seq<Span>, end: seq<Tok>, r: Parsed)
    requires more != [] && |pre| + 1 < MAXARGS && ParseArgs(Words(more) + end, pre + [a], []) == r
    ensures ParseArgs([Word(a)] + (Words(more) + end), pre, []) == r
  {
    var tail := Words(more) + end;
    WordsFirst(more, end);
    ArgStep(a, tail, pre, [], tail);
  }

  lemma {:induction false} ArgsBack(pre: seq<Span>, args: seq<Span>, rs: seq<Redirection>, end: seq<Tok>,
                                    rest: seq<Tok>)
    requires Stops(rest) && args != [] && |pre| + |args| < MAXARGS && ParseRedirs(end) == Redirs(rs, rest)
    ensures ParseArgs(Words(args) + end, pre, []) == Ok(Wrap(Exec(pre + args), rs), rest)
    decreases |args|
  {
    if |args| == 1 {
      assert args == [args[0]];
      OneWord(args[0]);
      LastArg(pre, args[0], rs, end, rest);
    } else {
      ArgsBack(pre + [args[0]], args[1..], rs, end, rest);
      MoreArgs(pre, args[0], args[1..], end, Ok(Wrap(Exec(pre + [args[0]] + args[1..]), rs), rest));
      WordsFirst(args, end);
      assert pre + [args[0]] + args[1..] == pre + args;
    }
  }

  lemma {:induction false} NoArgs(rs: seq<Redirection>, rest: seq<Tok>)
    requires AllOps(rs) && Stops(rest)
    ensures ParseExec(RedirToks(rs) + rest) == Ok(Wrap(Exec([]), rs), rest)
  {
    RedirsBack(rs, rest);
    if rs == [] {
      assert RedirToks(rs) + rest == rest;
    } else {
      FirstRedir(rs, rest);
    }
  }

  lemma {:induction false} SimpleBack(args: seq<Span>, rs: seq<Redirection>, rest: seq<Tok>)
    requires AllOps(rs) && Stops(rest) && |args| < MAXARGS
    ensures ParseExec(Words(args) + (RedirToks(rs) + rest)) == Ok(Wrap(Exec(args), rs), rest)
  {
    var end := RedirToks(rs) + rest;
    if args == [] {
      NoArgs(rs, rest);
      assert Words(args) + end == end;
    } else {
      RedirsBack(rs, rest);
      WordsFirst(args, end);
      ArgsBack([], args, rs, end, rest);
      assert [] + args == args;
    }
  }

  lemma {:induction false} LineBack(c: Cmd, rest: seq<Tok>)
    requires Proper(c) && (rest == [] || Is(rest, ')'))
    ensures ParseLine(PrintLine(c) + rest) == Ok(c, rest)
    decreases c, 3
  {
    match c
    case List(l, r) =>
      var rest' := [Sym(';')] + (PrintLine(r) + rest);
      assert PrintLine(c) + rest == PrintBacks(l) + rest';
      BacksBack(l, rest');
      assert rest'[1..] == PrintLine(r) + rest;
      LineBack(r, rest);
    case _ =>
      BacksBack(c, rest);
  }

  /** Up to the ';', what `parseline` has read. */
  lemma BacksBack(c: Cmd, rest: seq<Tok>)
    requires Proper(c) && (rest == [] || Is(rest, ')') || Is(rest, ';'))
    ensures var p := ParsePipe(PrintBacks(c) + rest); p.Ok? && ParseBacks(p.cmd, p.rest) == Ok(c, rest)
    decreases c, if c.List? then 6 else 2, 1
  {
    BacksBackMore(c, rest, 0);
    assert Amps(0) + rest == rest;
  }

  function Amps(k: nat): seq<Tok> { if k == 0 then [] else [Sym('&')] + Amps(k - 1) }

  function Backs(c: Cmd, k: nat): Cmd
    decreases k
  {
    if k == 0 then c else Backs(Back(c), k - 1)
  }

  lemma {:induction false} BacksBackMore(c: Cmd, rest: seq<Tok>, k: nat)
    requires Proper(c) && (rest == [] || Is(rest, ')') || Is(rest, ';'))
    ensures var p := ParsePipe(PrintBacks(c) + (Amps(k) + rest));
            p.Ok? && ParseBacks(p.cmd, p.rest) == Ok(Backs(c, k), rest)
    decreases c, if c.List? then 6 else 2, 0
  {
    if c.Back? {
      BacksBackMore(c.cmd, rest, k + 1);
      OneMore(PrintBacks(c.cmd), k, rest);
    } else {
      AmpsStop(k, rest);
      PipeBack(c, Amps(k) + rest);
      AmpsBack(c, k, rest);
    }
  }

  lemma OneMore(ts: seq<Tok>, k: nat, rest: seq<Tok>)
    ensures (ts + [Sym('&')]) + (Amps(k) + rest) == ts + (Amps(k + 1) + rest)
  {
    assert Amps(k + 1) == [Sym('&')] + Amps(k);
  }

  lemma AmpsStop(k: nat, rest: seq<Tok>)
    requires rest == [] || Is(rest, ')') || Is(rest, ';')
    ensures Stops(Amps(k) + rest) && !Is(Amps(k) + rest, '|')
  {
    if k == 0 {
      assert Amps(k) + rest == rest;
    } else {
      assert (Amps(k) + rest)[0] == Sym('&');
    }
  }

  lemma {:induction false} AmpsBack(c: Cmd, k: nat, rest: seq<Tok>)
    requires !Is(rest, '&')
    ensures ParseBacks(c, Amps(k) + rest) == Ok(Backs(c, k), rest)
    decreases k
  {
    if k == 0 {
      assert Amps(k) + rest == rest;
    } else {
      assert Amps(k) + rest == [Sym('&')] + (Amps(k - 1) + rest);
      assert (Amps(k) + rest)[1..] == Amps(k - 1) + rest;
      AmpsBack(Back(c), k - 1, rest);
    }
  }

  lemma {:induction false} PipeBack(c: Cmd, rest: seq<Tok>)
    requires Proper(c) && Stops(rest) && !Is(rest, '|')
    ensures ParsePipe(PrintPipe(c) + rest) == Ok(c, rest)
    decreases c, if c.List? || c.Back? then 5 else 1
  {
    match c
    case Pipe(l, r) =>
      var rest' := [Sym('|')] + (PrintPipe(r) + rest);
      assert PrintPipe(c) + rest == PrintExec(l) + rest';
      ExecBack(l, rest');
      assert rest'[1..] == PrintPipe(r) + rest;
      PipeBack(r, rest);
    case _ =>
      ExecBack(c, rest);
  }

  lemma {:induction false} ExecBack(c: Cmd, rest: seq<Tok>)
    requires Proper(c) && Stops(rest)
    ensures ParseExec(PrintExec(c) + rest) == Ok(c, rest)
    decreases c, if c.List? || c.Back? || c.Pipe? then 4 else 0
  {
    WrapBase(c);
    ProperParts(c);
    if Base(c).Exec? {
      SimpleBack(Base(c).args, Outer(c), rest);
      assert PrintExec(c) + rest == Words(Base(c).args) + (RedirToks(Outer(c)) + rest);
    } else {
      LineBack(Base(c), [Sym(')')] + (RedirToks(Outer(c)) + rest));
      BlockBack(Base(c), Outer(c), rest);
    }
  }

  lemma BlockStep(x: seq<Tok>, d: Cmd, y: seq<Tok>, rs: seq<Redirection>, rest: seq<Tok>)
    requires ParseLine(x) == Ok(d, [Sym(')')] + y) && ParseRedirs(y) == Redirs(rs, rest)
    ensures ParseExec([Sym('(')] + x) == Ok(Wrap(d, rs), rest)
  {
    assert ([Sym('(')] + x)[1..] == x && ([Sym(')')] + y)[1..] == y;
  }

  lemma BlockBack(d: Cmd, rs: seq<Redirection>, rest: seq<Tok>)
    requires AllOps(rs) && Stops(rest)
    requires ParseLine(PrintLine(d) + ([Sym(')')] + (RedirToks(rs) + rest))) ==
               Ok(d, [Sym(')')] + (RedirToks(rs) + rest))
    ensures ParseExec(Block(PrintLine(d), RedirToks(rs)) + rest) == Ok(Wrap(d, rs), rest)
  {
    var y := RedirToks(rs) + rest;
    var x := PrintLine(d) + ([Sym(')')] + y);
    assert Block(PrintLine(d), RedirToks(rs)) + rest == [Sym('(')] + x;
    RedirsBack(rs, rest);
    BlockStep(x, d, y, rs, rest);
  }

  /** Printing a command and parsing the tokens gives the command. */
  lemma PrintedParses(c: Cmd)
    requires Proper(c)
    ensures ParseCmd(PrintLine(c)) == Ok(c, [])
  {
    LineBack(c, []);
    assert PrintLine(c) + [] == PrintLine(c);
  }
}
