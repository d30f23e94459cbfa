/** The shell's grammar over tokens (cmd/sh.c:369-472), and that it reads back what is printed. */
module ShellGrammar {

  const MAXARGS: nat := 10

  /** A word's place in the line: its first character and the one behind its last. */
  datatype Span = Span(q: nat, eq: nat)

  /** Sym('+') is ">>". */
  datatype Tok = Word(sp: Span) | Sym(c: char)

  datatype Redirection = To(op: char, file: Span)

  datatype Cmd =
    | Exec(args: seq<Span>)
    | Redir(cmd: Cmd, r: Redirection)
    | Pipe(left: Cmd, right: Cmd)
    | List(left: Cmd, right: Cmd)
    | Back(cmd: Cmd)

  datatype Parsed = Ok(cmd: Cmd, rest: seq<Tok>) | Fail

  predicate Is(ts: seq<Tok>, c: char) { ts != [] && ts[0] == Sym(c) }

  predicate AtRedir(ts: seq<Tok>) { Is(ts, '<') || Is(ts, '>') || Is(ts, '+') }

  predicate AtStop(ts: seq<Tok>) { Is(ts, '|') || Is(ts, ')') || Is(ts, '&') || Is(ts, ';') }

  function Wrap(c: Cmd, rs: seq<Redirection>): Cmd
    decreases |rs|
  {
    if rs == [] then c else Redir(Wrap(c, rs[.. |rs| - 1]), rs[|rs| - 1])
  }

  /** The redirections that come next; a missing file name is an error. */
  datatype Redirs = Redirs(rs: seq<Redirection>, rest: seq<Tok>) | NoFile

  function ParseRedirs(ts: seq<Tok>): (r: Redirs)
    ensures r.Redirs? ==> |r.rest| <= |ts|
    decreases |ts|
  {
    if !AtRedir(ts) then Redirs([], ts)
    else if |ts| < 2 || !ts[1].Word? then NoFile
    else
      match ParseRedirs(ts[2..])
      case NoFile => NoFile
      case Redirs(rs, rest) => Redirs([To(ts[0].c, ts[1].sp)] + rs, rest)
  }

  /** `parseexec` behind the first redirections: `args` words and redirections `rs` so far. */
  function ParseArgs(ts: seq<Tok>, args: seq<Span>, rs: seq<Redirection>): (r: Parsed)
    ensures r.Ok? ==> |r.rest| <= |ts|
    decreases |ts|
  {
    if AtStop(ts) || ts == [] then Ok(Wrap(Exec(args), rs), ts)
    else if !ts[0].Word? then Fail
    else if |args| + 1 >= MAXARGS then Fail
    else
      match ParseRedirs(ts[1..])
      case NoFile => Fail
      case Redirs(more, rest) => ParseArgs(rest, args + [ts[0].sp], rs + more)
  }

  function ParseExec(ts: seq<Tok>): (r: Parsed)
    ensures r.Ok? ==> |r.rest| <= |ts|
    decreases |ts|, 1
  {
    if Is(ts, '(') then ParseBlock(ts)
    else
      match ParseRedirs(ts)
      case NoFile => Fail
      case Redirs(rs, rest) => ParseArgs(rest, [], rs)
  }

  function ParseBlock(ts: seq<Tok>): (r: Parsed)
    requires Is(ts, '(')
    ensures r.Ok? ==> |r.rest| <= |ts|
    decreases |ts|, 0
  {
    match ParseLine(ts[1..])
    case Fail => Fail
    case Ok(c, rest) =>
      if !Is(rest, ')') then Fail
      else
        match ParseRedirs(rest[1..])
        case NoFile => Fail
        case Redirs(rs, rest') => Ok(Wrap(c, rs), rest')
  }

  function ParsePipe(ts: seq<Tok>): (r: Parsed)
    ensures r.Ok? ==> |r.rest| <= |ts|
    decreases |ts|, 2
  {
    match ParseExec(ts)
    case Fail => Fail
    case Ok(c, rest) =>
      if !Is(rest, '|') then Ok(c, rest)
      else
        match ParsePipe(rest[1..])
        case Fail => Fail
        case Ok(c', rest') => Ok(Pipe(c, c'), rest')
  }

  /** The '&'s behind a pipeline. */
  function ParseBacks(c: Cmd, ts: seq<Tok>): (r: Parsed)
    ensures r.Ok? && |r.rest| <= |ts|
    decreases |ts|
  {
    if Is(ts, '&') then ParseBacks(Back(c), ts[1..]) else Ok(c, ts)
  }

  function ParseLine(ts: seq<Tok>): (r: Parsed)
    ensures r.Ok? ==> |r.rest| <= |ts|
    decreases |ts|, 3
  {
    match ParsePipe(ts)
    case Fail => Fail
    case Ok(c, rest) =>
      var b := ParseBacks(c, rest);
      if !Is(b.rest, ';') then b
      else
        match ParseLine(b.rest[1..])
        case Fail => Fail
        case Ok(c', rest') => Ok(List(b.cmd, c'), rest')
  }

  /** `parsecmd`: the whole line is one command. */
  function ParseCmd(ts: seq<Tok>): (r: Parsed) {
    var r := ParseLine(ts);
    if r.Ok? && r.rest == [] then r else Fail
  }
}
