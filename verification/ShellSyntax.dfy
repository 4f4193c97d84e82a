/**
 The shell's lexer and recursive-descent parser over a NUL-terminated line.
 Positions index the line; reading at its length stands for the final NUL.
 */
module ShellSyntax {
  const MAXARGS := 10

  // ---- characters ---------------------------------------------------------

  predicate IsSpace(c: char) {
    c == ' ' || c == '\t' || c == '\r' || c == '\n' || c == '\U{b}'
  }

  predicate IsSymbol(c: char) {
    c == '<' || c == '|' || c == '>' || c == '&' || c == ';' || c == '(' || c == ')'
  }

  predicate IsWordChar(c: char) {
    !IsSpace(c) && !IsSymbol(c)
  }

  /** The first position from p on that is not white space. */
  function Skip(buf: string, p: nat): (r: nat)
    requires p <= |buf|
    ensures p <= r <= |buf|
    ensures r < |buf| ==> !IsSpace(buf[r])
    ensures p < |buf| && !IsSpace(buf[p]) ==> r == p
    decreases |buf| - p
  {
    if p < |buf| && IsSpace(buf[p]) then Skip(buf, p + 1) else p
  }

  /** The end of the word at p. */
  function WordEnd(buf: string, p: nat): (r: nat)
    requires p <= |buf|
    ensures p <= r <= |buf|
    ensures forall i :: p <= i < r ==> IsWordChar(buf[i])
    ensures r < |buf| ==> !IsWordChar(buf[r])
    decreases |buf| - p
  {
    if p < |buf| && IsWordChar(buf[p]) then WordEnd(buf, p + 1) else p
  }

  // ---- tokens -------------------------------------------------------------

  datatype Kind = End | Symbol(c: char) | Append | Word

  /** A token: its kind, its text [q, eq), and where the next one starts. */
  datatype Token = Token(kind: Kind, q: nat, eq: nat, next: nat)

  function GetToken(buf: string, p: nat): (t: Token)
    requires p <= |buf|
    ensures p <= t.q <= t.eq <= t.next <= |buf|
    ensures t.kind != End ==> t.q < t.eq
    ensures t.kind == Word ==> IsWord(buf, t.q, t.eq)
  {
    var q := Skip(buf, p);
    if q == |buf| then Token(End, q, q, q)
    else if buf[q] == '>' then
      if q + 1 < |buf| && buf[q + 1] == '>' then Token(Append, q, q + 2, Skip(buf, q + 2))
      else Token(Symbol('>'), q, q + 1, Skip(buf, q + 1))
    else if IsSymbol(buf[q]) then Token(Symbol(buf[q]), q, q + 1, Skip(buf, q + 1))
    else
      var eq := WordEnd(buf, q);
      Token(Word, q, eq, Skip(buf, eq))
  }

  /** [q, eq) is a maximal stretch of word characters. */
  predicate IsWord(buf: string, q: nat, eq: nat) {
    && q < eq <= |buf|
    && (forall i :: q <= i < eq ==> IsWordChar(buf[i]))
    && (eq < |buf| ==> !IsWordChar(buf[eq]))
  }

  /** The next character after white space is one of toks. */
  predicate Sees(buf: string, p: nat, toks: string)
    requires p <= |buf|
  {
    var q := Skip(buf, p);
    q < |buf| && buf[q] in toks
  }

  // ---- commands -----------------------------------------------------------

  datatype Span = Span(q: nat, eq: nat)

  /** How a redirection opens its file: read on 0, or write and create on 1. */
  datatype Mode = Read | Write

  datatype Redirection = Redirection(file: Span, mode: Mode)

  datatype Cmd =
    | Exec(argv: seq<Span>)
    | Redir(cmd: Cmd, file: Span, mode: Mode)
    | Pipe(left: Cmd, right: Cmd)
    | List(left: Cmd, right: Cmd)
    | Back(cmd: Cmd)

  /** cmd with redirections put around it, the first one innermost. */
  function Wrap(cmd: Cmd, rds: seq<Redirection>): (r: Cmd) {
    if rds == [] then cmd
    else Redir(Wrap(cmd, rds[..|rds| - 1]), rds[|rds| - 1].file, rds[|rds| - 1].mode)
  }

  datatype Redirs = RedirsOk(rds: seq<Redirection>, pos: nat) | RedirsPanic
  datatype Parse = Parsed(cmd: Cmd, pos: nat) | Panic

  /** parseredirs: the redirections from p on, behind those in rds. */
  function ScanRedirs(buf: string, p: nat, rds: seq<Redirection>): (r: Redirs)
    requires p <= |buf|
    ensures r.RedirsOk? ==> p <= r.pos <= |buf|
    decreases |buf| - p
  {
    if !Sees(buf, p, "<>") then RedirsOk(rds, Skip(buf, p))
    else
      var t := GetToken(buf, p);
      var w := GetToken(buf, t.next);
      if w.kind != Word then RedirsPanic
      else ScanRedirs(buf, w.next, rds + [Redirection(Span(w.q, w.eq), if t.kind == Symbol('<') then Read else Write)])
  }

  /** parseexec's loop: words and redirections from p on. */
  function ParseArgs(buf: string, p: nat, argv: seq<Span>, rds: seq<Redirection>): (r: Parse)
    requires p <= |buf|
    ensures r.Parsed? ==> p <= r.pos <= |buf|
    decreases |buf| - p
  {
    if Sees(buf, p, "|)&;") then Parsed(Wrap(Exec(argv), rds), Skip(buf, p))
    else
      var t := GetToken(buf, p);
      if t.kind == End then Parsed(Wrap(Exec(argv), rds), t.next)
      else if t.kind != Word then Panic
      else if |argv| + 1 >= MAXARGS then Panic
      else
        match ScanRedirs(buf, t.next, rds)
        case RedirsPanic => Panic
        case RedirsOk(rds', p') => ParseArgs(buf, p', argv + [Span(t.q, t.eq)], rds')
  }

  function ParseExec(buf: string, p: nat): (r: Parse)
    requires p <= |buf|
    ensures r.Parsed? ==> p <= r.pos <= |buf|
    decreases |buf| - p, 1
  {
    if Sees(buf, p, "(") then ParseBlock(buf, p)
    else
      match ScanRedirs(buf, p, [])
      case RedirsPanic => Panic
      case RedirsOk(rds, p') => ParseArgs(buf, p', [], rds)
  }

  function ParseBlock(buf: string, p: nat): (r: Parse)
    requires p <= |buf| && Sees(buf, p, "(")
    ensures r.Parsed? ==> p <= r.pos <= |buf|
    decreases |buf| - p, 0
  {
    CloseBlock(buf, ParseLine(buf, GetToken(buf, p).next))
  }

  /** parseblock behind the line inside: the closing parenthesis and the block's redirections. */
  function CloseBlock(buf: string, inside: Parse): (r: Parse)
    requires inside.Parsed? ==> inside.pos <= |buf|
    ensures r.Parsed? ==> inside.Parsed? && inside.pos <= r.pos <= |buf|
  {
    match inside
    case Panic => Panic
    case Parsed(cmd, p1) =>
      if !Sees(buf, p1, ")") then Panic
      else
        match ScanRedirs(buf, GetToken(buf, p1).next, [])
        case RedirsPanic => Panic
        case RedirsOk(rds, p2) => Parsed(Wrap(cmd, rds), p2)
  }

  function ParsePipe(buf: string, p: nat): (r: Parse)
    requires p <= |buf|
    ensures r.Parsed? ==> p <= r.pos <= |buf|
    decreases |buf| - p, 2
  {
    match ParseExec(buf, p)
    case Panic => Panic
    case Parsed(cmd, p1) =>
      if !Sees(buf, p1, "|") then Parsed(cmd, Skip(buf, p1))
      else
        match ParsePipe(buf, GetToken(buf, p1).next)
        case Panic => Panic
        case Parsed(right, p2) => Parsed(Pipe(cmd, right), p2)
  }

  /** parseline's loop: cmd in the background once for every `&`. */
  function ParseBacks(buf: string, p: nat, cmd: Cmd): (r: (Cmd, nat))
    requires p <= |buf|
    ensures p <= r.1 <= |buf|
    decreases |buf| - p
  {
    if Sees(buf, p, "&") then ParseBacks(buf, GetToken(buf, p).next, Back(cmd)) else (cmd, Skip(buf, p))
  }

  function ParseLine(buf: string, p: nat): (r: Parse)
    requires p <= |buf|
    ensures r.Parsed? ==> p <= r.pos <= |buf|
    decreases |buf| - p, 3
  {
    match ParsePipe(buf, p)
    case Panic => Panic
    case Parsed(cmd, p1) =>
      var (cmd', p2) := ParseBacks(buf, p1, cmd);
      if !Sees(buf, p2, ";") then Parsed(cmd', Skip(buf, p2))
      else
        match ParseLine(buf, GetToken(buf, p2).next)
        case Panic => Panic
        case Parsed(right, p3) => Parsed(List(cmd', right), p3)
  }

  /** parsecmd: the whole line is one command. */
  function ParseCmd(buf: string): (r: Parse) {
    match ParseLine(buf, 0)
    case Panic => Panic
    case Parsed(cmd, p) => if Skip(buf, p) != |buf| then Panic else Parsed(cmd, |buf|)
  }
}
