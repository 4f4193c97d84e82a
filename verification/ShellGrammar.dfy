/**
 The grammar of shell lines over tokens, and that the parser is exactly it: a text
 parses to a tree just when its tokens are those of a line of the grammar with
 that tree.
 */
module ShellGrammar {
  import opened ShellSyntax

  // ---- commands as text ---------------------------------------------------

  /** A command with its words as text. */
  datatype Tree =
    | TExec(argv: seq<string>)
    | TRedir(cmd: Tree, file: string, mode: Mode)
    | TPipe(left: Tree, right: Tree)
    | TList(left: Tree, right: Tree)
    | TBack(cmd: Tree)

  /** The text of a span. */
  function TextOf(buf: string, w: Span): (s: string) {
    if w.q <= w.eq <= |buf| then buf[w.q..w.eq] else []
  }

  /** A parsed command read back as text. */
  function TreeOf(buf: string, c: Cmd): (t: Tree) {
    match c
    case Exec(argv) => TExec(seq(|argv|, i requires 0 <= i < |argv| => TextOf(buf, argv[i])))
    case Redir(c, file, mode) => TRedir(TreeOf(buf, c), TextOf(buf, file), mode)
    case Pipe(l, r) => TPipe(TreeOf(buf, l), TreeOf(buf, r))
    case List(l, r) => TList(TreeOf(buf, l), TreeOf(buf, r))
    case Back(c) => TBack(TreeOf(buf, c))
  }

  // ---- tokens as values ---------------------------------------------------

  datatype Piece = PWord(text: string) | PSym(kind: Kind)

  function PieceOf(buf: string, t: Token): (x: Piece) {
    if t.kind == Word then PWord(TextOf(buf, Span(t.q, t.eq))) else PSym(t.kind)
  }

  /** The tokens of the text from p on. */
  function Pieces(buf: string, p: nat): (ps: seq<Piece>)
    requires p <= |buf|
    decreases |buf| - p
  {
    var t := GetToken(buf, p);
    if t.kind == End then [] else [PieceOf(buf, t)] + Pieces(buf, t.next)
  }

  /** The first token is a symbol whose text starts with one of toks. */
  predicate Starts(ps: seq<Piece>, toks: string) {
    && ps != [] && ps[0].PSym?
    && if ps[0].kind == Append then '>' in toks else ps[0].kind.Symbol? && ps[0].kind.c in toks
  }

  /** The tokens are at an end, or at one of toks. */
  predicate Stops(ps: seq<Piece>, toks: string) {
    ps == [] || Starts(ps, toks)
  }

  // ---- lines of the grammar -----------------------------------------------

  datatype Sign = Input | Output | Appending

  datatype File = File(sign: Sign, name: string)

  /** A word with the redirections behind it. */
  datatype Arg = Arg(word: string, files: seq<File>)

  /** Words and redirections in any order, or a block with redirections behind it. */
  datatype Element = Simple(first: seq<File>, args: seq<Arg>) | Block(inside: Line, files: seq<File>)

  datatype Pipeline = One(elem: Element) | Piped(elem: Element, more: Pipeline)

  /** Pipelines, each with a number of `&` behind it, separated by `;`. */
  datatype Line = Last(pipes: Pipeline, backs: nat) | Then(pipes: Pipeline, backs: nat, more: Line)

  /** No simple command has more words than fit. */
  predicate Short(l: Line) {
    ShortPipes(l.pipes) && (l.Then? ==> Short(l.more))
  }

  predicate ShortPipes(l: Pipeline) {
    ShortElement(l.elem) && (l.Piped? ==> ShortPipes(l.more))
  }

  predicate ShortElement(e: Element) {
    if e.Simple? then |e.args| < MAXARGS else Short(e.inside)
  }

  // ---- their tokens -------------------------------------------------------

  function SignKind(s: Sign): (k: Kind) {
    match s
    case Input => Symbol('<')
    case Output => Symbol('>')
    case Appending => Append
  }

  function FilePieces(fs: seq<File>): (ps: seq<Piece>) {
    if fs == [] then [] else [PSym(SignKind(fs[0].sign)), PWord(fs[0].name)] + FilePieces(fs[1..])
  }

  function ArgPieces(args: seq<Arg>): (ps: seq<Piece>) {
    if args == [] then [] else [PWord(args[0].word)] + (FilePieces(args[0].files) + ArgPieces(args[1..]))
  }

  function BackPieces(n: nat): (ps: seq<Piece>) {
    if n == 0 then [] else [PSym(Symbol('&'))] + BackPieces(n - 1)
  }

  function ElementPieces(e: Element): (ps: seq<Piece>) {
    match e
    case Simple(first, args) => FilePieces(first) + ArgPieces(args)
    case Block(inside, files) => [PSym(Symbol('('))] + (LinePieces(inside) + ([PSym(Symbol(')'))] + FilePieces(files)))
  }

  function PipePieces(l: Pipeline): (ps: seq<Piece>) {
    match l
    case One(e) => ElementPieces(e)
    case Piped(e, more) => ElementPieces(e) + ([PSym(Symbol('|'))] + PipePieces(more))
  }

  function LinePieces(l: Line): (ps: seq<Piece>) {
    match l
    case Last(pipes, backs) => PipePieces(pipes) + BackPieces(backs)
    case Then(pipes, backs, more) =>
      PipePieces(pipes) + (BackPieces(backs) + ([PSym(Symbol(';'))] + LinePieces(more)))
  }

  // ---- their trees --------------------------------------------------------

  function ModeOf(s: Sign): (m: Mode) {
    if s == Input then Read else Write
  }

  /** Redirections put around t, the first one innermost. */
  function Redirected(t: Tree, fs: seq<File>): (r: Tree)
    decreases |fs|
  {
    if fs == [] then t else Redirected(TRedir(t, fs[0].name, ModeOf(fs[0].sign)), fs[1..])
  }

  function Words(args: seq<Arg>): (ws: seq<string>) {
    if args == [] then [] else [args[0].word] + Words(args[1..])
  }

  function Files(args: seq<Arg>): (fs: seq<File>) {
    if args == [] then [] else args[0].files + Files(args[1..])
  }

  function Backed(t: Tree, n: nat): (r: Tree)
    decreases n
  {
    if n == 0 then t else Backed(TBack(t), n - 1)
  }

  function ElementTree(e: Element): (t: Tree) {
    match e
    case Simple(first, args) => Redirected(TExec(Words(args)), first + Files(args))
    case Block(inside, files) => Redirected(LineTree(inside), files)
  }

  function PipeTree(l: Pipeline): (t: Tree) {
    match l
    case One(e) => ElementTree(e)
    case Piped(e, more) => TPipe(ElementTree(e), PipeTree(more))
  }

  function LineTree(l: Line): (t: Tree) {
    match l
    case Last(pipes, backs) => Backed(PipeTree(pipes), backs)
    case Then(pipes, backs, more) => TList(Backed(PipeTree(pipes), backs), LineTree(more))
  }

  // ---- the parse table of a text ------------------------------------------

  /** The tokens from every position of a text, and what the parser's procedures return from there. */
  datatype Table = Table(toks: seq<seq<Piece>>, line: seq<Parse>, pipe: seq<Parse>, exec: seq<Parse>)

  ghost predicate IsTable(buf: string, tb: Table) {
    && |tb.toks| == |buf| + 1 && |tb.line| == |buf| + 1 && |tb.pipe| == |buf| + 1 && |tb.exec| == |buf| + 1
    && (forall p {:trigger Pieces(buf, p)} :: 0 <= p <= |buf| ==> tb.toks[p] == Pieces(buf, p))
    && (forall p {:trigger ParseLine(buf, p)} :: 0 <= p <= |buf| ==> tb.line[p] == ParseLine(buf, p))
    && (forall p {:trigger ParsePipe(buf, p)} :: 0 <= p <= |buf| ==> tb.pipe[p] == ParsePipe(buf, p))
    && (forall p {:trigger ParseExec(buf, p)} :: 0 <= p <= |buf| ==> tb.exec[p] == ParseExec(buf, p))
  }

  ghost function TableOf(buf: string): (tb: Table)
    ensures IsTable(buf, tb)
  {
    var n := |buf| + 1;
    Table(
      seq(n, p requires 0 <= p < n => Pieces(buf, p)),
      seq(n, p requires 0 <= p < n => ParseLine(buf, p)),
      seq(n, p requires 0 <= p < n => ParsePipe(buf, p)),
      seq(n, p requires 0 <= p < n => ParseExec(buf, p)))
  }

  // ---- the lexer ----------------------------------------------------------

  /** Leading white space holds no tokens. */
  lemma PiecesSkip(buf: string, p: nat)
    requires p <= |buf|
    ensures Pieces(buf, Skip(buf, p)) == Pieces(buf, p)
  {
    assert Skip(buf, Skip(buf, p)) == Skip(buf, p);
    assert GetToken(buf, Skip(buf, p)) == GetToken(buf, p);
  }

  lemma SkipKeeps(buf: string, tb: Table, p: nat)
    requires IsTable(buf, tb) && p <= |buf|
    ensures tb.toks[Skip(buf, p)] == tb.toks[p]
  {
    PiecesSkip(buf, p);
  }

  predicate Peeked(toks: string) {
    toks == "<>" || toks == "|)&;" || toks == "(" || toks == ")" || toks == "|" || toks == "&" || toks == ";"
  }

  /** peek looks at the next token's first character. */
  lemma SeesStarts(buf: string, tb: Table, p: nat, toks: string)
    requires IsTable(buf, tb) && p <= |buf| && Peeked(toks)
    ensures Sees(buf, p, toks) <==> Starts(tb.toks[p], toks)
  {
    assert tb.toks[p] == Pieces(buf, p);
    assert forall c :: c in toks ==> IsSymbol(c);
  }

  /** The token at p, and the tokens behind it. */
  lemma NextPiece(buf: string, tb: Table, p: nat, x: Piece, rest: seq<Piece>) returns (t: Token)
    requires IsTable(buf, tb) && p <= |buf| && tb.toks[p] == [x] + rest
    ensures t == GetToken(buf, p) && t.kind != End && PieceOf(buf, t) == x
    ensures p < t.next <= |buf| && tb.toks[t.next] == rest
  {
    t := GetToken(buf, p);
    assert tb.toks[p] == Pieces(buf, p) && tb.toks[t.next] == Pieces(buf, t.next);
    assert ([x] + rest)[0] == x && ([x] + rest)[1..] == rest;
  }

  lemma TokenFound(buf: string, tb: Table, p: nat, t: Token)
    requires IsTable(buf, tb) && p <= |buf| && t == GetToken(buf, p)
    ensures tb.toks[p] == if t.kind == End then [] else [PieceOf(buf, t)] + tb.toks[t.next]
  {
    assert tb.toks[p] == Pieces(buf, p) && tb.toks[t.next] == Pieces(buf, t.next);
  }

  lemma NoPiece(buf: string, tb: Table, p: nat)
    requires IsTable(buf, tb) && p <= |buf| && tb.toks[p] == []
    ensures GetToken(buf, p).kind == End && Skip(buf, p) == |buf|
  {
    assert tb.toks[p] == Pieces(buf, p);
  }

  // ---- redirections -------------------------------------------------------

  /** The redirections read are these. */
  ghost predicate AreFiles(buf: string, rds: seq<Redirection>, fs: seq<File>) {
    |rds| == |fs| && forall i :: 0 <= i < |fs| ==> IsFile(buf, rds[i], fs[i])
  }

  predicate IsFile(buf: string, rd: Redirection, f: File) {
    TextOf(buf, rd.file) == f.name && rd.mode == ModeOf(f.sign)
  }

  lemma {:induction false} RedirectedLast(t: Tree, fs: seq<File>)
    requires fs != []
    ensures var n := |fs| - 1; Redirected(t, fs) == TRedir(Redirected(t, fs[..n]), fs[n].name, ModeOf(fs[n].sign))
    decreases |fs|
  {
    var n := |fs| - 1;
    if n > 0 {
      var inner := TRedir(t, fs[0].name, ModeOf(fs[0].sign));
      RedirectedLast(inner, fs[1..]);
      assert fs[1..][..n - 1] == fs[..n][1..];
    }
  }

  /** Wrapping is what the grammar says of redirections. */
  lemma {:induction false} WrapTree(buf: string, c: Cmd, rds: seq<Redirection>, fs: seq<File>)
    requires AreFiles(buf, rds, fs)
    ensures TreeOf(buf, Wrap(c, rds)) == Redirected(TreeOf(buf, c), fs)
    decreases |fs|
  {
    if fs != [] {
      var n := |fs| - 1;
      WrapTree(buf, c, rds[..n], fs[..n]);
      assert IsFile(buf, rds[n], fs[n]);
      RedirectedLast(TreeOf(buf, c), fs);
    }
  }

  /** One redirection read. */
  lemma OneFileRead(buf: string, tb: Table, p: nat, rds: seq<Redirection>, f: File, rest: seq<Piece>)
    returns (rd: Redirection, next: nat)
    requires IsTable(buf, tb) && p <= |buf| && tb.toks[p] == [PSym(SignKind(f.sign)), PWord(f.name)] + rest
    ensures IsFile(buf, rd, f) && p < next <= |buf| && tb.toks[next] == rest
    ensures ScanRedirs(buf, p, rds) == ScanRedirs(buf, next, rds + [rd])
  {
    var ps := [PWord(f.name)] + rest;
    assert tb.toks[p] == [PSym(SignKind(f.sign))] + ps;
    var t := NextPiece(buf, tb, p, PSym(SignKind(f.sign)), ps);
    var w := NextPiece(buf, tb, t.next, PWord(f.name), rest);
    SeesStarts(buf, tb, p, "<>");
    rd := Redirection(Span(w.q, w.eq), ModeOf(f.sign));
    next := w.next;
  }

  lemma MoreFiles(buf: string, rds: seq<Redirection>, fs: seq<File>, rd: Redirection, f: File)
    requires AreFiles(buf, rds, fs) && IsFile(buf, rd, f)
    ensures AreFiles(buf, rds + [rd], fs + [f])
  {
  }

  lemma Associates<T>(a: seq<T>, b: seq<T>, c: seq<T>)
    ensures (a + b) + c == a + (b + c)
  {
  }

  lemma Regroup<T>(a: seq<T>, b: seq<T>)
    requires b != []
    ensures (a + [b[0]]) + b[1..] == a + b
  {
  }

  lemma NoFileRead(buf: string, tb: Table, p: nat, rds: seq<Redirection>)
    requires IsTable(buf, tb) && p <= |buf| && !Starts(tb.toks[p], "<>")
    ensures ScanRedirs(buf, p, rds) == RedirsOk(rds, Skip(buf, p)) && tb.toks[Skip(buf, p)] == tb.toks[p]
  {
    SeesStarts(buf, tb, p, "<>");
    SkipKeeps(buf, tb, p);
  }

  lemma FilePiecesMore(fs: seq<File>, rest: seq<Piece>)
    requires fs != []
    ensures FilePieces(fs) + rest == [PSym(SignKind(fs[0].sign)), PWord(fs[0].name)] + (FilePieces(fs[1..]) + rest)
  {
  }

  /** parseredirs reads redirections up to something else. */
  lemma {:induction false} FilesParse(buf: string, tb: Table, p: nat, rds: seq<Redirection>, done: seq<File>,
                                      fs: seq<File>, rest: seq<Piece>)
    returns (rds': seq<Redirection>, q: nat)
    requires IsTable(buf, tb) && p <= |buf| && tb.toks[p] == FilePieces(fs) + rest
    requires !Starts(rest, "<>") && AreFiles(buf, rds, done)
    ensures ScanRedirs(buf, p, rds) == RedirsOk(rds', q) && q <= |buf| && tb.toks[q] == rest
    ensures AreFiles(buf, rds', done + fs)
    decreases |fs|
  {
    if fs == [] {
      assert done + fs == done && [] + rest == rest;
      NoFileRead(buf, tb, p, rds);
      rds', q := rds, Skip(buf, p);
    } else {
      FilePiecesMore(fs, rest);
      var rd, next := OneFileRead(buf, tb, p, rds, fs[0], FilePieces(fs[1..]) + rest);
      MoreFiles(buf, rds, done, rd, fs[0]);
      Regroup(done, fs);
      rds', q := FilesParse(buf, tb, next, rds + [rd], done + [fs[0]], fs[1..], rest);
    }
  }

  lemma FilesRead(buf: string, tb: Table, p: nat, fs: seq<File>, rest: seq<Piece>)
    returns (rds: seq<Redirection>, q: nat)
    requires IsTable(buf, tb) && p <= |buf| && tb.toks[p] == FilePieces(fs) + rest && !Starts(rest, "<>")
    ensures ScanRedirs(buf, p, []) == RedirsOk(rds, q) && q <= |buf| && tb.toks[q] == rest && AreFiles(buf, rds, fs)
  {
    assert [] + fs == fs;
    rds, q := FilesParse(buf, tb, p, [], [], fs, rest);
  }

  // ---- simple commands ----------------------------------------------------

  ghost predicate AreWords(buf: string, argv: seq<Span>, words: seq<string>) {
    |argv| == |words| && forall i :: 0 <= i < |words| ==> TextOf(buf, argv[i]) == words[i]
  }

  lemma MoreAreWords(buf: string, argv: seq<Span>, words: seq<string>, w: Span, word: string)
    requires AreWords(buf, argv, words) && TextOf(buf, w) == word
    ensures AreWords(buf, argv + [w], words + [word])
  {
  }

  /** A word and the redirections behind it. */
  lemma ArgRead(buf: string, tb: Table, p: nat, argv: seq<Span>, rds: seq<Redirection>, done: seq<File>, a: Arg,
                rest: seq<Piece>)
    returns (w: Span, rds': seq<Redirection>, q: nat)
    requires IsTable(buf, tb) && p <= |buf| && tb.toks[p] == [PWord(a.word)] + (FilePieces(a.files) + rest)
    requires !Starts(rest, "<>") && AreFiles(buf, rds, done) && |argv| + 1 < MAXARGS
    ensures TextOf(buf, w) == a.word && AreFiles(buf, rds', done + a.files) && q <= |buf| && tb.toks[q] == rest
    ensures ParseArgs(buf, p, argv, rds) == ParseArgs(buf, q, argv + [w], rds')
  {
    var t := NextPiece(buf, tb, p, PWord(a.word), FilePieces(a.files) + rest);
    SeesStarts(buf, tb, p, "|)&;");
    rds', q := FilesParse(buf, tb, t.next, rds, done, a.files, rest);
    w := Span(t.q, t.eq);
  }

  /** parseexec's loop ends. */
  lemma ArgsDone(buf: string, tb: Table, p: nat, argv: seq<Span>, words: seq<string>, rds: seq<Redirection>,
                 fs: seq<File>)
    returns (c: Cmd, q: nat)
    requires IsTable(buf, tb) && p <= |buf| && Stops(tb.toks[p], "|)&;")
    requires AreWords(buf, argv, words) && AreFiles(buf, rds, fs)
    ensures ParseArgs(buf, p, argv, rds) == Parsed(c, q) && q <= |buf| && tb.toks[q] == tb.toks[p]
    ensures TreeOf(buf, c) == Redirected(TExec(words), fs)
  {
    SeesStarts(buf, tb, p, "|)&;");
    SkipKeeps(buf, tb, p);
    c, q := Wrap(Exec(argv), rds), Skip(buf, p);
    WrapTree(buf, Exec(argv), rds, fs);
    assert TreeOf(buf, Exec(argv)).argv == words;
    if tb.toks[p] == [] { NoPiece(buf, tb, p); }
  }

  lemma ArgPiecesMore(a: Arg, more: seq<Piece>, rest: seq<Piece>)
    ensures ([PWord(a.word)] + (FilePieces(a.files) + more)) + rest
         == [PWord(a.word)] + (FilePieces(a.files) + (more + rest))
  {
    Associates([PWord(a.word)], FilePieces(a.files) + more, rest);
    Associates(FilePieces(a.files), more, rest);
  }

  /** Words begin with no redirection and no block. */
  lemma ArgsStart(args: seq<Arg>, rest: seq<Piece>)
    requires Stops(rest, "|)&;")
    ensures !Starts(ArgPieces(args) + rest, "<>") && !Starts(ArgPieces(args) + rest, "(")
  {
    if args == [] {
      assert ArgPieces(args) + rest == rest;
    } else {
      assert (ArgPieces(args) + rest)[0] == PWord(args[0].word);
    }
  }

  /** The words and redirections of a command whose first word is a. */
  lemma ArgsSplit(args: seq<Arg>, a: Arg, more: seq<Arg>, words: seq<string>, done: seq<File>)
    requires args == [a] + more
    ensures ArgPieces(args) == [PWord(a.word)] + (FilePieces(a.files) + ArgPieces(more))
    ensures (words + [a.word]) + Words(more) == words + Words(args)
    ensures (done + a.files) + Files(more) == done + Files(args)
  {
    assert args[0] == a && args[1..] == more;
    Associates(words, [a.word], Words(more));
    Associates(done, a.files, Files(more));
  }

  /** parseexec's loop reads words with redirections behind them, up to an end of the command. */
  lemma {:induction false} ArgsParse(
      buf: string, tb: Table, p: nat, argv: seq<Span>, words: seq<string>, rds: seq<Redirection>, done: seq<File>,
      args: seq<Arg>, rest: seq<Piece>)
    returns (c: Cmd, q: nat)
    requires IsTable(buf, tb) && p <= |buf| && tb.toks[p] == ArgPieces(args) + rest && Stops(rest, "|)&;")
    requires AreWords(buf, argv, words) && AreFiles(buf, rds, done) && |words| + |args| < MAXARGS
    ensures ParseArgs(buf, p, argv, rds) == Parsed(c, q) && q <= |buf| && tb.toks[q] == rest
    ensures TreeOf(buf, c) == Redirected(TExec(words + Words(args)), done + Files(args))
    decreases |args|
  {
    if args == [] {
      assert words + [] == words && done + [] == done && [] + rest == rest;
      c, q := ArgsDone(buf, tb, p, argv, words, rds, done);
    } else {
      var a, more := args[0], args[1..];
      ArgsSplit(args, a, more, words, done);
      ArgPiecesMore(a, ArgPieces(more), rest);
      ArgsStart(more, rest);
      var w, rds', next := ArgRead(buf, tb, p, argv, rds, done, a, ArgPieces(more) + rest);
      MoreAreWords(buf, argv, words, w, a.word);
      c, q := ArgsParse(buf, tb, next, argv + [w], words + [a.word], rds', done + a.files, more, rest);
    }
  }

  // ---- blocks, pipelines and lines ----------------------------------------

  /** r is a parse of the tree t that leaves the tokens in rest. */
  ghost predicate Reads(buf: string, tb: Table, r: Parse, t: Tree, rest: seq<Piece>) {
    r.Parsed? && r.pos < |tb.toks| && TreeOf(buf, r.cmd) == t && tb.toks[r.pos] == rest
  }

  /** The token is a given symbol. */
  lemma SymbolAt(buf: string, tb: Table, p: nat, c: char, rest: seq<Piece>) returns (next: nat)
    requires IsTable(buf, tb) && p <= |buf| && tb.toks[p] == [PSym(Symbol(c))] + rest && Peeked([c])
    ensures next == GetToken(buf, p).next && p < next <= |buf| && tb.toks[next] == rest && Sees(buf, p, [c])
  {
    SeesStarts(buf, tb, p, [c]);
    var t := NextPiece(buf, tb, p, PSym(Symbol(c)), rest);
    next := t.next;
  }

  /** The next token, when peek sees it. */
  lemma SymbolFound(buf: string, tb: Table, p: nat, c: char) returns (next: nat)
    requires IsTable(buf, tb) && p <= |buf| && Sees(buf, p, [c]) && Peeked([c])
    ensures next == GetToken(buf, p).next && p < next <= |buf|
    ensures tb.toks[p] == [PSym(Symbol(c))] + tb.toks[next]
  {
    TokenFound(buf, tb, p, GetToken(buf, p));
    next := GetToken(buf, p).next;
  }

  lemma SimpleParse(buf: string, tb: Table, p: nat, e: Element, rest: seq<Piece>)
    requires IsTable(buf, tb) && p <= |buf| && e.Simple? && ShortElement(e)
    requires tb.toks[p] == ElementPieces(e) + rest && Stops(rest, "|)&;")
    ensures Reads(buf, tb, tb.exec[p], ElementTree(e), rest)
  {
    var more := ArgPieces(e.args) + rest;
    Associates(FilePieces(e.first), ArgPieces(e.args), rest);
    ArgsStart(e.args, rest);
    var rds, q := FilesRead(buf, tb, p, e.first, more);
    assert [] + Words(e.args) == Words(e.args);
    var c, end := ArgsParse(buf, tb, q, [], [], rds, e.first, e.args, rest);
    NoBlock(buf, tb, p, e.first, more);
    ExecIsSimple(buf, tb, p, rds, q);
  }

  lemma NoBlock(buf: string, tb: Table, p: nat, fs: seq<File>, more: seq<Piece>)
    requires IsTable(buf, tb) && p <= |buf| && tb.toks[p] == FilePieces(fs) + more && !Starts(more, "(")
    ensures !Sees(buf, p, "(")
  {
    SeesStarts(buf, tb, p, "(");
    if fs == [] {
      assert FilePieces(fs) + more == more;
    } else {
      assert (FilePieces(fs) + more)[0] == PSym(SignKind(fs[0].sign));
    }
  }

  lemma ExecIsSimple(buf: string, tb: Table, p: nat, rds: seq<Redirection>, q: nat)
    requires IsTable(buf, tb) && p <= |buf| && !Sees(buf, p, "(") && ScanRedirs(buf, p, []) == RedirsOk(rds, q)
    ensures q <= |buf| && tb.exec[p] == ParseArgs(buf, q, [], rds)
  {
    assert ParseExec(buf, p) == ParseArgs(buf, q, [], rds);
  }

  lemma ExecIsBlock(buf: string, tb: Table, p: nat, next: nat, inside: Parse)
    requires IsTable(buf, tb) && p <= |buf| && Sees(buf, p, "(") && next == GetToken(buf, p).next
    requires tb.line[next] == inside && inside.Parsed? && inside.pos <= |buf|
    ensures tb.exec[p] == CloseBlock(buf, inside)
  {
    assert ParseLine(buf, next) == inside;
    assert ParseExec(buf, p) == ParseBlock(buf, p);
  }

  lemma PipeIsOne(buf: string, tb: Table, p: nat, c: Cmd, q: nat)
    requires IsTable(buf, tb) && p <= |buf| && tb.exec[p] == Parsed(c, q) && q <= |buf| && !Sees(buf, q, "|")
    ensures tb.pipe[p] == Parsed(c, Skip(buf, q))
  {
    assert ParseExec(buf, p) == Parsed(c, q);
    assert ParsePipe(buf, p) == Parsed(c, Skip(buf, q));
  }

  lemma PipeIsMore(buf: string, tb: Table, p: nat, c: Cmd, q: nat, right: Cmd, end: nat)
    requires IsTable(buf, tb) && p <= |buf| && tb.exec[p] == Parsed(c, q) && q <= |buf| && Sees(buf, q, "|")
    requires tb.pipe[GetToken(buf, q).next] == Parsed(right, end)
    ensures tb.pipe[p] == Parsed(Pipe(c, right), end)
  {
    assert ParseExec(buf, p) == Parsed(c, q) && ParsePipe(buf, GetToken(buf, q).next) == Parsed(right, end);
    assert ParsePipe(buf, p) == Parsed(Pipe(c, right), end);
  }

  lemma LineIsLast(buf: string, tb: Table, p: nat, c: Cmd, q: nat, c': Cmd, end: nat)
    requires IsTable(buf, tb) && p <= |buf| && tb.pipe[p] == Parsed(c, q) && q <= |buf|
    requires ParseBacks(buf, q, c) == (c', end) && !Sees(buf, end, ";")
    ensures tb.line[p] == Parsed(c', Skip(buf, end))
  {
    assert ParsePipe(buf, p) == Parsed(c, q);
    assert ParseLine(buf, p) == Parsed(c', Skip(buf, end));
  }

  lemma LineIsMore(buf: string, tb: Table, p: nat, c: Cmd, q: nat, c': Cmd, next: nat, right: Cmd, end: nat)
    requires IsTable(buf, tb) && p <= |buf| && tb.pipe[p] == Parsed(c, q) && q <= |buf|
    requires ParseBacks(buf, q, c) == (c', next) && Sees(buf, next, ";")
    requires tb.line[GetToken(buf, next).next] == Parsed(right, end)
    ensures tb.line[p] == Parsed(List(c', right), end)
  {
    assert ParsePipe(buf, p) == Parsed(c, q) && ParseLine(buf, GetToken(buf, next).next) == Parsed(right, end);
    assert ParseLine(buf, p) == Parsed(List(c', right), end);
  }

  /** The redirections behind a block. */
  lemma BlockCloses(buf: string, tb: Table, inside: Parse, t: Tree, fs: seq<File>, rest: seq<Piece>)
    requires IsTable(buf, tb) && Stops(rest, "|)&;")
    requires Reads(buf, tb, inside, t, [PSym(Symbol(')'))] + (FilePieces(fs) + rest))
    ensures Reads(buf, tb, CloseBlock(buf, inside), Redirected(t, fs), rest)
  {
    var next := SymbolAt(buf, tb, inside.pos, ')', FilePieces(fs) + rest);
    var rds, q := FilesRead(buf, tb, next, fs, rest);
    WrapTree(buf, inside.cmd, rds, fs);
    assert CloseBlock(buf, inside) == Parsed(Wrap(inside.cmd, rds), q);
  }

  lemma BlockPieces(line: seq<Piece>, files: seq<Piece>, rest: seq<Piece>)
    ensures var open, close := [PSym(Symbol('('))], [PSym(Symbol(')'))];
      (open + (line + (close + files))) + rest == open + (line + (close + (files + rest)))
  {
    var open, close := [PSym(Symbol('('))], [PSym(Symbol(')'))];
    Associates(open, line + (close + files), rest);
    Associates(line, close + files, rest);
    Associates(close, files, rest);
  }

  lemma {:induction false} ElementParse(buf: string, tb: Table, p: nat, e: Element, rest: seq<Piece>)
    requires IsTable(buf, tb) && p <= |buf| && ShortElement(e)
    requires tb.toks[p] == ElementPieces(e) + rest && Stops(rest, "|)&;")
    ensures Reads(buf, tb, tb.exec[p], ElementTree(e), rest)
    decreases e
  {
    match e
    case Simple(_, _) => SimpleParse(buf, tb, p, e, rest);
    case Block(inside, files) =>
      var behind := [PSym(Symbol(')'))] + (FilePieces(files) + rest);
      BlockPieces(LinePieces(inside), FilePieces(files), rest);
      var next := SymbolAt(buf, tb, p, '(', LinePieces(inside) + behind);
      LineParse(buf, tb, next, inside, behind);
      BlockCloses(buf, tb, tb.line[next], LineTree(inside), files, rest);
      ExecIsBlock(buf, tb, p, next, tb.line[next]);
  }

  lemma {:induction false} PipeParse(buf: string, tb: Table, p: nat, l: Pipeline, rest: seq<Piece>)
    requires IsTable(buf, tb) && p <= |buf| && ShortPipes(l)
    requires tb.toks[p] == PipePieces(l) + rest && Stops(rest, ")&;")
    ensures Reads(buf, tb, tb.pipe[p], PipeTree(l), rest)
    decreases l
  {
    match l
    case One(e) =>
      ElementParse(buf, tb, p, e, rest);
      PipeEndsHere(buf, tb, p, ElementTree(e), rest);
    case Piped(e, more) =>
      var behind := [PSym(Symbol('|'))] + (PipePieces(more) + rest);
      Behind(ElementPieces(e), '|', PipePieces(more), rest);
      ElementParse(buf, tb, p, e, behind);
      var next := PipeThen(buf, tb, p, ElementTree(e), PipePieces(more) + rest);
      PipeParse(buf, tb, next, more, rest);
  }

  /** The pipeline at p is the command left piped into the pipeline at next. */
  ghost predicate PipesOn(buf: string, tb: Table, p: nat, left: Tree, next: nat) {
    && p < |tb.pipe| && next < |tb.pipe|
    && forall right: Tree, rest: seq<Piece> :: Reads(buf, tb, tb.pipe[next], right, rest) ==>
         Reads(buf, tb, tb.pipe[p], TPipe(left, right), rest)
  }

  /** A pipeline goes on behind a `|` at next. */
  lemma PipeThen(buf: string, tb: Table, p: nat, t: Tree, more: seq<Piece>) returns (next: nat)
    requires IsTable(buf, tb) && p <= |buf| && Reads(buf, tb, tb.exec[p], t, [PSym(Symbol('|'))] + more)
    ensures next <= |buf| && tb.toks[next] == more && PipesOn(buf, tb, p, t, next)
  {
    var c, q := tb.exec[p].cmd, tb.exec[p].pos;
    next := SymbolAt(buf, tb, q, '|', more);
    if tb.pipe[next].Parsed? { PipeIsMore(buf, tb, p, c, q, tb.pipe[next].cmd, tb.pipe[next].pos); }
    PipePipesOn(buf, tb, p, c, next);
  }

  lemma PipePipesOn(buf: string, tb: Table, p: nat, c: Cmd, next: nat)
    requires p < |tb.pipe| && next < |tb.pipe|
    requires tb.pipe[next].Parsed? ==> tb.pipe[p] == Parsed(Pipe(c, tb.pipe[next].cmd), tb.pipe[next].pos)
    ensures PipesOn(buf, tb, p, TreeOf(buf, c), next)
  {
  }

  lemma PipeEndsHere(buf: string, tb: Table, p: nat, t: Tree, rest: seq<Piece>)
    requires IsTable(buf, tb) && p <= |buf| && Reads(buf, tb, tb.exec[p], t, rest) && Stops(rest, ")&;")
    ensures Reads(buf, tb, tb.pipe[p], t, rest)
  {
    var q := tb.exec[p].pos;
    SeesStarts(buf, tb, q, "|");
    SkipKeeps(buf, tb, q);
    PipeIsOne(buf, tb, p, tb.exec[p].cmd, q);
  }

  /** A separator and what is behind it. */
  lemma Behind(first: seq<Piece>, sep: char, second: seq<Piece>, rest: seq<Piece>)
    ensures (first + ([PSym(Symbol(sep))] + second)) + rest == first + ([PSym(Symbol(sep))] + (second + rest))
  {
    Associates(first, [PSym(Symbol(sep))] + second, rest);
    Associates([PSym(Symbol(sep))], second, rest);
  }

  lemma NoBack(buf: string, tb: Table, p: nat, c: Cmd, rest: seq<Piece>) returns (q: nat)
    requires IsTable(buf, tb) && p <= |buf| && tb.toks[p] == rest && !Starts(rest, "&")
    ensures p <= q <= |buf| && tb.toks[q] == rest && ParseBacks(buf, p, c) == (c, q)
  {
    SeesStarts(buf, tb, p, "&");
    SkipKeeps(buf, tb, p);
    q := Skip(buf, p);
  }

  function Backs(c: Cmd, n: nat): (r: Cmd)
    decreases n
  {
    if n == 0 then c else Backs(Back(c), n - 1)
  }

  lemma {:induction false} BacksTree(buf: string, c: Cmd, n: nat)
    ensures TreeOf(buf, Backs(c, n)) == Backed(TreeOf(buf, c), n)
    decreases n
  {
    if n > 0 { BacksTree(buf, Back(c), n - 1); }
  }

  /** From p to q there are n tokens `&`. */
  ghost predicate Ampersands(buf: string, p: nat, n: nat, q: nat)
    decreases n
  {
    && p <= |buf| && q <= |buf|
    && if n == 0 then p == q else Sees(buf, p, "&") && Ampersands(buf, GetToken(buf, p).next, n - 1, q)
  }

  lemma {:induction false} AmpersandPieces(buf: string, tb: Table, p: nat, n: nat, q: nat)
    requires IsTable(buf, tb) && Ampersands(buf, p, n, q)
    ensures p <= q && tb.toks[p] == BackPieces(n) + tb.toks[q]
    decreases n
  {
    var rest := tb.toks[q];
    if n > 0 {
      var next := SymbolFound(buf, tb, p, '&');
      AmpersandPieces(buf, tb, next, n - 1, q);
      assert tb.toks[next] == BackPieces(n - 1) + rest;
    }
    BackPiecesMore(n, rest);
  }

  /** parseline's loop reads every `&`. */
  lemma {:induction false} AmpersandsParse(buf: string, p: nat, n: nat, q: nat, c: Cmd)
    requires Ampersands(buf, p, n, q)
    ensures ParseBacks(buf, p, c) == ParseBacks(buf, q, Backs(c, n))
    decreases n
  {
    if n > 0 { AmpersandsParse(buf, GetToken(buf, p).next, n - 1, q, Back(c)); }
  }

  lemma {:induction false} AmpersandsRead(buf: string, tb: Table, p: nat, n: nat, rest: seq<Piece>) returns (q: nat)
    requires IsTable(buf, tb) && p <= |buf| && tb.toks[p] == BackPieces(n) + rest
    ensures Ampersands(buf, p, n, q) && tb.toks[q] == rest
    decreases n
  {
    BackPiecesMore(n, rest);
    q := p;
    if n > 0 {
      var more := BackPieces(n - 1) + rest;
      var next := SymbolAt(buf, tb, p, '&', more);
      q := AmpersandsRead(buf, tb, next, n - 1, rest);
    }
  }

  lemma {:induction false} AmpersandsFound(buf: string, tb: Table, p: nat) returns (n: nat, q: nat)
    requires IsTable(buf, tb) && p <= |buf|
    ensures Ampersands(buf, p, n, q) && !Sees(buf, q, "&")
    decreases |buf| - p
  {
    if Sees(buf, p, "&") {
      var next := SymbolFound(buf, tb, p, '&');
      n, q := AmpersandsFound(buf, tb, next);
      n := n + 1;
    } else {
      n, q := 0, p;
    }
  }

  lemma BacksParse(buf: string, tb: Table, p: nat, c: Cmd, n: nat, rest: seq<Piece>) returns (q: nat)
    requires IsTable(buf, tb) && p <= |buf| && tb.toks[p] == BackPieces(n) + rest && !Starts(rest, "&")
    ensures ParseBacks(buf, p, c) == (Backs(c, n), q) && q <= |buf| && tb.toks[q] == rest
  {
    var next := AmpersandsRead(buf, tb, p, n, rest);
    AmpersandsParse(buf, p, n, next, c);
    q := NoBack(buf, tb, next, Backs(c, n), rest);
  }

  lemma BackPiecesMore(n: nat, rest: seq<Piece>)
    ensures BackPieces(n) + rest == if n == 0 then rest else [PSym(Symbol('&'))] + (BackPieces(n - 1) + rest)
  {
    if n > 0 { Associates([PSym(Symbol('&'))], BackPieces(n - 1), rest); }
  }

  lemma BacksStop(n: nat, rest: seq<Piece>)
    requires Stops(rest, ");")
    ensures Stops(BackPieces(n) + rest, ")&;")
  {
    if n == 0 { assert BackPieces(n) + rest == rest; }
  }

  lemma LineLast(buf: string, tb: Table, p: nat, t: Tree, n: nat, rest: seq<Piece>)
    requires IsTable(buf, tb) && p <= |buf| && Reads(buf, tb, tb.pipe[p], t, BackPieces(n) + rest) && Stops(rest, ")")
    ensures Reads(buf, tb, tb.line[p], Backed(t, n), rest)
  {
    var c := Backs(tb.pipe[p].cmd, n);
    var q := BacksParse(buf, tb, tb.pipe[p].pos, tb.pipe[p].cmd, n, rest);
    BacksTree(buf, tb.pipe[p].cmd, n);
    SeesStarts(buf, tb, q, ";");
    SkipKeeps(buf, tb, q);
    LineIsLast(buf, tb, p, tb.pipe[p].cmd, tb.pipe[p].pos, c, q);
  }

  /** A line goes on behind a `;` at next. */
  lemma LineThen(buf: string, tb: Table, p: nat, t: Tree, n: nat, more: seq<Piece>) returns (next: nat)
    requires IsTable(buf, tb) && p <= |buf|
    requires Reads(buf, tb, tb.pipe[p], t, BackPieces(n) + ([PSym(Symbol(';'))] + more))
    ensures next <= |buf| && tb.toks[next] == more && GoesOn(buf, tb, p, Backed(t, n), next)
  {
    var c := Backs(tb.pipe[p].cmd, n);
    var q := BacksParse(buf, tb, tb.pipe[p].pos, tb.pipe[p].cmd, n, [PSym(Symbol(';'))] + more);
    BacksTree(buf, tb.pipe[p].cmd, n);
    next := SymbolAt(buf, tb, q, ';', more);
    if tb.line[next].Parsed? {
      LineIsMore(buf, tb, p, tb.pipe[p].cmd, tb.pipe[p].pos, c, q, tb.line[next].cmd, tb.line[next].pos);
    }
    ListGoesOn(buf, tb, p, c, next);
  }

  /** The line at p is the command left and then the line at next. */
  ghost predicate GoesOn(buf: string, tb: Table, p: nat, left: Tree, next: nat) {
    && p < |tb.line| && next < |tb.line|
    && forall right: Tree, rest: seq<Piece> :: Reads(buf, tb, tb.line[next], right, rest) ==>
         Reads(buf, tb, tb.line[p], TList(left, right), rest)
  }

  lemma ListGoesOn(buf: string, tb: Table, p: nat, c: Cmd, next: nat)
    requires p < |tb.line| && next < |tb.line|
    requires tb.line[next].Parsed? ==> tb.line[p] == Parsed(List(c, tb.line[next].cmd), tb.line[next].pos)
    ensures GoesOn(buf, tb, p, TreeOf(buf, c), next)
  {
  }

  lemma {:induction false} LineParse(buf: string, tb: Table, p: nat, l: Line, rest: seq<Piece>)
    requires IsTable(buf, tb) && p <= |buf| && Short(l)
    requires tb.toks[p] == LinePieces(l) + rest && Stops(rest, ")")
    ensures Reads(buf, tb, tb.line[p], LineTree(l), rest)
    decreases l
  {
    match l
    case Last(pipes, backs) =>
      Associates(PipePieces(pipes), BackPieces(backs), rest);
      BacksStop(backs, rest);
      PipeParse(buf, tb, p, pipes, BackPieces(backs) + rest);
      LineLast(buf, tb, p, PipeTree(pipes), backs, rest);
    case Then(pipes, backs, more) =>
      var behind := [PSym(Symbol(';'))] + (LinePieces(more) + rest);
      ThenPieces(PipePieces(pipes), BackPieces(backs), LinePieces(more), rest);
      BacksStop(backs, behind);
      PipeParse(buf, tb, p, pipes, BackPieces(backs) + behind);
      var next := LineThen(buf, tb, p, PipeTree(pipes), backs, LinePieces(more) + rest);
      LineParse(buf, tb, next, more, rest);
  }

  lemma ThenPieces(pipes: seq<Piece>, backs: seq<Piece>, more: seq<Piece>, rest: seq<Piece>)
    ensures (pipes + (backs + ([PSym(Symbol(';'))] + more))) + rest
         == pipes + (backs + ([PSym(Symbol(';'))] + (more + rest)))
  {
    Associates(pipes, backs + ([PSym(Symbol(';'))] + more), rest);
    Behind(backs, ';', more, rest);
  }

  // ---- every parse comes from a line --------------------------------------

  lemma SignFound(buf: string, tb: Table, p: nat) returns (sign: Sign, t: Token)
    requires IsTable(buf, tb) && p <= |buf| && Starts(tb.toks[p], "<>")
    ensures t == GetToken(buf, p) && t.kind == SignKind(sign) && p < t.next && Sees(buf, p, "<>")
    ensures tb.toks[p] == [PSym(SignKind(sign))] + tb.toks[t.next]
  {
    SeesStarts(buf, tb, p, "<>");
    t := GetToken(buf, p);
    TokenFound(buf, tb, p, t);
    sign := if t.kind == Append then Appending else if t.kind == Symbol('<') then Input else Output;
  }

  lemma WordFound(buf: string, tb: Table, p: nat, t: Token)
    requires IsTable(buf, tb) && p <= |buf| && t == GetToken(buf, p) && t.kind == Word
    ensures tb.toks[p] == [PWord(TextOf(buf, Span(t.q, t.eq)))] + tb.toks[t.next] && p < t.next
  {
    TokenFound(buf, tb, p, t);
  }

  /** One redirection found. */
  lemma OneFileFound(buf: string, tb: Table, p: nat, rds: seq<Redirection>)
    returns (f: File, rd: Redirection, next: nat)
    requires IsTable(buf, tb) && p <= |buf| && Starts(tb.toks[p], "<>") && ScanRedirs(buf, p, rds).RedirsOk?
    ensures IsFile(buf, rd, f) && p < next <= |buf|
    ensures tb.toks[p] == [PSym(SignKind(f.sign)), PWord(f.name)] + tb.toks[next]
    ensures ScanRedirs(buf, p, rds) == ScanRedirs(buf, next, rds + [rd])
  {
    var sign, t := SignFound(buf, tb, p);
    var w := GetToken(buf, t.next);
    rd := Redirection(Span(w.q, w.eq), ModeOf(sign));
    assert ScanRedirs(buf, p, rds) == ScanRedirs(buf, w.next, rds + [rd]) && w.kind == Word;
    WordFound(buf, tb, t.next, w);
    f := File(sign, TextOf(buf, Span(w.q, w.eq)));
    next := w.next;
  }

  lemma {:induction false} FilesFound(buf: string, tb: Table, p: nat, rds: seq<Redirection>, done: seq<File>)
    returns (fs: seq<File>)
    requires IsTable(buf, tb) && p <= |buf| && ScanRedirs(buf, p, rds).RedirsOk? && AreFiles(buf, rds, done)
    ensures var r := ScanRedirs(buf, p, rds);
      && r.pos <= |buf| && tb.toks[p] == FilePieces(fs) + tb.toks[r.pos] && AreFiles(buf, r.rds, done + fs)
    decreases |buf| - p
  {
    if Starts(tb.toks[p], "<>") {
      var f, rd, next := OneFileFound(buf, tb, p, rds);
      MoreFiles(buf, rds, done, rd, f);
      var more := FilesFound(buf, tb, next, rds + [rd], done + [f]);
      fs := [f] + more;
      Regroup(done, fs);
      FilePiecesMore(fs, tb.toks[ScanRedirs(buf, p, rds).pos]);
    } else {
      NoFileRead(buf, tb, p, rds);
      fs := [];
      assert done + fs == done;
    }
  }

  /** parseexec's loop goes on only at a word, while there is room. */
  lemma ArgStep(buf: string, tb: Table, p: nat, argv: seq<Span>, rds: seq<Redirection>) returns (t: Token)
    requires IsTable(buf, tb) && p <= |buf| && ParseArgs(buf, p, argv, rds).Parsed? && !Stops(tb.toks[p], "|)&;")
    ensures t == GetToken(buf, p) && t.kind == Word && |argv| + 1 < MAXARGS && p < t.next <= |buf|
    ensures var r := ScanRedirs(buf, t.next, rds);
      r.RedirsOk? && ParseArgs(buf, p, argv, rds) == ParseArgs(buf, r.pos, argv + [Span(t.q, t.eq)], r.rds)
  {
    SeesStarts(buf, tb, p, "|)&;");
    t := GetToken(buf, p);
    TokenFound(buf, tb, p, t);
  }

  lemma ArgFound(buf: string, tb: Table, p: nat, argv: seq<Span>, rds: seq<Redirection>, done: seq<File>)
    returns (a: Arg, w: Span, rds': seq<Redirection>, q: nat)
    requires IsTable(buf, tb) && p <= |buf| && ParseArgs(buf, p, argv, rds).Parsed? && !Stops(tb.toks[p], "|)&;")
    requires AreFiles(buf, rds, done)
    ensures |argv| + 1 < MAXARGS && TextOf(buf, w) == a.word && AreFiles(buf, rds', done + a.files) && p < q <= |buf|
    ensures tb.toks[p] == [PWord(a.word)] + (FilePieces(a.files) + tb.toks[q])
    ensures ParseArgs(buf, p, argv, rds) == ParseArgs(buf, q, argv + [w], rds')
  {
    var t := ArgStep(buf, tb, p, argv, rds);
    WordFound(buf, tb, p, t);
    w := Span(t.q, t.eq);
    var fs := FilesFound(buf, tb, t.next, rds, done);
    a := Arg(TextOf(buf, w), fs);
    rds', q := ScanRedirs(buf, t.next, rds).rds, ScanRedirs(buf, t.next, rds).pos;
  }

  /** r is a parse from p of the tokens ps, with the tree t. */
  ghost predicate Found(buf: string, tb: Table, p: nat, r: Parse, ps: seq<Piece>, t: Tree) {
    && p < |tb.toks| && r.Parsed? && r.pos < |tb.toks| && TreeOf(buf, r.cmd) == t
    && tb.toks[p] == ps + tb.toks[r.pos]
  }

  lemma {:induction false} ArgsFound(buf: string, tb: Table, p: nat, argv: seq<Span>, words: seq<string>,
                                     rds: seq<Redirection>, done: seq<File>)
    returns (args: seq<Arg>)
    requires IsTable(buf, tb) && p <= |buf| && ParseArgs(buf, p, argv, rds).Parsed?
    requires AreWords(buf, argv, words) && |words| < MAXARGS && AreFiles(buf, rds, done)
    ensures |words| + |args| < MAXARGS
    ensures Found(buf, tb, p, ParseArgs(buf, p, argv, rds), ArgPieces(args),
                  Redirected(TExec(words + Words(args)), done + Files(args)))
    decreases |buf| - p
  {
    if Stops(tb.toks[p], "|)&;") {
      args := [];
      var c, q := ArgsDone(buf, tb, p, argv, words, rds, done);
      assert words + [] == words && done + [] == done && [] + tb.toks[q] == tb.toks[q];
    } else {
      var a, w, rds', q := ArgFound(buf, tb, p, argv, rds, done);
      MoreAreWords(buf, argv, words, w, a.word);
      var more := ArgsFound(buf, tb, q, argv + [w], words + [a.word], rds', done + a.files);
      args := [a] + more;
      ArgsSplit(args, a, more, words, done);
      ArgPiecesMore(a, ArgPieces(more), tb.toks[ParseArgs(buf, p, argv, rds).pos]);
    }
  }

  lemma SimpleFound(buf: string, tb: Table, p: nat) returns (e: Element)
    requires IsTable(buf, tb) && p <= |buf| && tb.exec[p].Parsed? && !Sees(buf, p, "(")
    ensures ShortElement(e) && Found(buf, tb, p, tb.exec[p], ElementPieces(e), ElementTree(e))
  {
    assert tb.exec[p] == ParseExec(buf, p);
    var r := ScanRedirs(buf, p, []);
    var first := FilesFound(buf, tb, p, [], []);
    assert [] + first == first;
    var args := ArgsFound(buf, tb, r.pos, [], [], r.rds, first);
    assert [] + Words(args) == Words(args);
    e := Simple(first, args);
    Associates(FilePieces(first), ArgPieces(args), tb.toks[tb.exec[p].pos]);
  }

  lemma CloseFound(buf: string, tb: Table, p: nat, inside: Parse, ps: seq<Piece>, t: Tree) returns (fs: seq<File>)
    requires IsTable(buf, tb) && Found(buf, tb, p, inside, ps, t) && CloseBlock(buf, inside).Parsed?
    ensures Found(buf, tb, p, CloseBlock(buf, inside), ps + ([PSym(Symbol(')'))] + FilePieces(fs)), Redirected(t, fs))
  {
    var next := SymbolFound(buf, tb, inside.pos, ')');
    var r := ScanRedirs(buf, next, []);
    fs := FilesFound(buf, tb, next, [], []);
    assert [] + fs == fs;
    WrapTree(buf, inside.cmd, r.rds, fs);
    Behind(ps, ')', FilePieces(fs), tb.toks[r.pos]);
  }

  lemma ExecWasBlock(buf: string, tb: Table, p: nat, next: nat)
    requires IsTable(buf, tb) && p <= |buf| && tb.exec[p].Parsed? && Sees(buf, p, "(") && next == GetToken(buf, p).next
    ensures tb.line[next].Parsed? && tb.line[next].pos <= |buf| && tb.exec[p] == CloseBlock(buf, tb.line[next])
  {
    assert tb.line[next] == ParseLine(buf, next);
    assert tb.exec[p] == ParseExec(buf, p) == ParseBlock(buf, p);
  }

  lemma {:induction false} ElementFound(buf: string, tb: Table, p: nat) returns (e: Element)
    requires IsTable(buf, tb) && p <= |buf| && tb.exec[p].Parsed?
    ensures ShortElement(e) && Found(buf, tb, p, tb.exec[p], ElementPieces(e), ElementTree(e))
    decreases |buf| - p, 0
  {
    if Sees(buf, p, "(") {
      var next := SymbolFound(buf, tb, p, '(');
      ExecWasBlock(buf, tb, p, next);
      var inside := LineFound(buf, tb, next);
      var files := CloseFound(buf, tb, next, tb.line[next], LinePieces(inside), LineTree(inside));
      e := Block(inside, files);
      Associates([PSym(Symbol('('))], LinePieces(inside) + ([PSym(Symbol(')'))] + FilePieces(files)),
                 tb.toks[tb.exec[p].pos]);
    } else {
      e := SimpleFound(buf, tb, p);
    }
  }

  lemma PipeWas(buf: string, tb: Table, p: nat) returns (q: nat)
    requires IsTable(buf, tb) && p <= |buf| && tb.pipe[p].Parsed?
    ensures tb.exec[p].Parsed? && q == tb.exec[p].pos && p <= q <= |buf|
    ensures !Sees(buf, q, "|") ==> tb.pipe[p] == Parsed(tb.exec[p].cmd, Skip(buf, q))
    ensures Sees(buf, q, "|") ==> var right := tb.pipe[GetToken(buf, q).next];
      right.Parsed? && tb.pipe[p] == Parsed(Pipe(tb.exec[p].cmd, right.cmd), right.pos)
  {
    assert tb.pipe[p] == ParsePipe(buf, p) && tb.exec[p] == ParseExec(buf, p);
    q := tb.exec[p].pos;
    if Sees(buf, q, "|") { assert tb.pipe[GetToken(buf, q).next] == ParsePipe(buf, GetToken(buf, q).next); }
  }

  lemma {:induction false} PipeFound(buf: string, tb: Table, p: nat) returns (l: Pipeline)
    requires IsTable(buf, tb) && p <= |buf| && tb.pipe[p].Parsed?
    ensures ShortPipes(l) && Found(buf, tb, p, tb.pipe[p], PipePieces(l), PipeTree(l))
    decreases |buf| - p, 1
  {
    var q := PipeWas(buf, tb, p);
    var e := ElementFound(buf, tb, p);
    if Sees(buf, q, "|") {
      var next := SymbolFound(buf, tb, q, '|');
      var more := PipeFound(buf, tb, next);
      l := Piped(e, more);
      Behind(ElementPieces(e), '|', PipePieces(more), tb.toks[tb.pipe[p].pos]);
    } else {
      l := One(e);
      SkipKeeps(buf, tb, q);
    }
  }

  lemma BacksFound(buf: string, tb: Table, p: nat, c: Cmd) returns (n: nat, q: nat)
    requires IsTable(buf, tb) && p <= |buf|
    ensures ParseBacks(buf, p, c) == (Backs(c, n), q) && p <= q <= |buf|
    ensures tb.toks[p] == BackPieces(n) + tb.toks[q]
  {
    var next;
    n, next := AmpersandsFound(buf, tb, p);
    AmpersandPieces(buf, tb, p, n, next);
    AmpersandsParse(buf, p, n, next, c);
    SeesStarts(buf, tb, next, "&");
    q := NoBack(buf, tb, next, Backs(c, n), tb.toks[next]);
  }

  lemma LineWas(buf: string, tb: Table, p: nat, n: nat, q: nat)
    requires IsTable(buf, tb) && p <= |buf| && tb.line[p].Parsed? && tb.pipe[p].Parsed? && tb.pipe[p].pos <= |buf|
    requires ParseBacks(buf, tb.pipe[p].pos, tb.pipe[p].cmd) == (Backs(tb.pipe[p].cmd, n), q) && q <= |buf|
    ensures !Sees(buf, q, ";") ==> tb.line[p] == Parsed(Backs(tb.pipe[p].cmd, n), Skip(buf, q))
    ensures Sees(buf, q, ";") ==> var right := tb.line[GetToken(buf, q).next];
      right.Parsed? && tb.line[p] == Parsed(List(Backs(tb.pipe[p].cmd, n), right.cmd), right.pos)
  {
    assert tb.line[p] == ParseLine(buf, p) && tb.pipe[p] == ParsePipe(buf, p);
    if Sees(buf, q, ";") { assert tb.line[GetToken(buf, q).next] == ParseLine(buf, GetToken(buf, q).next); }
  }

  lemma LineHadPipe(buf: string, tb: Table, p: nat)
    requires IsTable(buf, tb) && p <= |buf| && tb.line[p].Parsed?
    ensures tb.pipe[p].Parsed? && p <= tb.pipe[p].pos <= |buf|
  {
    assert tb.line[p] == ParseLine(buf, p) && tb.pipe[p] == ParsePipe(buf, p);
  }

  lemma JoinThen(all: seq<Piece>, x: seq<Piece>, y: seq<Piece>, pipes: seq<Piece>, backs: seq<Piece>, more: seq<Piece>,
                 rest: seq<Piece>)
    requires all == pipes + x && x == backs + y && y == [PSym(Symbol(';'))] + (more + rest)
    ensures all == (pipes + (backs + ([PSym(Symbol(';'))] + more))) + rest
  {
    ThenPieces(pipes, backs, more, rest);
  }

  lemma LastFound(buf: string, tb: Table, p: nat, first: Parse, whole: Parse, pipes: Pipeline, n: nat, q: nat)
    requires IsTable(buf, tb) && Found(buf, tb, p, first, PipePieces(pipes), PipeTree(pipes)) && q <= |buf|
    requires tb.toks[first.pos] == BackPieces(n) + tb.toks[q]
    requires whole == Parsed(Backs(first.cmd, n), Skip(buf, q))
    ensures Found(buf, tb, p, whole, LinePieces(Last(pipes, n)), LineTree(Last(pipes, n)))
  {
    BacksTree(buf, first.cmd, n);
    SkipKeeps(buf, tb, q);
    Associates(PipePieces(pipes), BackPieces(n), tb.toks[q]);
  }

  lemma ThenFound(buf: string, tb: Table, p: nat, first: Parse, second: Parse, whole: Parse, pipes: Pipeline, n: nat,
                  q: nat, more: Line)
    requires IsTable(buf, tb) && Found(buf, tb, p, first, PipePieces(pipes), PipeTree(pipes)) && q <= |buf|
    requires tb.toks[first.pos] == BackPieces(n) + tb.toks[q] && second.Parsed? && second.pos <= |buf|
    requires tb.toks[q] == [PSym(Symbol(';'))] + (LinePieces(more) + tb.toks[second.pos])
    requires TreeOf(buf, second.cmd) == LineTree(more)
    requires whole == Parsed(List(Backs(first.cmd, n), second.cmd), second.pos)
    ensures Found(buf, tb, p, whole, LinePieces(Then(pipes, n, more)), LineTree(Then(pipes, n, more)))
  {
    BacksTree(buf, first.cmd, n);
    JoinThen(tb.toks[p], tb.toks[first.pos], tb.toks[q], PipePieces(pipes), BackPieces(n), LinePieces(more),
             tb.toks[second.pos]);
  }

  lemma {:induction false} LineFound(buf: string, tb: Table, p: nat) returns (l: Line)
    requires IsTable(buf, tb) && p <= |buf| && tb.line[p].Parsed?
    ensures Short(l) && Found(buf, tb, p, tb.line[p], LinePieces(l), LineTree(l))
    decreases |buf| - p, 2
  {
    LineHadPipe(buf, tb, p);
    var pipes := PipeFound(buf, tb, p);
    var n, q := BacksFound(buf, tb, tb.pipe[p].pos, tb.pipe[p].cmd);
    LineWas(buf, tb, p, n, q);
    if Sees(buf, q, ";") {
      var next := SymbolFound(buf, tb, q, ';');
      var more := LineFound(buf, tb, next);
      l := Then(pipes, n, more);
      ThenFound(buf, tb, p, tb.pipe[p], tb.line[next], tb.line[p], pipes, n, q, more);
    } else {
      l := Last(pipes, n);
      LastFound(buf, tb, p, tb.pipe[p], tb.line[p], pipes, n, q);
    }
  }

  // ---- the parser is the grammar ------------------------------------------

  /** The text is a line of the grammar with tree t. */
  ghost predicate Derives(buf: string, l: Line, t: Tree) {
    Short(l) && LinePieces(l) == Pieces(buf, 0) && LineTree(l) == t
  }

  /** A text whose tokens are those of a line parses, to the line's tree. */
  lemma DerivedParses(buf: string, l: Line, t: Tree)
    requires Derives(buf, l, t)
    ensures ParseCmd(buf).Parsed? && TreeOf(buf, ParseCmd(buf).cmd) == t
  {
    var tb := TableOf(buf);
    assert LinePieces(l) + [] == LinePieces(l);
    assert tb.toks[0] == Pieces(buf, 0) && tb.line[0] == ParseLine(buf, 0);
    LineParse(buf, tb, 0, l, []);
    NoPiece(buf, tb, tb.line[0].pos);
  }

  /** A text that parses is a line of the grammar. */
  lemma ParsedDerives(buf: string) returns (l: Line)
    requires ParseCmd(buf).Parsed?
    ensures Derives(buf, l, TreeOf(buf, ParseCmd(buf).cmd))
  {
    var tb := TableOf(buf);
    assert tb.toks[0] == Pieces(buf, 0) && tb.line[0] == ParseLine(buf, 0);
    l := LineFound(buf, tb, 0);
    TokenFound(buf, tb, tb.line[0].pos, GetToken(buf, tb.line[0].pos));
    assert LinePieces(l) + [] == LinePieces(l);
  }

  /** The parser accepts exactly the lines of the grammar, and builds their trees. */
  lemma ParserIsGrammar(buf: string, t: Tree)
    ensures (ParseCmd(buf).Parsed? && TreeOf(buf, ParseCmd(buf).cmd) == t) <==> exists l :: Derives(buf, l, t)
  {
    if ParseCmd(buf).Parsed? && TreeOf(buf, ParseCmd(buf).cmd) == t {
      var l := ParsedDerives(buf);
    }
    if l :| Derives(buf, l, t) {
      DerivedParses(buf, l, t);
    }
  }
}
