/**
 Texts of commands and their round trip: however the tokens of a line are laid out,
 with or without parentheses, parsing gives the line's tree back.
 */
module ShellPrint {
  import opened ShellSyntax
  import opened ShellGrammar

  // ---- laying tokens out --------------------------------------------------

  predicate IsWordText(w: string) {
    w != [] && forall i :: 0 <= i < |w| ==> IsWordChar(w[i])
  }

  predicate IsPiece(x: Piece) {
    match x
    case PWord(w) => IsWordText(w)
    case PSym(k) => k == Append || (k.Symbol? && IsSymbol(k.c))
  }

  function PieceText(x: Piece): (s: string)
    requires IsPiece(x)
    ensures s != []
  {
    match x
    case PWord(w) => w
    case PSym(k) => if k == Append then ">>" else [k.c]
  }

  predicate ArePieces(ps: seq<Piece>) {
    forall i :: 0 <= i < |ps| ==> IsPiece(ps[i])
  }

  predicate IsBlank(gap: string) {
    forall i :: 0 <= i < |gap| ==> IsSpace(gap[i])
  }

  /** Two tokens that would run together. */
  predicate Touch(a: Piece, b: Piece) {
    (a.PWord? && b.PWord?) || (a == PSym(Symbol('>')) && (b == PSym(Symbol('>')) || b == PSym(Append)))
  }

  /** White space behind every token, some of it between two that would run together. */
  predicate AreGaps(ps: seq<Piece>, gaps: seq<string>) {
    && |gaps| == |ps| && (forall i :: 0 <= i < |gaps| ==> IsBlank(gaps[i]))
    && (forall i :: 0 <= i < |ps| - 1 && Touch(ps[i], ps[i + 1]) ==> gaps[i] != [])
  }

  /** The text of tokens with the white space behind each of them. */
  function Laid(ps: seq<Piece>, gaps: seq<string>): (s: string)
    requires ArePieces(ps) && |gaps| == |ps|
    ensures |s| >= |ps|
  {
    if ps == [] then [] else PieceText(ps[0]) + (gaps[0] + Laid(ps[1..], gaps[1..]))
  }

  /** s stands in buf from p on. */
  predicate Stands(buf: string, p: nat, s: string) {
    p + |s| <= |buf| && buf[p..p + |s|] == s
  }

  // ---- the lexer reads laid-out tokens ------------------------------------

  lemma {:induction false} WordEndIs(buf: string, p: nat, e: nat)
    requires p <= e <= |buf| && (forall i :: p <= i < e ==> IsWordChar(buf[i])) && (e < |buf| ==> !IsWordChar(buf[e]))
    ensures WordEnd(buf, p) == e
    decreases e - p
  {
    if p < e { WordEndIs(buf, p + 1, e); }
  }

  lemma {:induction false} SkipBlank(buf: string, p: nat, e: nat)
    requires p <= e <= |buf| && (forall i :: p <= i < e ==> IsSpace(buf[i]))
    ensures Skip(buf, p) == Skip(buf, e)
    decreases e - p
  {
    if p < e { SkipBlank(buf, p + 1, e); }
  }

  /** The token x stands at p, with nothing behind it that would belong to it. */
  predicate Apart(buf: string, p: nat, x: Piece) {
    && IsPiece(x) && Stands(buf, p, PieceText(x))
    && var e := p + |PieceText(x)|;
      e < |buf| ==> (x.PWord? ==> !IsWordChar(buf[e])) && (x == PSym(Symbol('>')) ==> buf[e] != '>')
  }

  lemma StandsAt(buf: string, p: nat, s: string, i: nat)
    requires Stands(buf, p, s) && i < |s|
    ensures p + i < |buf| && buf[p + i] == s[i]
  {
    assert buf[p..p + |s|][i] == s[i];
  }

  lemma WordAt(buf: string, p: nat, w: string)
    requires Apart(buf, p, PWord(w))
    ensures var e := p + |w|; GetToken(buf, p) == Token(Word, p, e, Skip(buf, e)) && TextOf(buf, Span(p, e)) == w
  {
    forall i | p <= i < p + |w| ensures IsWordChar(buf[i]) { StandsAt(buf, p, w, i - p); }
    WordEndIs(buf, p, p + |w|);
  }

  lemma SignAt(buf: string, p: nat, k: Kind)
    requires Apart(buf, p, PSym(k))
    ensures var e := p + |PieceText(PSym(k))|; e <= |buf| && GetToken(buf, p) == Token(k, p, e, Skip(buf, e))
  {
    StandsAt(buf, p, PieceText(PSym(k)), 0);
    if k == Append { StandsAt(buf, p, ">>", 1); }
  }

  lemma TokenIs(buf: string, p: nat, t: Token, x: Piece, e: nat)
    requires p <= |buf| && t == GetToken(buf, p) && t.kind != End && PieceOf(buf, t) == x
    requires e <= |buf| && t.next == Skip(buf, e)
    ensures Pieces(buf, p) == [x] + Pieces(buf, e)
  {
    PiecesSkip(buf, e);
  }

  lemma PieceAt(buf: string, p: nat, x: Piece, e: nat)
    requires Apart(buf, p, x) && e == p + |PieceText(x)|
    ensures e <= |buf| && Pieces(buf, p) == [x] + Pieces(buf, e)
  {
    match x
    case PWord(w) =>
      WordAt(buf, p, w);
      TokenIs(buf, p, Token(Word, p, e, Skip(buf, e)), x, e);
    case PSym(k) =>
      SignAt(buf, p, k);
      TokenIs(buf, p, Token(k, p, e, Skip(buf, e)), x, e);
  }

  lemma StandsParts(buf: string, p: nat, s: string, t: string)
    requires p <= |buf| && buf[p..] == s + t
    ensures Stands(buf, p, s) && p + |s| <= |buf| && buf[p + |s|..] == t
  {
    assert buf[p..p + |s|] == buf[p..][..|s|] && buf[p + |s|..] == buf[p..][|s|..];
  }

  /** Where the first of laid-out tokens ends, and where the rest begins. */
  lemma LaidSplit(buf: string, p: nat, ps: seq<Piece>, gaps: seq<string>) returns (e: nat, next: nat)
    requires p <= |buf| && ps != [] && ArePieces(ps) && |gaps| == |ps| && buf[p..] == Laid(ps, gaps)
    ensures Stands(buf, p, PieceText(ps[0])) && e == p + |PieceText(ps[0])|
    ensures Stands(buf, e, gaps[0]) && next == e + |gaps[0]| <= |buf| && buf[next..] == Laid(ps[1..], gaps[1..])
  {
    var rest := Laid(ps[1..], gaps[1..]);
    e := p + |PieceText(ps[0])|;
    next := e + |gaps[0]|;
    StandsParts(buf, p, PieceText(ps[0]), gaps[0] + rest);
    StandsParts(buf, e, gaps[0], rest);
  }

  lemma FirstChar(buf: string, p: nat, ps: seq<Piece>, gaps: seq<string>)
    requires p <= |buf| && ps != [] && ArePieces(ps) && |gaps| == |ps| && buf[p..] == Laid(ps, gaps)
    ensures p < |buf| && buf[p] == PieceText(ps[0])[0]
  {
    var e, next := LaidSplit(buf, p, ps, gaps);
    StandsAt(buf, p, PieceText(ps[0]), 0);
  }

  /** No token runs into what is laid out behind it. */
  lemma LaidApart(buf: string, p: nat, ps: seq<Piece>, gaps: seq<string>, e: nat, next: nat)
    requires ps != [] && ArePieces(ps) && AreGaps(ps, gaps) && Stands(buf, p, PieceText(ps[0]))
    requires e == p + |PieceText(ps[0])| && Stands(buf, e, gaps[0]) && next == e + |gaps[0]|
    requires next <= |buf| && buf[next..] == Laid(ps[1..], gaps[1..])
    ensures Apart(buf, p, ps[0])
  {
    if gaps[0] != [] {
      StandsAt(buf, e, gaps[0], 0);
    } else if |ps| > 1 {
      FirstChar(buf, e, ps[1..], gaps[1..]);
      assert !Touch(ps[0], ps[1]);
    }
  }

  lemma BlankChars(buf: string, p: nat, gap: string, e: nat)
    requires Stands(buf, p, gap) && IsBlank(gap) && e == p + |gap|
    ensures Skip(buf, p) == Skip(buf, e)
  {
    forall i | p <= i < e ensures IsSpace(buf[i]) { StandsAt(buf, p, gap, i - p); }
    SkipBlank(buf, p, e);
  }

  lemma BlankSkipped(buf: string, p: nat, gap: string, e: nat)
    requires Stands(buf, p, gap) && IsBlank(gap) && e == p + |gap|
    ensures Pieces(buf, p) == Pieces(buf, e)
  {
    BlankChars(buf, p, gap, e);
    PiecesSkip(buf, p);
    PiecesSkip(buf, e);
  }

  lemma RestGaps(ps: seq<Piece>, gaps: seq<string>)
    requires ps != [] && ArePieces(ps) && AreGaps(ps, gaps)
    ensures ArePieces(ps[1..]) && AreGaps(ps[1..], gaps[1..])
  {
    var more, rest := ps[1..], gaps[1..];
    forall i | 0 <= i < |more| - 1 && Touch(more[i], more[i + 1]) ensures rest[i] != [] {
      assert Touch(ps[i + 1], ps[i + 2]);
    }
  }

  /** The first of laid-out tokens is the one the lexer reads. */
  lemma FirstLaid(buf: string, p: nat, ps: seq<Piece>, gaps: seq<string>) returns (next: nat)
    requires p <= |buf| && ps != [] && ArePieces(ps) && AreGaps(ps, gaps) && buf[p..] == Laid(ps, gaps)
    ensures next <= |buf| && buf[next..] == Laid(ps[1..], gaps[1..]) && Pieces(buf, p) == [ps[0]] + Pieces(buf, next)
  {
    var e;
    e, next := LaidSplit(buf, p, ps, gaps);
    LaidApart(buf, p, ps, gaps, e, next);
    PieceAt(buf, p, ps[0], e);
    BlankSkipped(buf, e, gaps[0], next);
  }

  /** The lexer reads laid-out tokens back. */
  lemma {:induction false} LaidPieces(buf: string, p: nat, ps: seq<Piece>, gaps: seq<string>)
    requires p <= |buf| && ArePieces(ps) && AreGaps(ps, gaps) && buf[p..] == Laid(ps, gaps)
    ensures Pieces(buf, p) == ps
    decreases |ps|
  {
    if ps == [] {
      assert p == |buf|;
    } else {
      var next := FirstLaid(buf, p, ps, gaps);
      RestGaps(ps, gaps);
      LaidPieces(buf, next, ps[1..], gaps[1..]);
      assert ps == [ps[0]] + ps[1..];
    }
  }

  lemma LaidTokens(lead: string, ps: seq<Piece>, gaps: seq<string>, buf: string)
    requires ArePieces(ps) && AreGaps(ps, gaps) && IsBlank(lead) && buf == lead + Laid(ps, gaps)
    ensures Pieces(buf, 0) == ps
  {
    assert buf[0..] == buf;
    StandsParts(buf, 0, lead, Laid(ps, gaps));
    BlankSkipped(buf, 0, lead, |lead|);
    LaidPieces(buf, |lead|, ps, gaps);
  }

  /** Every layout of a line's tokens parses to the line's tree. */
  lemma ParseLaid(l: Line, lead: string, gaps: seq<string>)
    requires Short(l) && ArePieces(LinePieces(l)) && AreGaps(LinePieces(l), gaps) && IsBlank(lead)
    ensures var buf := lead + Laid(LinePieces(l), gaps);
      ParseCmd(buf).Parsed? && TreeOf(buf, ParseCmd(buf).cmd) == LineTree(l)
  {
    var buf := lead + Laid(LinePieces(l), gaps);
    LaidTokens(lead, LinePieces(l), gaps, buf);
    DerivedParses(buf, l, LineTree(l));
  }

  // ---- plain printing -----------------------------------------------------

  predicate IsSign(x: Piece) {
    x == PSym(Symbol('<')) || x == PSym(Symbol('>')) || x == PSym(Append)
  }

  /** One blank behind a word that a word or a redirection follows; none elsewhere in a line. */
  function GapBehind(ps: seq<Piece>): (gap: string)
    requires ps != []
    ensures IsBlank(gap)
  {
    if |ps| > 1 && ((ps[0].PWord? && (ps[1].PWord? || IsSign(ps[1]))) || Touch(ps[0], ps[1])) then " " else ""
  }

  /** Tokens as one would type them: `a <x b >y >>z`, `a|b|c`, `a&;b`. */
  function Plain(ps: seq<Piece>): (s: string)
    requires ArePieces(ps)
  {
    if ps == [] then [] else PieceText(ps[0]) + (GapBehind(ps) + Plain(ps[1..]))
  }

  function PlainGaps(ps: seq<Piece>): (gaps: seq<string>) {
    if ps == [] then [] else [GapBehind(ps)] + PlainGaps(ps[1..])
  }

  lemma {:induction false} PlainGapAt(ps: seq<Piece>, i: nat)
    requires i < |ps|
    ensures |PlainGaps(ps)| == |ps| && PlainGaps(ps)[i] == GapBehind(ps[i..])
    decreases i, |ps|
  {
    if i > 0 {
      PlainGapAt(ps[1..], i - 1);
      assert ps[1..][i - 1..] == ps[i..];
    } else if |ps| > 1 {
      PlainGapAt(ps[1..], 0);
    }
  }

  lemma PlainIsLaid(ps: seq<Piece>)
    requires ArePieces(ps)
    ensures AreGaps(ps, PlainGaps(ps)) && Plain(ps) == Laid(ps, PlainGaps(ps))
  {
    assert ps != [] ==> PlainGaps(ps)[1..] == PlainGaps(ps[1..]);
    if ps != [] { PlainIsLaid(ps[1..]); }
    forall i | 0 <= i < |ps| ensures |PlainGaps(ps)| == |ps| && PlainGaps(ps)[i] == GapBehind(ps[i..]) {
      PlainGapAt(ps, i);
    }
  }

  /** Parsing a line printed without further parentheses gives its tree. */
  lemma ParsePlain(l: Line)
    requires Short(l) && ArePieces(LinePieces(l))
    ensures var buf := Plain(LinePieces(l)); ParseCmd(buf).Parsed? && TreeOf(buf, ParseCmd(buf).cmd) == LineTree(l)
  {
    var ps := LinePieces(l);
    PlainIsLaid(ps);
    assert Plain(ps) == [] + Laid(ps, PlainGaps(ps));
    ParseLaid(l, [], PlainGaps(ps));
  }

  // ---- printing with all parentheses --------------------------------------

  /** The commands the parser can build. */
  predicate Wellformed(t: Tree) {
    match t
    case TExec(argv) => |argv| < MAXARGS && forall i :: 0 <= i < |argv| ==> IsWordText(argv[i])
    case TRedir(c, file, _) => Wellformed(c) && IsWordText(file)
    case TPipe(l, r) => Wellformed(l) && Wellformed(r)
    case TList(l, r) => Wellformed(l) && Wellformed(r)
    case TBack(c) => Wellformed(c)
  }

  /** Words separated by one blank. */
  function Joined(argv: seq<string>): (s: string) {
    if argv == [] then [] else if |argv| == 1 then argv[0] else argv[0] + (" " + Joined(argv[1..]))
  }

  function Parens(s: string, rest: string): (r: string) {
    "(" + (s + (")" + rest))
  }

  /** A command printed with all its parentheses. */
  function Print(t: Tree): (s: string) {
    match t
    case TExec(argv) => Joined(argv)
    case TRedir(c, file, mode) => Parens(Print(c), (if mode == Read then "<" else ">") + file)
    case TPipe(l, r) => Parens(Print(l), "|" + Parens(Print(r), ""))
    case TList(l, r) => Parens(Print(l), ";" + Parens(Print(r), ""))
    case TBack(c) => Parens(Print(c), "&")
  }

  function Bare(argv: seq<string>): (args: seq<Arg>) {
    if argv == [] then [] else [Arg(argv[0], [])] + Bare(argv[1..])
  }

  /** The line of the grammar that is printed. */
  function Full(t: Tree): (l: Line) {
    match t
    case TExec(argv) => Last(One(Simple([], Bare(argv))), 0)
    case TRedir(c, file, mode) =>
      Last(One(Block(Full(c), [File(if mode == Read then Input else Output, file)])), 0)
    case TPipe(l, r) => Last(Piped(Block(Full(l), []), One(Block(Full(r), []))), 0)
    case TList(l, r) => Then(One(Block(Full(l), [])), 0, Last(One(Block(Full(r), [])), 0))
    case TBack(c) => Last(One(Block(Full(c), [])), 1)
  }

  function Sym(c: char): (ps: seq<Piece>) {
    [PSym(Symbol(c))]
  }

  /** A command in parentheses. */
  function Enclosed(ps: seq<Piece>, rest: seq<Piece>): (r: seq<Piece>) {
    Sym('(') + (ps + (Sym(')') + rest))
  }

  function RedirPieces(mode: Mode, file: string): (ps: seq<Piece>) {
    [PSym(Symbol(if mode == Read then '<' else '>')), PWord(file)]
  }

  lemma {:induction false} BareWords(argv: seq<string>)
    ensures Words(Bare(argv)) == argv && Files(Bare(argv)) == [] && |Bare(argv)| == |argv|
    decreases |argv|
  {
    if argv != [] { BareWords(argv[1..]); }
  }

  lemma Nothing<T>(a: seq<T>)
    ensures [] + a == a && a + [] == a
  {
  }

  lemma ExecIs(argv: seq<string>)
    requires |argv| < MAXARGS
    ensures var l := Full(TExec(argv)); Short(l) && LineTree(l) == TExec(argv) && LinePieces(l) == ArgPieces(Bare(argv))
  {
    BareWords(argv);
    var e := Simple([], Bare(argv));
    assert FilePieces([]) == [];
    Nothing(ArgPieces(Bare(argv)));
    assert ElementPieces(e) == ArgPieces(Bare(argv)) && ElementTree(e) == Redirected(TExec(argv), [] + []);
    OneIs(e);
    assert BackPieces(0) == [];
  }

  lemma RedirIs(l: Line, file: string, mode: Mode)
    ensures var r := Last(One(Block(l, [File(if mode == Read then Input else Output, file)])), 0);
      && (Short(l) ==> Short(r)) && LineTree(r) == TRedir(LineTree(l), file, mode)
      && LinePieces(r) == Enclosed(LinePieces(l), RedirPieces(mode, file))
  {
    var f := File(if mode == Read then Input else Output, file);
    var e := Block(l, [f]);
    assert FilePieces([f]) == RedirPieces(mode, file);
    assert Redirected(LineTree(l), [f]) == TRedir(LineTree(l), file, mode);
    assert PipeTree(One(e)) == Redirected(LineTree(l), [f]);
    assert PipePieces(One(e)) == Enclosed(LinePieces(l), FilePieces([f]));
    assert ShortPipes(One(e)) == Short(l);
  }

  lemma BlockIs(l: Line)
    ensures var e := Block(l, []);
      (Short(l) ==> ShortElement(e)) && ElementTree(e) == LineTree(l) && ElementPieces(e) == Enclosed(LinePieces(l), [])
  {
  }

  lemma OneIs(e: Element)
    ensures (ShortElement(e) ==> ShortPipes(One(e))) && PipeTree(One(e)) == ElementTree(e)
    ensures PipePieces(One(e)) == ElementPieces(e)
  {
  }

  lemma PipeIs(l: Line, r: Line)
    ensures var p := Last(Piped(Block(l, []), One(Block(r, []))), 0);
      && (Short(l) && Short(r) ==> Short(p)) && LineTree(p) == TPipe(LineTree(l), LineTree(r))
      && LinePieces(p) == Enclosed(LinePieces(l), Sym('|') + Enclosed(LinePieces(r), []))
  {
    BlockIs(l);
    BlockIs(r);
    OneIs(Block(r, []));
    var pipes := Piped(Block(l, []), One(Block(r, [])));
    assert PipeTree(pipes) == TPipe(LineTree(l), LineTree(r));
    assert PipePieces(pipes) == Enclosed(LinePieces(l), []) + (Sym('|') + Enclosed(LinePieces(r), []));
    assert PipePieces(pipes) + [] == PipePieces(pipes);
  }

  lemma ListIs(l: Line, r: Line)
    ensures var p := Then(One(Block(l, [])), 0, Last(One(Block(r, [])), 0));
      && (Short(l) && Short(r) ==> Short(p)) && LineTree(p) == TList(LineTree(l), LineTree(r))
      && LinePieces(p) == Enclosed(LinePieces(l), Sym(';') + Enclosed(LinePieces(r), []))
  {
    BlockIs(l);
    BlockIs(r);
    OneIs(Block(l, []));
    OneIs(Block(r, []));
    var last := Last(One(Block(r, [])), 0);
    assert LineTree(last) == LineTree(r) && Short(last) == ShortPipes(last.pipes);
    assert LinePieces(last) == Enclosed(LinePieces(r), []) + [] == Enclosed(LinePieces(r), []);
    assert Enclosed(LinePieces(l), []) + ([] + (Sym(';') + LinePieces(last)))
        == Enclosed(LinePieces(l), Sym(';') + LinePieces(last));
  }

  lemma BackIs(l: Line)
    ensures var p := Last(One(Block(l, [])), 1);
      && (Short(l) ==> Short(p)) && LineTree(p) == TBack(LineTree(l))
      && LinePieces(p) == Enclosed(LinePieces(l), Sym('&'))
  {
    BlockIs(l);
    OneIs(Block(l, []));
    assert BackPieces(1) == Sym('&');
    assert Backed(LineTree(l), 1) == TBack(LineTree(l));
  }

  // ---- the printed text ---------------------------------------------------

  lemma BothPieces(a: seq<Piece>, b: seq<Piece>)
    requires ArePieces(a) && ArePieces(b)
    ensures ArePieces(a + b)
  {
  }

  /** Tokens that begin with no word and no redirection are set close to those before. */
  lemma {:induction false} PlainClose(a: seq<Piece>, b: seq<Piece>)
    requires ArePieces(a) && ArePieces(b) && (b == [] || !(b[0].PWord? || IsSign(b[0])))
    ensures ArePieces(a + b) && Plain(a + b) == Plain(a) + Plain(b)
    decreases |a|
  {
    BothPieces(a, b);
    if a == [] {
      assert a + b == b;
    } else {
      var more := a[1..];
      PlainClose(more, b);
      assert (a + b)[1..] == more + b && (a + b)[0] == a[0] && GapBehind(a + b) == GapBehind(a);
      Associates(GapBehind(a), Plain(more), Plain(b));
      Associates(PieceText(a[0]), GapBehind(a) + Plain(more), Plain(b));
    }
  }

  lemma PlainSym(c: char, ps: seq<Piece>)
    requires ArePieces(ps) && IsSymbol(c) && (c == '>' ==> ps == [] || !IsSign(ps[0]))
    ensures ArePieces(Sym(c) + ps) && Plain(Sym(c) + ps) == [c] + Plain(ps)
  {
    BothPieces(Sym(c), ps);
    assert (Sym(c) + ps)[1..] == ps && GapBehind(Sym(c) + ps) == "";
  }

  lemma PlainEnclosed(ps: seq<Piece>, rest: seq<Piece>)
    requires ArePieces(ps) && ArePieces(rest)
    ensures ArePieces(Enclosed(ps, rest)) && Plain(Enclosed(ps, rest)) == Parens(Plain(ps), Plain(rest))
  {
    PlainSym(')', rest);
    PlainClose(ps, Sym(')') + rest);
    PlainSym('(', ps + (Sym(')') + rest));
  }

  lemma {:induction false} PlainWords(argv: seq<string>)
    requires forall i :: 0 <= i < |argv| ==> IsWordText(argv[i])
    ensures ArePieces(ArgPieces(Bare(argv))) && Plain(ArgPieces(Bare(argv))) == Joined(argv)
    decreases |argv|
  {
    if argv != [] {
      var more := ArgPieces(Bare(argv[1..]));
      PlainWords(argv[1..]);
      assert ArgPieces(Bare(argv)) == [PWord(argv[0])] + more;
      BothPieces([PWord(argv[0])], more);
      assert ([PWord(argv[0])] + more)[1..] == more;
      assert |argv| > 1 ==> more[0] == PWord(argv[1]);
    }
  }

  /** l is a line with tree t, and t's printing is its tokens. */
  ghost predicate Prints(t: Tree, l: Line) {
    Short(l) && LineTree(l) == t && ArePieces(LinePieces(l)) && Plain(LinePieces(l)) == Print(t)
  }

  lemma RedirPrints(t: Tree, l: Line)
    requires t.TRedir? && IsWordText(t.file) && Prints(t.cmd, l)
    ensures Prints(t, Last(One(Block(l, [File(if t.mode == Read then Input else Output, t.file)])), 0))
  {
    RedirIs(l, t.file, t.mode);
    PlainRedir(t.mode, t.file);
    PlainEnclosed(LinePieces(l), RedirPieces(t.mode, t.file));
  }

  lemma PipePrints(t: Tree, l: Line, r: Line)
    requires t.TPipe? && Prints(t.left, l) && Prints(t.right, r)
    ensures Prints(t, Last(Piped(Block(l, []), One(Block(r, []))), 0))
  {
    PipeIs(l, r);
    PlainTwo(LinePieces(l), '|', LinePieces(r));
  }

  lemma ListPrints(t: Tree, l: Line, r: Line)
    requires t.TList? && Prints(t.left, l) && Prints(t.right, r)
    ensures Prints(t, Then(One(Block(l, [])), 0, Last(One(Block(r, [])), 0)))
  {
    ListIs(l, r);
    PlainTwo(LinePieces(l), ';', LinePieces(r));
  }

  lemma BackPrints(t: Tree, l: Line)
    requires t.TBack? && Prints(t.cmd, l)
    ensures Prints(t, Last(One(Block(l, [])), 1))
  {
    BackIs(l);
    PlainBack(LinePieces(l));
  }

  /** What is printed is the tokens of a line. */
  lemma {:induction false} FullPrints(t: Tree)
    requires Wellformed(t)
    ensures Prints(t, Full(t))
  {
    match t
    case TExec(argv) =>
      ExecIs(argv);
      PlainWords(argv);
    case TRedir(c, _, _) =>
      FullPrints(c);
      RedirPrints(t, Full(c));
    case TPipe(l, r) =>
      FullPrints(l);
      FullPrints(r);
      PipePrints(t, Full(l), Full(r));
    case TList(l, r) =>
      FullPrints(l);
      FullPrints(r);
      ListPrints(t, Full(l), Full(r));
    case TBack(c) =>
      FullPrints(c);
      BackPrints(t, Full(c));
  }

  lemma PlainBack(ps: seq<Piece>)
    requires ArePieces(ps)
    ensures ArePieces(Enclosed(ps, Sym('&'))) && Plain(Enclosed(ps, Sym('&'))) == Parens(Plain(ps), "&")
  {
    Nothing(Sym('&'));
    PlainSym('&', []);
    assert Plain(Sym('&')) == "&";
    PlainEnclosed(ps, Sym('&'));
  }

  lemma PlainRedir(mode: Mode, file: string)
    requires IsWordText(file)
    ensures ArePieces(RedirPieces(mode, file))
    ensures Plain(RedirPieces(mode, file)) == (if mode == Read then "<" else ">") + file
  {
    var c := if mode == Read then '<' else '>';
    assert RedirPieces(mode, file) == Sym(c) + [PWord(file)];
    assert Plain([PWord(file)]) == file + ("" + "") == file;
    PlainSym(c, [PWord(file)]);
  }

  lemma PlainTwo(a: seq<Piece>, sep: char, b: seq<Piece>)
    requires ArePieces(a) && ArePieces(b) && (sep == '|' || sep == ';')
    ensures var ps := Enclosed(a, Sym(sep) + Enclosed(b, []));
      ArePieces(ps) && Plain(ps) == Parens(Plain(a), [sep] + Parens(Plain(b), ""))
  {
    PlainEnclosed(b, []);
    PlainSym(sep, Enclosed(b, []));
    PlainEnclosed(a, Sym(sep) + Enclosed(b, []));
  }

  /** Parsing the printing of a command gives the command. */
  lemma ParsePrint(t: Tree)
    requires Wellformed(t)
    ensures var r := ParseCmd(Print(t)); r.Parsed? && r.pos == |Print(t)| && TreeOf(Print(t), r.cmd) == t
  {
    FullPrints(t);
    ParsePlain(Full(t));
  }
}
