/**
 In-place NUL termination: after a successful parse every word of the command
 can be read as a C string from the overwritten line.
 */
module ShellTerminate {
  import opened ShellSyntax

  const NUL := '\0'

  /** The words of a command, arguments and files. */
  function Words(cmd: Cmd): (ws: seq<Span>) {
    match cmd
    case Exec(argv) => argv
    case Redir(c, file, _) => Words(c) + [file]
    case Pipe(l, r) => Words(l) + Words(r)
    case List(l, r) => Words(l) + Words(r)
    case Back(c) => Words(c)
  }

  ghost predicate AllWords(buf: string, ws: seq<Span>) {
    forall w :: w in ws ==> IsWord(buf, w.q, w.eq)
  }

  ghost predicate AllFiles(buf: string, rds: seq<Redirection>) {
    forall r :: r in rds ==> IsWord(buf, r.file.q, r.file.eq)
  }

  // ---- the parser records maximal words -----------------------------------

  lemma {:induction false} WrapWords(buf: string, cmd: Cmd, rds: seq<Redirection>)
    requires AllWords(buf, Words(cmd)) && AllFiles(buf, rds)
    ensures AllWords(buf, Words(Wrap(cmd, rds)))
  {
    if rds != [] {
      var init, last := rds[..|rds| - 1], rds[|rds| - 1];
      assert last in rds && forall r :: r in init ==> r in rds;
      WrapWords(buf, cmd, init);
    }
  }

  lemma {:induction false} ScanRedirsWords(buf: string, p: nat, rds: seq<Redirection>)
    requires p <= |buf| && AllFiles(buf, rds)
    ensures ScanRedirs(buf, p, rds).RedirsOk? ==> AllFiles(buf, ScanRedirs(buf, p, rds).rds)
    decreases |buf| - p
  {
    if Sees(buf, p, "<>") {
      var t := GetToken(buf, p);
      var w := GetToken(buf, t.next);
      if w.kind == Word {
        var mode := if t.kind == Symbol('<') then Read else Write;
        ScanRedirsWords(buf, w.next, rds + [Redirection(Span(w.q, w.eq), mode)]);
      }
    }
  }

  lemma {:induction false} ParseArgsWords(buf: string, p: nat, argv: seq<Span>, rds: seq<Redirection>)
    requires p <= |buf| && AllWords(buf, argv) && AllFiles(buf, rds)
    ensures ParseArgs(buf, p, argv, rds).Parsed? ==> AllWords(buf, Words(ParseArgs(buf, p, argv, rds).cmd))
    decreases |buf| - p
  {
    WrapWords(buf, Exec(argv), rds);
    var t := GetToken(buf, p);
    if !Sees(buf, p, "|)&;") && t.kind == Word && |argv| + 1 < MAXARGS {
      ScanRedirsWords(buf, t.next, rds);
      var r := ScanRedirs(buf, t.next, rds);
      if r.RedirsOk? {
        ParseArgsWords(buf, r.pos, argv + [Span(t.q, t.eq)], r.rds);
      }
    }
  }

  ghost predicate Recorded(buf: string, r: Parse) {
    r.Parsed? ==> AllWords(buf, Words(r.cmd))
  }

  lemma {:induction false} ParseExecWords(buf: string, p: nat)
    requires p <= |buf|
    ensures Recorded(buf, ParseExec(buf, p))
    decreases |buf| - p, 1
  {
    if Sees(buf, p, "(") {
      ParseBlockWords(buf, p);
    } else {
      ScanRedirsWords(buf, p, []);
      var r := ScanRedirs(buf, p, []);
      if r.RedirsOk? { ParseArgsWords(buf, r.pos, [], r.rds); }
    }
  }

  lemma {:induction false} ParseBlockWords(buf: string, p: nat)
    requires p <= |buf| && Sees(buf, p, "(")
    ensures Recorded(buf, ParseBlock(buf, p))
    decreases |buf| - p, 0
  {
    var p0 := GetToken(buf, p).next;
    ParseLineWords(buf, p0);
    var r := ParseLine(buf, p0);
    if r.Parsed? && Sees(buf, r.pos, ")") {
      var p1 := GetToken(buf, r.pos).next;
      ScanRedirsWords(buf, p1, []);
      var rd := ScanRedirs(buf, p1, []);
      if rd.RedirsOk? { WrapWords(buf, r.cmd, rd.rds); }
    }
  }

  lemma {:induction false} ParsePipeWords(buf: string, p: nat)
    requires p <= |buf|
    ensures Recorded(buf, ParsePipe(buf, p))
    decreases |buf| - p, 2
  {
    ParseExecWords(buf, p);
    var r := ParseExec(buf, p);
    if r.Parsed? && Sees(buf, r.pos, "|") { ParsePipeWords(buf, GetToken(buf, r.pos).next); }
  }

  lemma {:induction false} ParseBacksWords(buf: string, p: nat, cmd: Cmd)
    requires p <= |buf|
    ensures Words(ParseBacks(buf, p, cmd).0) == Words(cmd)
    decreases |buf| - p
  {
    if Sees(buf, p, "&") { ParseBacksWords(buf, GetToken(buf, p).next, Back(cmd)); }
  }

  lemma {:induction false} ParseLineWords(buf: string, p: nat)
    requires p <= |buf|
    ensures Recorded(buf, ParseLine(buf, p))
    decreases |buf| - p, 3
  {
    ParsePipeWords(buf, p);
    var r := ParsePipe(buf, p);
    if r.Parsed? {
      ParseBacksWords(buf, r.pos, r.cmd);
      var (cmd, p2) := ParseBacks(buf, r.pos, r.cmd);
      if Sees(buf, p2, ";") { ParseLineWords(buf, GetToken(buf, p2).next); }
    }
  }

  // ---- nulterminate -------------------------------------------------------

  /** The line with a NUL written at the end of every word in ws. */
  function Terminated(a: seq<char>, ws: seq<Span>): (r: seq<char>)
    ensures |r| == |a|
  {
    if ws == [] then a
    else
      var b := Terminated(a, ws[..|ws| - 1]);
      var e := ws[|ws| - 1].eq;
      if e < |b| then b[e := NUL] else b
  }

  lemma {:induction false} TerminatedConcat(a: seq<char>, v: seq<Span>, w: seq<Span>)
    ensures Terminated(a, v + w) == Terminated(Terminated(a, v), w)
  {
    if w == [] {
      assert v + w == v;
    } else {
      TerminatedConcat(a, v, w[..|w| - 1]);
      assert (v + w)[..|v + w| - 1] == v + w[..|w| - 1];
    }
  }

  /** nulterminate writes exactly at the ends of words. */
  lemma {:induction false} TerminatedAt(a: seq<char>, ws: seq<Span>, i: nat)
    requires i < |a|
    ensures Terminated(a, ws)[i] == if exists w :: w in ws && w.eq == i then NUL else a[i]
  {
    if ws != [] {
      var init, last := ws[..|ws| - 1], ws[|ws| - 1];
      TerminatedAt(a, init, i);
      assert forall w :: w in ws <==> w in init || w == last;
    }
  }

  /** The C string at address q. */
  function CString(a: seq<char>, q: nat): (s: string)
    decreases if q < |a| then |a| - q else 0
  {
    if |a| <= q || a[q] == NUL then [] else [a[q]] + CString(a, q + 1)
  }

  lemma {:induction false} CStringIs(a: seq<char>, q: nat, e: nat)
    requires q <= e < |a| && a[e] == NUL && forall i :: q <= i < e ==> a[i] != NUL
    ensures CString(a, q) == a[q..e]
    decreases e - q
  {
    if q < e {
      CStringIs(a, q + 1, e);
      assert a[q..e] == [a[q]] + a[q + 1..e];
    }
  }

  /** A terminator at the end of a maximal word is never inside another one. */
  lemma InsideUntouched(buf: string, ws: seq<Span>, w: Span, i: nat)
    requires AllWords(buf, ws) && w in ws && w.q <= i < w.eq
    ensures i < |buf| && Terminated(buf + [NUL], ws)[i] == buf[i]
  {
    assert IsWord(buf, w.q, w.eq) && IsWordChar(buf[i]);
    TerminatedAt(buf + [NUL], ws, i);
    forall v | v in ws ensures v.eq != i {
      assert IsWord(buf, v.q, v.eq);
    }
  }

  lemma WordsReadBack(buf: string, ws: seq<Span>, w: Span)
    requires AllWords(buf, ws) && w in ws && NUL !in buf
    ensures w.q < w.eq <= |buf|
    ensures CString(Terminated(buf + [NUL], ws), w.q) == buf[w.q..w.eq]
  {
    var a := Terminated(buf + [NUL], ws);
    assert IsWord(buf, w.q, w.eq);
    TerminatedAt(buf + [NUL], ws, w.eq);
    forall i | w.q <= i < w.eq ensures a[i] == buf[i] && a[i] != NUL {
      InsideUntouched(buf, ws, w, i);
    }
    CStringIs(a, w.q, w.eq);
    assert a[w.q..w.eq] == buf[w.q..w.eq];
  }

  /**
   Reading any word of a parsed command from the overwritten line gives exactly
   the text that was lexed: no terminator lands inside another word.
   */
  lemma TerminationIsSafe(buf: string, w: Span)
    requires ParseCmd(buf).Parsed? && w in Words(ParseCmd(buf).cmd) && NUL !in buf
    ensures w.q < w.eq <= |buf|
    ensures CString(Terminated(buf + [NUL], Words(ParseCmd(buf).cmd)), w.q) == buf[w.q..w.eq]
  {
    ParseLineWords(buf, 0);
    WordsReadBack(buf, Words(ParseCmd(buf).cmd), w);
  }

  /** nulterminate on the buffer itself. */
  method Nulterminate(cmd: Cmd, a: array<char>)
    requires forall w :: w in Words(cmd) ==> w.eq < a.Length
    modifies a
    ensures a[..] == Terminated(old(a[..]), Words(cmd))
    decreases cmd
  {
    match cmd {
      case Exec(argv) =>
        var i := 0;
        while i < |argv|
          invariant 0 <= i <= |argv|
          invariant a[..] == Terminated(old(a[..]), argv[..i])
        {
          assert argv[i] in Words(cmd);
          a[argv[i].eq] := NUL;
          assert argv[..i + 1][..i] == argv[..i];
          i := i + 1;
        }
        assert argv[..i] == argv;
      case Redir(c, file, _) =>
        assert file in Words(cmd) && forall w :: w in Words(c) ==> w in Words(cmd);
        Nulterminate(c, a);
        a[file.eq] := NUL;
        assert (Words(c) + [file])[..|Words(c)|] == Words(c);
      case Pipe(l, r) =>
        assert forall w :: w in Words(l) || w in Words(r) ==> w in Words(cmd);
        TerminatedConcat(a[..], Words(l), Words(r));
        Nulterminate(l, a);
        Nulterminate(r, a);
      case List(l, r) =>
        assert forall w :: w in Words(l) || w in Words(r) ==> w in Words(cmd);
        TerminatedConcat(a[..], Words(l), Words(r));
        Nulterminate(l, a);
        Nulterminate(r, a);
      case Back(c) =>
        Nulterminate(c, a);
    }
  }
}
