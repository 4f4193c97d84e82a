/**
 The parser as it runs: a cursor that loops advance over the line.  Every
 method is proved to compute the parsing function of the same name.
 */
module ShellParser {
  import opened ShellSyntax
  import Grammar = ShellGrammar

  class Parser {
    const buf: string
    var s: nat          // *ps

    constructor (buf: string)
      ensures this.buf == buf && s == 0
    {
      this.buf := buf;
      s := 0;
    }

    ghost predicate Valid()
      reads this
    {
      s <= |buf|
    }

    method SkipSpace()
      requires Valid()
      modifies this
      ensures s == Skip(buf, old(s))
    {
      while s < |buf| && IsSpace(buf[s])
        invariant old(s) <= s <= |buf| && Skip(buf, s) == Skip(buf, old(s))
      {
        s := s + 1;
      }
    }

    method Gettoken() returns (kind: Kind, q: nat, eq: nat)
      requires Valid()
      modifies this
      ensures Token(kind, q, eq, s) == GetToken(buf, old(s)) && Valid()
    {
      SkipSpace();
      q := s;
      if s == |buf| {
        kind := End;
      } else if buf[s] == '>' {
        kind := Symbol('>');
        s := s + 1;
        if s < |buf| && buf[s] == '>' {
          kind := Append;
          s := s + 1;
        }
      } else if IsSymbol(buf[s]) {
        kind := Symbol(buf[s]);
        s := s + 1;
      } else {
        kind := Word;
        while s < |buf| && !IsSpace(buf[s]) && !IsSymbol(buf[s])
          invariant q <= s <= |buf| && WordEnd(buf, s) == WordEnd(buf, q)
        {
          s := s + 1;
        }
      }
      eq := s;
      SkipSpace();
    }

    method Peek(toks: string) returns (r: bool)
      requires Valid()
      modifies this
      ensures s == Skip(buf, old(s)) && r == Sees(buf, old(s), toks)
    {
      SkipSpace();
      r := s < |buf| && buf[s] in toks;
    }

    lemma SkipTwice(p: nat)
      requires p <= |buf|
      ensures Skip(buf, Skip(buf, p)) == Skip(buf, p)
      ensures GetToken(buf, Skip(buf, p)) == GetToken(buf, p)
      ensures forall toks :: Sees(buf, Skip(buf, p), toks) == Sees(buf, p, toks)
    {
    }

    /** parseredirs, for the redirections already wrapped round the command. */
    method Parseredirs(rds: seq<Redirection>) returns (ok: bool, r: seq<Redirection>)
      requires Valid()
      modifies this
      ensures Valid() && ok == ScanRedirs(buf, old(s), rds).RedirsOk?
      ensures ok ==> ScanRedirs(buf, old(s), rds) == RedirsOk(r, s)
    {
      r := rds;
      ghost var p := s;
      var more := Peek("<>");
      while more
        invariant old(s) <= p <= s <= |buf| && s == Skip(buf, p) && more == Sees(buf, p, "<>")
        invariant ScanRedirs(buf, p, r) == ScanRedirs(buf, old(s), rds)
        decreases |buf| - p
      {
        SkipTwice(p);
        var tok, _, _ := Gettoken();
        var kind, q, eq := Gettoken();
        if kind != Word {
          return false, r;
        }
        r := r + [Redirection(Span(q, eq), if tok == Symbol('<') then Read else Write)];
        p := s;
        more := Peek("<>");
      }
      ok := true;
    }

    /** parseexec's loop over the words of a simple command. */
    method Parseargs(rds0: seq<Redirection>) returns (ok: bool, argv: seq<Span>, rds: seq<Redirection>)
      requires Valid()
      modifies this
      ensures Valid() && ok == ParseArgs(buf, old(s), [], rds0).Parsed?
      ensures ok ==> ParseArgs(buf, old(s), [], rds0) == Parsed(Wrap(Exec(argv), rds), s)
    {
      argv, rds := [], rds0;
      ghost var p := s;
      var stop := Peek("|)&;");
      while !stop
        invariant old(s) <= p <= s <= |buf| && s == Skip(buf, p) && stop == Sees(buf, p, "|)&;")
        invariant ParseArgs(buf, p, argv, rds) == ParseArgs(buf, old(s), [], rds0)
        decreases |buf| - p
      {
        SkipTwice(p);
        var tok, q, eq := Gettoken();
        if tok == End {
          return true, argv, rds;
        }
        if tok != Word {
          return false, argv, rds;
        }
        if |argv| + 1 >= MAXARGS {
          return false, argv, rds;
        }
        ghost var argv0, rds1 := argv, rds;
        ok, rds := Parseredirs(rds);
        if !ok {
          return;
        }
        argv := argv + [Span(q, eq)];
        p := s;
        stop := Peek("|)&;");
      }
      ok := true;
    }

    method Parseexec() returns (r: Parse)
      requires Valid()
      modifies this
      ensures Valid() && r == ParseExec(buf, old(s)) && (r.Parsed? ==> r.pos == s)
      decreases |buf| - s, 1
    {
      SkipTwice(s);
      ghost var p := s;
      var block := Peek("(");
      if block {
        BlockSkip(p);
        r := Parseblock();
        return;
      }
      RedirsSkip(p, []);
      var ok, rds := Parseredirs([]);
      if !ok {
        return Panic;
      }
      var argv;
      ok, argv, rds := Parseargs(rds);
      r := if ok then Parsed(Wrap(Exec(argv), rds), s) else Panic;
    }

    lemma RedirsSkip(p: nat, rds: seq<Redirection>)
      requires p <= |buf|
      ensures ScanRedirs(buf, Skip(buf, p), rds) == ScanRedirs(buf, p, rds)
    {
      SkipTwice(p);
    }

    lemma BlockSkip(p: nat)
      requires p <= |buf| && Sees(buf, p, "(")
      ensures Sees(buf, Skip(buf, p), "(") && ParseBlock(buf, Skip(buf, p)) == ParseBlock(buf, p)
    {
      SkipTwice(p);
    }

    method Parseblock() returns (r: Parse)
      requires Valid() && Sees(buf, s, "(")
      modifies this
      ensures Valid() && r == ParseBlock(buf, old(s)) && (r.Parsed? ==> r.pos == s)
      decreases |buf| - s, 0
    {
      var _, _, _ := Gettoken();
      r := Parseline();
      if r == Panic {
        return;
      }
      SkipTwice(s);
      var close := Peek(")");
      if !close {
        return Panic;
      }
      var _, _, _ := Gettoken();
      var ok, rds := Parseredirs([]);
      r := if ok then Parsed(Wrap(r.cmd, rds), s) else Panic;
    }

    method Parsepipe() returns (r: Parse)
      requires Valid()
      modifies this
      ensures Valid() && r == ParsePipe(buf, old(s)) && (r.Parsed? ==> r.pos == s)
      decreases |buf| - s, 2
    {
      r := Parseexec();
      if r == Panic {
        return;
      }
      SkipTwice(s);
      var bar := Peek("|");
      if bar {
        var _, _, _ := Gettoken();
        var right := Parsepipe();
        r := if right == Panic then Panic else Parsed(Pipe(r.cmd, right.cmd), s);
      } else {
        r := Parsed(r.cmd, s);
      }
    }

    method Parseline() returns (r: Parse)
      requires Valid()
      modifies this
      ensures Valid() && r == ParseLine(buf, old(s)) && (r.Parsed? ==> r.pos == s)
      decreases |buf| - s, 3
    {
      r := Parsepipe();
      if r == Panic {
        return;
      }
      var cmd := r.cmd;
      ghost var p := s;
      var amp := Peek("&");
      while amp
        invariant r.pos <= p <= s <= |buf| && s == Skip(buf, p) && amp == Sees(buf, p, "&")
        invariant ParseBacks(buf, p, cmd) == ParseBacks(buf, r.pos, r.cmd)
        decreases |buf| - p
      {
        SkipTwice(p);
        var _, _, _ := Gettoken();
        cmd := Back(cmd);
        p := s;
        amp := Peek("&");
      }
      SkipTwice(p);
      SkipTwice(s);
      var semi := Peek(";");
      if semi {
        var _, _, _ := Gettoken();
        var right := Parseline();
        r := if right == Panic then Panic else Parsed(List(cmd, right.cmd), s);
      } else {
        r := Parsed(cmd, s);
      }
    }

    /** parsecmd up to nulterminate: a tree for the lines of the grammar, and a panic for all other texts. */
    method Parsecmd() returns (r: Parse)
      requires s == 0
      modifies this
      ensures r == ParseCmd(buf)
      ensures r.Parsed? ==> exists l :: Grammar.Derives(buf, l, Grammar.TreeOf(buf, r.cmd))
      ensures forall l, t :: Grammar.Derives(buf, l, t) ==> r.Parsed? && Grammar.TreeOf(buf, r.cmd) == t
    {
      forall l, t | Grammar.Derives(buf, l, t)
        ensures ParseCmd(buf).Parsed? && Grammar.TreeOf(buf, ParseCmd(buf).cmd) == t
      {
        Grammar.DerivedParses(buf, l, t);
      }
      if ParseCmd(buf).Parsed? { ghost var l := Grammar.ParsedDerives(buf); }
      r := Parseline();
      if r == Panic {
        return;
      }
      var _ := Peek("");
      r := if s != |buf| then Panic else Parsed(r.cmd, s);
    }
  }
}
