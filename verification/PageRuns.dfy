/**
 The kernel's page allocator: a sorted list of free runs that are never
 adjacent, first fit on allocation, coalescing on free.
 */
module PageRuns {
  import opened Basics

  const PAGE := 4096

  /** len free bytes from address start on. */
  datatype Run = Run(start: nat, len: nat) {
    function End(): nat { start + len }
  }

  // ---- the free set -------------------------------------------------------

  /** The n bytes from a on. */
  function Span(a: nat, n: nat): (s: set<nat>)
    ensures forall x :: x in s <==> a <= x < a + n
  {
    if n == 0 then {} else Span(a, n - 1) + {a + (n - 1)}
  }

  /** The free bytes. */
  function Cover(runs: seq<Run>): (s: set<nat>) {
    if runs == [] then {} else Span(runs[0].start, runs[0].len) + Cover(runs[1..])
  }

  /** Runs in address order with used bytes between any two. */
  predicate Apart(runs: seq<Run>) {
    forall i, j :: 0 <= i < j < |runs| ==> runs[i].End() < runs[j].start
  }

  predicate Aligned(runs: seq<Run>) {
    forall i :: 0 <= i < |runs| ==> runs[i].start % PAGE == 0 && runs[i].len % PAGE == 0 && 0 < runs[i].len
  }

  predicate Good(runs: seq<Run>) {
    Apart(runs) && Aligned(runs)
  }

  // ---- kfree --------------------------------------------------------------

  /** The list after kfree(p, n): the runs before p, p joined with its neighbours, the runs after it. */
  function Insert(runs: seq<Run>, p: nat, n: nat): (r: seq<Run>) {
    if runs == [] || p + n < runs[0].start then [Run(p, n)] + runs
    else if p + n == runs[0].start then [Run(p, n + runs[0].len)] + runs[1..]
    else if runs[0].End() == p then
      if 1 < |runs| && runs[1].start == p + n then [Run(runs[0].start, runs[0].len + n + runs[1].len)] + runs[2..]
      else [Run(runs[0].start, runs[0].len + n)] + runs[1..]
    else [runs[0]] + Insert(runs[1..], p, n)
  }

  lemma {:induction false} CoverIn(runs: seq<Run>, x: nat)
    ensures x in Cover(runs) <==> exists i :: 0 <= i < |runs| && runs[i].start <= x < runs[i].End()
  {
    if runs != [] {
      CoverIn(runs[1..], x);
      if x in Cover(runs) && x !in Span(runs[0].start, runs[0].len) {
        var i :| 0 <= i < |runs[1..]| && runs[1..][i].start <= x < runs[1..][i].End();
        assert runs[i + 1].start <= x < runs[i + 1].End();
      }
      if i :| 0 <= i < |runs| && runs[i].start <= x < runs[i].End() {
        if i > 0 { assert runs[1..][i - 1].start <= x < runs[1..][i - 1].End(); }
      }
    }
  }

  lemma CoverCons(r: Run, runs: seq<Run>)
    ensures Cover([r] + runs) == Span(r.start, r.len) + Cover(runs)
  {
    assert ([r] + runs)[1..] == runs;
  }

  lemma SpanJoin(a: nat, m: nat, n: nat)
    ensures Span(a, m + n) == Span(a, m) + Span(a + m, n)
  {
  }

  /** kfree gives back exactly the range. */
  lemma {:induction false} InsertCover(runs: seq<Run>, p: nat, n: nat)
    ensures Cover(Insert(runs, p, n)) == Cover(runs) + Span(p, n)
  {
    if runs == [] || p + n < runs[0].start {
      CoverCons(Run(p, n), runs);
    } else if p + n == runs[0].start {
      CoverCons(Run(p, n + runs[0].len), runs[1..]);
      SpanJoin(p, n, runs[0].len);
    } else if runs[0].End() == p {
      JoinCover(runs, p, n);
    } else {
      InsertCover(runs[1..], p, n);
      CoverCons(runs[0], Insert(runs[1..], p, n));
    }
  }

  lemma JoinCover(runs: seq<Run>, p: nat, n: nat)
    requires runs != [] && runs[0].End() == p && runs[0].start < p + n
    ensures Cover(Insert(runs, p, n)) == Cover(runs) + Span(p, n)
  {
    var a := runs[0];
    if 1 < |runs| && runs[1].start == p + n {
      FillCover(runs, p, n);
    } else {
      CoverCons(Run(a.start, a.len + n), runs[1..]);
      SpanJoin(a.start, a.len, n);
    }
  }

  /** The range fills the space between the first two runs. */
  lemma FillCover(runs: seq<Run>, p: nat, n: nat)
    requires 1 < |runs| && runs[0].End() == p && runs[1].start == p + n
    ensures Cover([Run(runs[0].start, runs[0].len + n + runs[1].len)] + runs[2..]) == Cover(runs) + Span(p, n)
  {
    var a, b, all := runs[0], runs[1], Run(runs[0].start, runs[0].len + n + runs[1].len);
    assert Span(all.start, all.len) == Span(a.start, a.len) + Span(p, n) + Span(b.start, b.len) by {
      SpanJoin(a.start, a.len, n);
      SpanJoin(a.start, a.len + n, b.len);
    }
    CoverCons(all, runs[2..]);
    CoverTwo(runs);
  }

  lemma CoverTwo(runs: seq<Run>)
    requires 1 < |runs|
    ensures Cover(runs) == Span(runs[0].start, runs[0].len) + (Span(runs[1].start, runs[1].len) + Cover(runs[2..]))
  {
    assert runs[1..][1..] == runs[2..];
  }

  lemma Prepend(r: Run, runs: seq<Run>)
    requires Apart(runs) && (runs != [] ==> r.End() < runs[0].start)
    ensures Apart([r] + runs)
  {
    var s := [r] + runs;
    forall i, j | 0 <= i < j < |s| ensures s[i].End() < s[j].start {
      if i == 0 && j > 1 { assert runs[0].End() < runs[j - 1].start; }
    }
  }

  /** The first run of the new list starts no earlier than the smaller of the old first one and p. */
  lemma InsertFirst(runs: seq<Run>, p: nat, n: nat, lo: nat)
    requires (runs != [] ==> lo < runs[0].start) && lo < p
    ensures lo < Insert(runs, p, n)[0].start
  {
  }

  /** A first run that does not touch the range and is not behind it lies before it. */
  lemma FirstIsBefore(runs: seq<Run>, p: nat, n: nat)
    requires Good(runs) && runs != [] && 0 < n && Cover(runs) !! Span(p, n)
    requires runs[0].start < p + n && runs[0].End() != p
    ensures runs[0].End() < p
    ensures Cover(runs[1..]) !! Span(p, n)
  {
    var a := runs[0];
    assert p in Span(p, n) && p !in Span(a.start, a.len);
    assert a.start in Span(a.start, a.len) && a.start !in Span(p, n);
  }

  /** Freeing a range that is in use keeps the runs sorted, aligned and never adjacent. */
  lemma {:induction false} InsertGood(runs: seq<Run>, p: nat, n: nat)
    requires Good(runs) && p % PAGE == 0 && n % PAGE == 0 && 0 < n && Cover(runs) !! Span(p, n)
    ensures Good(Insert(runs, p, n))
  {
    if runs == [] || p + n < runs[0].start {
      PrependGood(Run(p, n), runs);
    } else if p + n == runs[0].start {
      FrontGood(runs, p, n);
    } else if runs[0].End() == p {
      JoinGood(runs, p, n);
    } else {
      FirstIsBefore(runs, p, n);
      InsertGood(runs[1..], p, n);
      PastGood(runs, p, n);
    }
  }

  lemma FrontGood(runs: seq<Run>, p: nat, n: nat)
    requires Good(runs) && runs != [] && p % PAGE == 0 && n % PAGE == 0 && 0 < n && p + n == runs[0].start
    ensures Good([Run(p, n + runs[0].len)] + runs[1..])
  {
    assert (n + runs[0].len) % PAGE == 0;
    PrependGood(Run(p, n + runs[0].len), runs[1..]);
  }

  lemma PastGood(runs: seq<Run>, p: nat, n: nat)
    requires Good(runs) && runs != [] && runs[0].End() < p && Good(Insert(runs[1..], p, n))
    ensures Good([runs[0]] + Insert(runs[1..], p, n))
  {
    InsertFirst(runs[1..], p, n, runs[0].End());
    PrependGood(runs[0], Insert(runs[1..], p, n));
  }

  lemma PrependGood(r: Run, runs: seq<Run>)
    requires Good(runs) && (runs != [] ==> r.End() < runs[0].start)
    requires r.start % PAGE == 0 && r.len % PAGE == 0 && 0 < r.len
    ensures Good([r] + runs)
  {
    Prepend(r, runs);
  }

  /** The first run grows at its end, and takes in the second if they now touch. */
  lemma GrowGood(runs: seq<Run>, n: nat, r: seq<Run>)
    requires Good(runs) && runs != [] && n % PAGE == 0
    requires 1 < |runs| ==> runs[0].End() + n <= runs[1].start
    requires r == if 1 < |runs| && runs[1].start == runs[0].End() + n
      then [Run(runs[0].start, runs[0].len + n + runs[1].len)] + runs[2..]
      else [Run(runs[0].start, runs[0].len + n)] + runs[1..]
    ensures Good(r)
  {
    var a := runs[0];
    assert (a.len + n) % PAGE == 0;
    if 1 < |runs| && runs[1].start == a.End() + n {
      assert (a.len + n + runs[1].len) % PAGE == 0;
      PrependGood(Run(a.start, a.len + n + runs[1].len), runs[2..]);
    } else {
      PrependGood(Run(a.start, a.len + n), runs[1..]);
    }
  }

  lemma JoinGood(runs: seq<Run>, p: nat, n: nat)
    requires Good(runs) && runs != [] && n % PAGE == 0 && 0 < n && Cover(runs) !! Span(p, n)
    requires runs[0].End() == p
    ensures Good(Insert(runs, p, n))
  {
    if 1 < |runs| {
      CoverIn(runs, runs[1].start);
      assert runs[1].start in Cover(runs) && runs[1].start !in Span(p, n);
    }
    GrowGood(runs, n, Insert(runs, p, n));
  }

  // ---- kalloc -------------------------------------------------------------

  /** First fit: the whole run when it has the size, else the end of a larger one. */
  function Take(runs: seq<Run>, n: nat): (r: Option<(nat, seq<Run>)>) {
    if runs == [] then None
    else if runs[0].len == n then Some((runs[0].start, runs[1..]))
    else if runs[0].len > n then Some((runs[0].start + (runs[0].len - n),
      [Run(runs[0].start, runs[0].len - n)] + runs[1..]))
    else
      match Take(runs[1..], n)
      case None => None
      case Some((a, rest)) => Some((a, [runs[0]] + rest))
  }

  lemma CoverTail(runs: seq<Run>)
    requires Apart(runs) && runs != []
    ensures Span(runs[0].start, runs[0].len) !! Cover(runs[1..])
  {
    forall x | x in Cover(runs[1..]) ensures x !in Span(runs[0].start, runs[0].len) {
      CoverIn(runs[1..], x);
      var i :| 0 <= i < |runs[1..]| && runs[1..][i].start <= x < runs[1..][i].End();
      assert runs[0].End() < runs[i + 1].start;
    }
  }

  /** kalloc takes exactly n free bytes. */
  lemma {:induction false} TakeCover(runs: seq<Run>, n: nat)
    requires Apart(runs) && Take(runs, n).Some?
    ensures var (a, rest) := Take(runs, n).value;
      Span(a, n) <= Cover(runs) && Cover(rest) == Cover(runs) - Span(a, n)
  {
    var (a, rest) := Take(runs, n).value;
    var r := runs[0];
    CoverTail(runs);
    if r.len == n {
    } else if r.len > n {
      assert rest[1..] == runs[1..];
      assert Span(r.start, r.len) == Span(r.start, r.len - n) + Span(a, n);
      assert Span(r.start, r.len - n) !! Span(a, n);
    } else {
      TakeCover(runs[1..], n);
      assert rest[1..] == Take(runs[1..], n).value.1;
    }
  }

  /** kalloc keeps the list in order. */
  lemma {:induction false} TakeGood(runs: seq<Run>, n: nat)
    requires Good(runs) && n % PAGE == 0 && Take(runs, n).Some?
    ensures var (a, rest) := Take(runs, n).value;
      a % PAGE == 0 && Good(rest) && (rest != [] ==> runs[0].start <= rest[0].start)
  {
    var r := runs[0];
    if r.len == n {
    } else if r.len > n {
      ShrinkGood(runs, n);
    } else {
      TakeGood(runs[1..], n);
      PrependGood(r, Take(runs[1..], n).value.1);
    }
  }

  lemma ShrinkGood(runs: seq<Run>, n: nat)
    requires Good(runs) && runs != [] && n % PAGE == 0 && n < runs[0].len
    ensures var r := runs[0];
      (r.start + (r.len - n)) % PAGE == 0 && Good([Run(r.start, r.len - n)] + runs[1..])
  {
    var r := runs[0];
    assert (r.len - n) % PAGE == 0;
    PrependGood(Run(r.start, r.len - n), runs[1..]);
  }

  /** n free bytes in a row lie within one run, because runs are never adjacent. */
  lemma ContiguousInOneRun(runs: seq<Run>, a: nat, n: nat)
    requires Apart(runs) && 0 < n && Span(a, n) <= Cover(runs)
    ensures exists i :: 0 <= i < |runs| && runs[i].start <= a && a + n <= runs[i].End()
  {
    assert a in Span(a, n);
    CoverIn(runs, a);
    var i :| 0 <= i < |runs| && runs[i].start <= a < runs[i].End();
    if runs[i].End() < a + n {
      var e := runs[i].End();
      assert e in Span(a, n);
      CoverIn(runs, e);
      assert false;
    }
  }

  lemma {:induction false} TakeNone(runs: seq<Run>, n: nat)
    ensures Take(runs, n) == None <==> forall i :: 0 <= i < |runs| ==> runs[i].len < n
  {
    if runs != [] {
      TakeNone(runs[1..], n);
      if Take(runs, n) == None {
        forall i | 0 <= i < |runs| ensures runs[i].len < n { if i > 0 { assert runs[1..][i - 1].len < n; } }
      } else if runs[0].len < n {
        var i :| 0 <= i < |runs[1..]| && runs[1..][i].len >= n;
        assert runs[i + 1].len >= n;
      }
    }
  }

  /** kalloc(n) fails iff no n contiguous bytes are free anywhere. */
  lemma AllocFailsIff(runs: seq<Run>, n: nat)
    requires Good(runs) && 0 < n
    ensures Take(runs, n) == None <==> forall a: nat :: !(Span(a, n) <= Cover(runs))
  {
    TakeNone(runs, n);
    if Take(runs, n) == None {
      forall a: nat ensures !(Span(a, n) <= Cover(runs)) {
        if Span(a, n) <= Cover(runs) {
          ContiguousInOneRun(runs, a, n);
          assert false;
        }
      }
    } else {
      var i :| 0 <= i < |runs| && runs[i].len >= n;
      var a := runs[i].start;
      forall x | x in Span(a, n) ensures x in Cover(runs) { CoverIn(runs, x); }
      assert Span(a, n) <= Cover(runs);
    }
  }

  // ---- where the walks stop -----------------------------------------------

  /** Where the search stops, the list is rebuilt around position i. */
  lemma InsertHere(runs: seq<Run>, i: nat, p: nat, n: nat)
    requires 0 < n && i <= |runs| && Insert(runs, p, n) == runs[..i] + Insert(runs[i..], p, n)
    ensures i == |runs| || p + n < runs[i].start ==> Insert(runs, p, n) == runs[..i] + [Run(p, n)] + runs[i..]
    ensures i < |runs| && p + n == runs[i].start ==>
      Insert(runs, p, n) == runs[..i] + [Run(p, n + runs[i].len)] + runs[i + 1..]
    ensures i < |runs| && runs[i].start <= p && runs[i].End() == p ==>
      Insert(runs, p, n) ==
        if i + 1 < |runs| && runs[i + 1].start == p + n
        then runs[..i] + [Run(runs[i].start, runs[i].len + n + runs[i + 1].len)] + runs[i + 2..]
        else runs[..i] + [Run(runs[i].start, runs[i].len + n)] + runs[i + 1..]
  {
    var t := runs[i..];
    if t != [] {
      assert t[0] == runs[i] && t[1..] == runs[i + 1..];
      if 1 < |t| { assert t[1] == runs[i + 1] && t[2..] == runs[i + 2..]; }
    }
  }

  lemma Regroup<T>(s: seq<T>, i: nat, rest: seq<T>)
    requires 0 < i <= |s|
    ensures s[i - 1..][0] == s[i - 1] && s[i - 1..][1..] == s[i..]
    ensures s[..i - 1] + ([s[i - 1]] + rest) == s[..i] + rest
  {
  }

  /** The runs the walk passes stay as they are. */
  lemma {:induction false} InsertPast(runs: seq<Run>, i: nat, p: nat, n: nat)
    requires i <= |runs| && forall j :: 0 <= j < i ==> runs[j].start < p + n && runs[j].End() != p
    ensures Insert(runs, p, n) == runs[..i] + Insert(runs[i..], p, n)
  {
    if i == 0 {
      assert runs[0..] == runs;
    } else {
      InsertPast(runs, i - 1, p, n);
      Regroup(runs, i, Insert(runs[i..], p, n));
    }
  }

  /** A run that holds v, or touches the range [v, v + n). */
  predicate Stops(r: Run, v: nat, n: nat) {
    r.start <= v + n && (r.start <= v < r.End() || v + n == r.start || r.End() == v)
  }

  /** The walk tells whether v is free. */
  lemma FreeByte(runs: seq<Run>, i: nat, v: nat, n: nat)
    requires Good(runs) && 0 < n && i <= |runs| && (i < |runs| ==> runs[i].start > v + n || Stops(runs[i], v, n))
    requires forall j :: 0 <= j < i ==> !(runs[j].start <= v < runs[j].End())
    ensures v in Cover(runs) <==> i < |runs| && runs[i].start <= v < runs[i].End()
  {
    CoverIn(runs, v);
    if k :| i < k < |runs| && runs[k].start <= v < runs[k].End() {
      assert runs[i].End() < runs[k].start;
    }
  }

  /** First fit passes the runs that are too small. */
  lemma {:induction false} TakePast(runs: seq<Run>, i: nat, n: nat)
    requires i <= |runs| && forall j :: 0 <= j < i ==> runs[j].len < n
    ensures match Take(runs[i..], n)
      case None => Take(runs, n) == None
      case Some((a, rest)) => Take(runs, n) == Some((a, runs[..i] + rest))
  {
    if i == 0 {
      assert runs[0..] == runs && (Take(runs, n).Some? ==> [] + Take(runs, n).value.1 == Take(runs, n).value.1);
    } else {
      TakePast(runs, i - 1, n);
      var t := Take(runs[i..], n);
      Regroup(runs, i, if t.Some? then t.value.1 else []);
    }
  }

  /** First fit finds the first run that is large enough. */
  lemma TakeAt(runs: seq<Run>, i: nat, n: nat)
    requires i <= |runs| && 0 < n && (forall j :: 0 <= j < i ==> runs[j].len < n) && (i < |runs| ==> n <= runs[i].len)
    ensures i == |runs| ==> Take(runs, n) == None
    ensures i < |runs| && runs[i].len == n ==> Take(runs, n) == Some((runs[i].start, runs[..i] + runs[i + 1..]))
    ensures i < |runs| && runs[i].len > n ==>
      Take(runs, n) == Some((runs[i].start + (runs[i].len - n),
        runs[..i] + [Run(runs[i].start, runs[i].len - n)] + runs[i + 1..]))
  {
    TakePast(runs, i, n);
    if i < |runs| {
      assert runs[i..][0] == runs[i] && runs[i..][1..] == runs[i + 1..];
      var part := [Run(runs[i].start, if runs[i].len > n then runs[i].len - n else 0)];
      assert runs[..i] + (part + runs[i + 1..]) == runs[..i] + part + runs[i + 1..];
    }
  }

  lemma FirstLarge(runs: seq<Run>, n: nat) returns (i: nat)
    requires Take(runs, n).Some?
    ensures i < |runs| && n <= runs[i].len && forall j :: 0 <= j < i ==> runs[j].len < n
  {
    TakeNone(runs, n);
    i := 0;
    while i < |runs| && runs[i].len < n
      invariant i <= |runs| && forall j :: 0 <= j < i ==> runs[j].len < n
    {
      i := i + 1;
    }
  }

  /**
   kalloc returns the end of the lowest stretch of free memory that is long enough:
   what is behind it is not free, and any other place for n bytes is above it, or
   below it in the same stretch.
   */
  lemma FirstFit(runs: seq<Run>, n: nat, b: nat)
    requires Apart(runs) && 0 < n && Take(runs, n).Some?
    ensures var a := Take(runs, n).value.0;
      && a + n !in Cover(runs)
      && (Span(b, n) <= Cover(runs) ==> a < b || Span(b, a + n - b) <= Cover(runs))
  {
    var a := Take(runs, n).value.0;
    var i := FirstLarge(runs, n);
    TakeAt(runs, i, n);
    CoverIn(runs, a + n);
    if Span(b, n) <= Cover(runs) {
      ContiguousInOneRun(runs, b, n);
      var k :| 0 <= k < |runs| && runs[k].start <= b && b + n <= runs[k].End();
      if k == i {
        forall x | x in Span(b, a + n - b) ensures x in Cover(runs) { CoverIn(runs, x); }
      }
    }
  }

  // ---- whole runs ---------------------------------------------------------

  datatype Op = Alloc(n: nat) | Free(v: nat, n: nat)

  /** The free list and the bytes handed out and not yet given back. */
  datatype Memory = Memory(runs: seq<Run>, held: set<nat>)

  /** Callers ask for whole pages and give back ranges they hold. */
  predicate Legal(m: Memory, op: Op) {
    match op
    case Alloc(n) => 0 < n && n % PAGE == 0
    case Free(v, n) => 0 < n && n % PAGE == 0 && v % PAGE == 0 && Span(v, n) <= m.held
  }

  function Step(m: Memory, op: Op): (m': Memory) {
    match op
    case Alloc(n) =>
      (match Take(m.runs, n)
       case None => m
       case Some((a, rest)) => Memory(rest, m.held + Span(a, n)))
    case Free(v, n) => Memory(Insert(m.runs, v, n), m.held - Span(v, n))
  }

  predicate LegalRun(m: Memory, ops: seq<Op>)
    decreases |ops|
  {
    ops == [] || (Legal(m, ops[0]) && LegalRun(Step(m, ops[0]), ops[1..]))
  }

  function After(m: Memory, ops: seq<Op>): (m': Memory)
    decreases |ops|
  {
    if ops == [] then m else After(Step(m, ops[0]), ops[1..])
  }

  /** Every byte of the pool is either free or held, never both. */
  ghost predicate Accounts(m: Memory, pool: set<nat>) {
    Good(m.runs) && Cover(m.runs) !! m.held && Cover(m.runs) + m.held == pool
  }

  lemma StepAccounts(m: Memory, op: Op, pool: set<nat>)
    requires Accounts(m, pool) && Legal(m, op)
    ensures Accounts(Step(m, op), pool)
  {
    match op
    case Alloc(n) =>
      if Take(m.runs, n).Some? {
        TakeCover(m.runs, n);
        TakeGood(m.runs, n);
      }
    case Free(v, n) =>
      InsertCover(m.runs, v, n);
      InsertGood(m.runs, v, n);
  }

  /** Over any legal run no byte is lost, none is handed out twice, and the list stays in order. */
  lemma {:induction false} RunAccounts(m: Memory, ops: seq<Op>, pool: set<nat>)
    requires Accounts(m, pool) && LegalRun(m, ops)
    ensures Accounts(After(m, ops), pool)
    decreases |ops|
  {
    if ops != [] {
      StepAccounts(m, ops[0], pool);
      RunAccounts(Step(m, ops[0]), ops[1..], pool);
    }
  }
}
