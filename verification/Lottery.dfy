/**
 The lottery scheduler: which process a draw selects, how many draws select each
 process, and how the ticket total the scheduler draws from relates to the table.
 */
module Lottery {
  import opened Basics
  import opened ProcTable
  import opened ProcRuns

  // ---- the draw -----------------------------------------------------------

  predicate InPool(q: Proc) {
    q.state != Unused && q.state != Zombie
  }

  function Share(q: Proc): (n: nat) {
    if InPool(q) then q.tickets else 0
  }

  /** Tickets held in the pool below slot i. */
  function Below(t: seq<Proc>, i: nat): (n: nat)
    requires i <= |t|
  {
    if i == 0 then 0 else Below(t, i - 1) + Share(t[i - 1])
  }

  function Total(t: seq<Proc>): (n: nat) {
    Below(t, |t|)
  }

  /** The draw falls in slot i's range of tickets. */
  predicate Wins(t: seq<Proc>, draw: nat, i: nat) {
    i < |t| && Below(t, i) <= draw < Below(t, i) + Share(t[i])
  }

  lemma {:induction false} BelowMonotone(t: seq<Proc>, i: nat, j: nat)
    requires i <= j <= |t|
    ensures Below(t, i) <= Below(t, j)
    decreases j
  {
    if i < j { BelowMonotone(t, i, j - 1); }
  }

  lemma OneWinner(t: seq<Proc>, draw: nat, i: nat, j: nat)
    requires Wins(t, draw, i) && Wins(t, draw, j)
    ensures i == j
  {
    if i < j { BelowMonotone(t, i + 1, j); } else if j < i { BelowMonotone(t, j + 1, i); }
  }

  /** The scheduler's running sum when it comes to slot i, in unsigned int arithmetic. */
  function Mark(t: seq<Proc>, i: nat): (n: nat)
    requires i <= |t|
  {
    Below(t, i) % TWO32
  }

  /** The scheduler's test at slot i. */
  predicate Lands(t: seq<Proc>, draw: nat, i: nat) {
    i < |t| && InPool(t[i]) && Mark(t, i) <= draw < (Mark(t, i) + t[i].tickets) % TWO32
  }

  /** The slot the scan selects, from slot i on; |t| for none. */
  function Selected(t: seq<Proc>, draw: nat, i: nat): (k: nat)
    requires i <= |t|
    ensures i <= k <= |t| && (k < |t| ==> Lands(t, draw, k))
    ensures forall j :: i <= j < k ==> !Lands(t, draw, j)
    decreases |t| - i
  {
    if i == |t| || Lands(t, draw, i) then i else Selected(t, draw, i + 1)
  }

  /** While the sum of tickets does not wrap, the scan's test is the draw's falling in the slot's range. */
  lemma LandsIff(t: seq<Proc>, draw: nat, i: nat)
    requires Total(t) < TWO32
    ensures Lands(t, draw, i) <==> Wins(t, draw, i)
  {
    if i < |t| { BelowMonotone(t, i + 1, |t|); }
  }

  lemma SelectedWins(t: seq<Proc>, draw: nat, i: nat)
    requires Total(t) < TWO32 && i < |t|
    ensures Selected(t, draw, 0) == i <==> Wins(t, draw, i)
  {
    var k := Selected(t, draw, 0);
    LandsIff(t, draw, i);
    LandsIff(t, draw, k);
    if Wins(t, draw, i) && k < |t| { OneWinner(t, draw, i, k); }
  }

  /** The scheduler's scan: the slot selected, and whether it is switched to. */
  method Draw(t: seq<Proc>, random: nat) returns (winner: nat, runs: bool)
    ensures winner == Selected(t, random, 0)
    ensures Total(t) < TWO32 ==>
      && (random < Total(t) ==> Wins(t, random, winner) && InPool(t[winner]))
      && (random >= Total(t) ==> winner == |t|)
    ensures runs <==> winner < |t| && t[winner].state == Runnable
  {
    DrawMeans(t, random);
    var curtct := 0;
    var i := 0;
    while i < |t|
      invariant 0 <= i <= |t| && curtct == Mark(t, i)
      invariant Selected(t, random, 0) == Selected(t, random, i)
    {
      if !(t[i].state == Unused || t[i].state == Zombie) {
        var nxttct := (curtct + t[i].tickets) % TWO32;
        if random >= curtct && random < nxttct {
          return i, t[i].state == Runnable;
        }
        curtct := nxttct;
      }
      i := i + 1;
    }
    return |t|, false;
  }

  lemma DrawMeans(t: seq<Proc>, draw: nat)
    ensures Total(t) < TWO32 ==>
      var k := Selected(t, draw, 0); if draw < Total(t) then Wins(t, draw, k) && InPool(t[k]) else k == |t|
  {
    if Total(t) < TWO32 {
      WinnerIff(t, draw);
      if i: nat :| Wins(t, draw, i) { SelectedWins(t, draw, i); }
      LandsIff(t, draw, Selected(t, draw, 0));
    }
  }

  /** How many of the draws 0, 1, ..., n - 1 select slot i. */
  function Hits(t: seq<Proc>, i: nat, n: nat): (k: nat) {
    if n == 0 then 0 else Hits(t, i, n - 1) + if Selected(t, n - 1, 0) == i then 1 else 0
  }

  lemma {:induction false} HitsAre(t: seq<Proc>, i: nat, n: nat)
    requires i < |t| && Total(t) < TWO32
    ensures Hits(t, i, n) ==
      if n <= Below(t, i) then 0 else if n <= Below(t, i) + Share(t[i]) then n - Below(t, i) else Share(t[i])
  {
    if n > 0 {
      HitsAre(t, i, n - 1);
      SelectedWins(t, n - 1, i);
    }
  }

  /** Draws that select one of the first m slots. */
  function HitsBelow(t: seq<Proc>, m: nat, n: nat): (k: nat) {
    if m == 0 then 0 else HitsBelow(t, m - 1, n) + Hits(t, m - 1, n)
  }

  /** One more draw selects at most one more slot. */
  lemma {:induction false} OneMoreDraw(t: seq<Proc>, m: nat, n: nat)
    ensures HitsBelow(t, m, n + 1) == HitsBelow(t, m, n) + if Selected(t, n, 0) < m then 1 else 0
  {
    if m > 0 { OneMoreDraw(t, m - 1, n); }
  }

  /** n draws select at most n slots in all. */
  lemma {:induction false} FewEnough(t: seq<Proc>, m: nat, n: nat)
    ensures HitsBelow(t, m, n) <= n
  {
    if n == 0 {
      NoDraws(t, m);
    } else {
      FewEnough(t, m, n - 1);
      OneMoreDraw(t, m, n - 1);
    }
  }

  lemma {:induction false} NoDraws(t: seq<Proc>, m: nat)
    ensures HitsBelow(t, m, 0) == 0
  {
    if m > 0 { NoDraws(t, m - 1); }
  }

  lemma {:induction false} AllShares(t: seq<Proc>, m: nat, n: nat)
    requires m <= |t| && forall i :: 0 <= i < |t| ==> Hits(t, i, n) == Share(t[i])
    ensures HitsBelow(t, m, n) == Below(t, m)
  {
    if m > 0 { AllShares(t, m - 1, n); }
  }

  /**
   Of all draws below the 32-bit total, every process in the pool is selected by
   exactly as many as it holds tickets, if and only if the sum does not wrap.
   */
  lemma ProportionalIff(t: seq<Proc>)
    ensures (forall i :: 0 <= i < |t| ==> Hits(t, i, Total(t) % TWO32) == Share(t[i])) <==> Total(t) < TWO32
  {
    if Total(t) < TWO32 {
      forall i | 0 <= i < |t| ensures Hits(t, i, Total(t)) == Share(t[i]) { Proportional(t, i); }
    }
    if forall i :: 0 <= i < |t| ==> Hits(t, i, Total(t) % TWO32) == Share(t[i]) {
      AllShares(t, |t|, Total(t) % TWO32);
      FewEnough(t, |t|, Total(t) % TWO32);
    }
  }

  lemma Proportional(t: seq<Proc>, i: nat)
    requires i < |t| && Total(t) < TWO32
    ensures Hits(t, i, Total(t)) == if InPool(t[i]) then t[i].tickets else 0
  {
    HitsAre(t, i, Total(t));
    BelowMonotone(t, i + 1, |t|);
  }

  /** Draws below the first slot's tickets select the first slot. */
  lemma {:induction false} FirstTakesAll(t: seq<Proc>, i: nat, n: nat)
    requires 0 < i < |t| && InPool(t[0]) && n <= t[0].tickets < TWO32
    ensures Hits(t, i, n) == 0
  {
    if n > 0 {
      FirstTakesAll(t, i, n - 1);
      assert Lands(t, n - 1, 0);
    }
  }

  /** Three processes with the most tickets sys_proc_tickets gives: the second and the third are never selected. */
  lemma WrapStarves(q: Proc) returns (t: seq<Proc>)
    requires q.state == Runnable && q.tickets == 0x7FFF_FFFF
    ensures t == [q, q, q] && Total(t) == 3 * 0x7FFF_FFFF
    ensures Hits(t, 1, Total(t) % TWO32) == 0 == Hits(t, 2, Total(t) % TWO32)
  {
    t := [q, q, q];
    assert Below(t, 1) == q.tickets && Below(t, 2) == 2 * q.tickets && Below(t, 3) == 3 * q.tickets;
    FirstTakesAll(t, 1, Total(t) % TWO32);
    FirstTakesAll(t, 2, Total(t) % TWO32);
  }

  lemma {:induction false} SomeWinnerBelow(t: seq<Proc>, draw: nat, n: nat)
    requires n <= |t| && draw < Below(t, n)
    ensures exists i: nat :: i < n && Wins(t, draw, i)
  {
    if draw < Below(t, n - 1) {
      SomeWinnerBelow(t, draw, n - 1);
    } else {
      assert Wins(t, draw, n - 1);
    }
  }

  /** Every draw below the total has exactly one winner; no other draw has any. */
  lemma WinnerIff(t: seq<Proc>, draw: nat)
    ensures draw < Total(t) <==> exists i: nat :: Wins(t, draw, i)
    ensures forall i: nat, j: nat :: Wins(t, draw, i) && Wins(t, draw, j) ==> i == j
  {
    if draw < Total(t) { SomeWinnerBelow(t, draw, |t|); }
    forall i: nat | Wins(t, draw, i) ensures draw < Total(t) { BelowMonotone(t, i + 1, |t|); }
    forall i: nat, j: nat | Wins(t, draw, i) && Wins(t, draw, j) ensures i == j { OneWinner(t, draw, i, j); }
  }

  // ---- the total over all runs --------------------------------------------

  /** Tickets counted for a slot; a process past the start of exit has left the pool. */
  function Weight(q: Proc, k: Task): (n: nat) {
    if k == Leaving then 0 else Share(q)
  }

  function Pool(t: seq<Proc>, tasks: seq<Task>, n: nat): (sum: nat)
    requires n <= |t| == |tasks|
  {
    if n == 0 then 0 else Pool(t, tasks, n - 1) + Weight(t[n - 1], tasks[n - 1])
  }

  /** The same weights but perhaps at slot k. */
  lemma {:induction false} PoolChange(t: seq<Proc>, tasks: seq<Task>, u: seq<Proc>, tasks': seq<Task>, k: nat, n: nat)
    requires n <= |t| == |tasks| == |u| == |tasks'| && k < |t|
    requires forall i :: 0 <= i < |t| && i != k ==> Weight(t[i], tasks[i]) == Weight(u[i], tasks'[i])
    ensures k >= n ==> Pool(u, tasks', n) == Pool(t, tasks, n)
    ensures k < n ==> Pool(u, tasks', n) == Pool(t, tasks, n) - Weight(t[k], tasks[k]) + Weight(u[k], tasks'[k])
  {
    if n > 0 { PoolChange(t, tasks, u, tasks', k, n - 1); }
  }

  /** An embryo still holds the tickets it was given. */
  ghost predicate Embryos(t: seq<Proc>) {
    forall i :: 0 <= i < |t| && t[i].state == Embryo ==> t[i].tickets == TICKETS
  }

  /** The scheduler's total is the pool's and that of failed creations. */
  ghost predicate Counted(s: System)
    requires |s.table| == |s.tasks|
  {
    && Embryos(s.table)
    && s.ttltcts == Pool(s.table, s.tasks, |s.table|) + TICKETS * s.failed
  }

  /** All that these steps need of the invariant. */
  ghost predicate AtWork(s: System) {
    |s.table| == |s.tasks| && Working(s.table, s.tasks, s.init)
  }

  /** The slot whose weight a step may change. */
  ghost function Touched(s: System, e: Event): (k: nat)
    requires AtWork(s) && Enabled(s, e)
    ensures k < |s.table|
  {
    match e
    case Alloc(p) => if FirstUnused(s.table) < |s.table| then FirstUnused(s.table) else p
    case SetParent(p) => s.tasks[p].child
    case ForkDone(p) => s.tasks[p].child
    case ForkNoStack(p) => s.tasks[p].child
    case ForkNoMemory(p) => s.tasks[p].child
    case ForkUndone(p) => s.tasks[p].child
    case Wakeup(_) => 0
    case WakeOnCond(_) => 0
    case Kill(_) => 0
    case _ => e.p
  }

  lemma WeightsKeptQuietly(s: System, e: Event, r: System, k: nat, i: nat)
    requires AtWork(s) && Enabled(s, e) && r == Next(s, e) && k == Touched(s, e) && i < |s.table| && i != k
      && MovesNoOne(e)
    ensures |r.table| == |r.tasks| == |s.table| && Weight(s.table[i], s.tasks[i]) == Weight(r.table[i], r.tasks[i])
  {
  }

  lemma WeightsKeptInFork(s: System, e: Event, r: System, k: nat, i: nat)
    requires AtWork(s) && Enabled(s, e) && r == Next(s, e) && k == Touched(s, e) && i < |s.table| && i != k && InFork(e)
    ensures |r.table| == |r.tasks| == |s.table| && Weight(s.table[i], s.tasks[i]) == Weight(r.table[i], r.tasks[i])
  {
  }

  lemma WeightsKeptAtEnd(s: System, e: Event, r: System, k: nat, i: nat)
    requires AtWork(s) && Enabled(s, e) && r == Next(s, e) && k == Touched(s, e) && i < |s.table| && i != k
    requires !MovesNoOne(e) && !InFork(e)
    ensures |r.table| == |r.tasks| == |s.table| && Weight(s.table[i], s.tasks[i]) == Weight(r.table[i], r.tasks[i])
  {
  }

  lemma WeightsKept(s: System, e: Event, r: System, k: nat, i: nat)
    requires AtWork(s) && Enabled(s, e) && r == Next(s, e) && k == Touched(s, e) && i < |s.table| && i != k
    ensures |r.table| == |r.tasks| == |s.table| && Weight(s.table[i], s.tasks[i]) == Weight(r.table[i], r.tasks[i])
  {
    if MovesNoOne(e) {
      WeightsKeptQuietly(s, e, r, k, i);
    } else if InFork(e) {
      WeightsKeptInFork(s, e, r, k, i);
    } else {
      WeightsKeptAtEnd(s, e, r, k, i);
    }
  }

  lemma EmbryosKeptQuietly(s: System, e: Event, r: System)
    requires AtWork(s) && Enabled(s, e) && r == Next(s, e) && Embryos(s.table) && MovesNoOne(e)
    ensures Embryos(r.table)
  {
  }

  lemma EmbryosKeptInFork(s: System, e: Event, r: System)
    requires AtWork(s) && Enabled(s, e) && r == Next(s, e) && Embryos(s.table) && InFork(e)
    ensures Embryos(r.table)
  {
  }

  lemma EmbryosKeptAtEnd(s: System, e: Event, r: System)
    requires AtWork(s) && Enabled(s, e) && r == Next(s, e) && Embryos(s.table) && !MovesNoOne(e) && !InFork(e)
    ensures Embryos(r.table)
  {
  }

  lemma EmbryosKept(s: System, e: Event, r: System)
    requires AtWork(s) && Enabled(s, e) && r == Next(s, e) && Embryos(s.table)
    ensures Embryos(r.table)
  {
    if MovesNoOne(e) {
      EmbryosKeptQuietly(s, e, r);
    } else if InFork(e) {
      EmbryosKeptInFork(s, e, r);
    } else {
      EmbryosKeptAtEnd(s, e, r);
    }
  }

  lemma WeightMovesQuietly(s: System, e: Event, r: System, k: nat)
    requires AtWork(s) && Enabled(s, e) && r == Next(s, e) && k == Touched(s, e) && Embryos(s.table) && MovesNoOne(e)
    ensures |r.table| == |r.tasks| == |s.table|
    ensures r.ttltcts - s.ttltcts ==
      Weight(r.table[k], r.tasks[k]) - Weight(s.table[k], s.tasks[k]) + TICKETS * (r.failed - s.failed)
  {
  }

  lemma WeightMovesInFork(s: System, e: Event, r: System, k: nat)
    requires AtWork(s) && Enabled(s, e) && r == Next(s, e) && k == Touched(s, e) && Embryos(s.table) && InFork(e)
    ensures |r.table| == |r.tasks| == |s.table|
    ensures r.ttltcts - s.ttltcts ==
      Weight(r.table[k], r.tasks[k]) - Weight(s.table[k], s.tasks[k]) + TICKETS * (r.failed - s.failed)
  {
  }

  lemma WeightMovesAtEnd(s: System, e: Event, r: System, k: nat)
    requires AtWork(s) && Enabled(s, e) && r == Next(s, e) && k == Touched(s, e) && Embryos(s.table)
      && !MovesNoOne(e) && !InFork(e)
    ensures |r.table| == |r.tasks| == |s.table|
    ensures r.ttltcts - s.ttltcts ==
      Weight(r.table[k], r.tasks[k]) - Weight(s.table[k], s.tasks[k]) + TICKETS * (r.failed - s.failed)
  {
  }

  lemma WeightMoves(s: System, e: Event, r: System, k: nat)
    requires AtWork(s) && Enabled(s, e) && r == Next(s, e) && k == Touched(s, e) && Embryos(s.table)
    ensures |r.table| == |r.tasks| == |s.table|
    ensures r.ttltcts - s.ttltcts ==
      Weight(r.table[k], r.tasks[k]) - Weight(s.table[k], s.tasks[k]) + TICKETS * (r.failed - s.failed)
  {
    if MovesNoOne(e) {
      WeightMovesQuietly(s, e, r, k);
    } else if InFork(e) {
      WeightMovesInFork(s, e, r, k);
    } else {
      WeightMovesAtEnd(s, e, r, k);
    }
  }

  lemma StepCounts(s: System, e: Event, r: System)
    requires Core(s) && Enabled(s, e) && r == Next(s, e) && Counted(s)
    ensures |r.table| == |r.tasks| && Counted(r)
  {
    var k := Touched(s, e);
    WeightMoves(s, e, r, k);
    EmbryosKept(s, e, r);
    assert |r.tasks| == |r.table| == |s.table| == |s.tasks|;
    forall i | 0 <= i < |s.table| && i != k ensures Weight(s.table[i], s.tasks[i]) == Weight(r.table[i], r.tasks[i]) {
      WeightsKept(s, e, r, k, i);
    }
    CountsFollow(s, r, k);
  }

  lemma CountsFollow(s: System, r: System, k: nat)
    requires |s.table| == |s.tasks| == |r.table| == |r.tasks| && Counted(s) && Embryos(r.table) && k < |s.table|
    requires forall i :: 0 <= i < |s.table| && i != k ==>
      Weight(s.table[i], s.tasks[i]) == Weight(r.table[i], r.tasks[i])
    requires r.ttltcts - s.ttltcts ==
      Weight(r.table[k], r.tasks[k]) - Weight(s.table[k], s.tasks[k]) + TICKETS * (r.failed - s.failed)
    ensures Counted(r)
  {
    PoolChange(s.table, s.tasks, r.table, r.tasks, k, |s.table|);
  }

  lemma InitAloneCounts(t: seq<Proc>, tasks: seq<Task>)
    requires InitAlone(t, tasks)
    ensures Embryos(t) && Pool(t, tasks, |t|) == TICKETS
  {
    FreePool(t, tasks, |t|);
  }

  lemma CountedAlone(s: System)
    requires InitAlone(s.table, s.tasks) && s.ttltcts == TICKETS && s.failed == 0
    ensures Counted(s)
  {
    InitAloneCounts(s.table, s.tasks);
  }

  lemma BootCounts()
    ensures Counted(Boot())
  {
    CountedAlone(Boot());
  }

  lemma {:induction false} FreePool(t: seq<Proc>, tasks: seq<Task>, n: nat)
    requires 0 < n <= |t| == |tasks| && (forall i :: 0 < i < |t| ==> t[i] == FREE_SLOT)
    ensures Pool(t, tasks, n) == Weight(t[0], tasks[0])
  {
    if n == 1 {
      assert Pool(t, tasks, 0) == 0;
    } else {
      FreePool(t, tasks, n - 1);
    }
  }

  lemma {:induction false} RunCounts(s: System, es: seq<Event>)
    requires Core(s) && Counted(s) && IsRun(s, es)
    ensures Core(After(s, es)) && Counted(After(s, es))
    decreases |es|
  {
    if es != [] {
      var r := Next(s, es[0]);
      StepKeepsCore(s, es[0], r);
      StepCounts(s, es[0], r);
      RunCounts(r, es[1..]);
    }
  }

  lemma {:induction false} PoolIsBelow(t: seq<Proc>, tasks: seq<Task>, n: nat)
    requires n <= |t| == |tasks| && Leaving !in tasks
    ensures Pool(t, tasks, n) == Below(t, n)
  {
    if n > 0 { PoolIsBelow(t, tasks, n - 1); }
  }

  /**
   In every run from boot the scheduler's total exceeds the pool's tickets by those
   of failed process creations; so while no process is in exit, the 32-bit total it
   draws from is the pool's if and only if that does not wrap and those of failed
   creations wrap to nothing, as when there are none.
   */
  lemma TotalIff(es: seq<Event>)
    requires IsRun(Boot(), es)
    ensures var s := After(Boot(), es);
      && |s.table| == |s.tasks| && s.ttltcts == Pool(s.table, s.tasks, |s.table|) + TICKETS * s.failed
      && (Leaving !in s.tasks ==>
            && (s.ttltcts == Total(s.table) <==> s.failed == 0)
            && (s.ttltcts % TWO32 == Total(s.table) <==> Total(s.table) < TWO32 && TICKETS * s.failed % TWO32 == 0))
  {
    BootInv();
    BootCounts();
    RunCounts(Boot(), es);
    CountedIff(After(Boot(), es));
  }

  lemma CountedIff(s: System)
    requires |s.table| == |s.tasks| && Counted(s)
    ensures Leaving !in s.tasks ==>
      && (s.ttltcts == Total(s.table) <==> s.failed == 0)
      && (s.ttltcts % TWO32 == Total(s.table) <==> Total(s.table) < TWO32 && TICKETS * s.failed % TWO32 == 0)
  {
    if Leaving !in s.tasks {
      PoolIsBelow(s.table, s.tasks, |s.table|);
      WrapIff(Total(s.table), TICKETS * s.failed);
    }
  }

  lemma WrapIff(a: nat, b: nat)
    ensures (a + b) % TWO32 == a <==> a < TWO32 && b % TWO32 == 0
  {
  }

  /** One fork by init that finds no memory for a stack: the scheduler goes on drawing tickets nobody holds. */
  lemma FailedForkInflates() returns (es: seq<Event>)
    ensures IsRun(Boot(), es) && After(Boot(), es).ttltcts != Total(After(Boot(), es).table)
  {
    RunMore(Boot(), [], Dispatch(0));
    es := [] + [Dispatch(0)];
    assert After(Boot(), es).table[0].state == Running && After(Boot(), es).table[1] == FREE_SLOT;
    assert FirstUnused(After(Boot(), es).table) == 1;
    RunMore(Boot(), es, Alloc(0));
    es := es + [Alloc(0)];
    assert After(Boot(), es).table[0].state == Running && After(Boot(), es).tasks[0] == Made(1);
    RunMore(Boot(), es, ForkNoStack(0));
    es := es + [ForkNoStack(0)];
    assert forall p :: 0 <= p < NPROC ==> After(Boot(), es).tasks[p] == Idle;
    TotalIff(es);
  }
}
