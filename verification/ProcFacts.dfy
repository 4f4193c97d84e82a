/**
 What single processes see over whole runs: a kill reaches its process and sticks
 until it exits, a sleeper sleeps until somebody wakes it, and a process holds the
 tickets it last asked for.
 */
module ProcFacts {
  import opened ProcTable
  import opened ProcRuns

  // ---- pids, of free slots too --------------------------------------------

  /** No pid is in two slots, and none is ahead of the counter. */
  ghost predicate AllPids(t: seq<Proc>, nextpid: nat) {
    && 0 < nextpid && (forall i :: 0 <= i < |t| ==> t[i].pid < nextpid)
    && (forall i, j :: 0 <= i < j < |t| && t[i].pid == t[j].pid ==> t[i].pid == 0)
  }

  /** Only allocproc and wait change pids. */
  lemma SamePids(s: System, e: Event, r: System)
    requires Core(s) && Enabled(s, e) && r == Next(s, e) && !e.Alloc? && !e.Wait?
    ensures r.nextpid == s.nextpid && |r.table| == |s.table|
    ensures forall i :: 0 <= i < |s.table| ==> r.table[i].pid == s.table[i].pid
  {
  }

  /** A new process takes the next pid. */
  lemma AllocPids(s: System, e: Event, r: System)
    requires Core(s) && Enabled(s, e) && r == Next(s, e) && e.Alloc? && AllPids(s.table, s.nextpid)
    ensures AllPids(r.table, r.nextpid)
  {
  }

  lemma PidGivenUp(t: seq<Proc>, nextpid: nat, k: nat, q: Proc)
    requires AllPids(t, nextpid) && k < |t| && (q.pid == 0 || q.pid == t[k].pid)
    ensures AllPids(t[k := q], nextpid)
  {
  }

  /** A reaped process gives its pid up. */
  lemma WaitPids(s: System, e: Event, r: System)
    requires Core(s) && Enabled(s, e) && r == Next(s, e) && e.Wait? && AllPids(s.table, s.nextpid)
    ensures AllPids(r.table, r.nextpid)
  {
    var t, k := s.table, FirstZombie(s.table, e.p);
    if k < |t| {
      PidGivenUp(t, s.nextpid, k, Freed(t[k]));
    } else {
      PidGivenUp(t, s.nextpid, e.p, t[e.p].(state := Sleeping, chan := OfProc(e.p)));
    }
  }

  lemma PidsStep(s: System, e: Event, r: System)
    requires Core(s) && Enabled(s, e) && r == Next(s, e) && AllPids(s.table, s.nextpid)
    ensures AllPids(r.table, r.nextpid)
  {
    if e.Alloc? { AllocPids(s, e, r); } else if e.Wait? { WaitPids(s, e, r); } else { SamePids(s, e, r); }
  }

  // ---- kill ---------------------------------------------------------------

  /** Slot k holds the living process pid, and it is marked killed. */
  predicate Marked(s: System, k: nat, pid: nat) {
    k < |s.table| && Live(s.table[k]) && s.table[k].pid == pid && s.table[k].killed
  }

  /** kill finds the process with the pid. */
  lemma KillReaches(s: System, pid: nat, k: nat, r: System)
    requires Core(s) && AllPids(s.table, s.nextpid) && k < |s.table| && Live(s.table[k]) && s.table[k].pid == pid
    requires r == Next(s, Kill(pid))
    ensures Marked(r, k, pid) && r.table[k].state != Sleeping
    ensures forall i :: 0 <= i < |s.table| && i != k ==> r.table[i] == s.table[i]
  {
    assert FirstPid(s.table, pid) == k;
  }

  lemma MarkedQuietly(s: System, e: Event, r: System, k: nat, pid: nat)
    requires Core(s) && Enabled(s, e) && r == Next(s, e) && Marked(s, k, pid) && MovesNoOne(e)
    ensures Marked(r, k, pid)
  {
  }

  lemma MarkedInFork(s: System, e: Event, r: System, k: nat, pid: nat)
    requires Core(s) && Enabled(s, e) && r == Next(s, e) && Marked(s, k, pid) && InFork(e)
    ensures Marked(r, k, pid)
  {
  }

  lemma MarkedAtEnd(s: System, e: Event, r: System, k: nat, pid: nat)
    requires Core(s) && Enabled(s, e) && r == Next(s, e) && Marked(s, k, pid) && !MovesNoOne(e) && !InFork(e)
    requires e != Exit(k)
    ensures Marked(r, k, pid)
  {
  }

  lemma MarkedStep(s: System, e: Event, r: System, k: nat, pid: nat)
    requires Core(s) && Enabled(s, e) && r == Next(s, e) && Marked(s, k, pid) && e != Exit(k)
    ensures Marked(r, k, pid)
  {
    if MovesNoOne(e) {
      MarkedQuietly(s, e, r, k, pid);
    } else if InFork(e) {
      MarkedInFork(s, e, r, k, pid);
    } else {
      MarkedAtEnd(s, e, r, k, pid);
    }
  }

  /** It stays marked until it exits, and never sleeps in wait. */
  lemma {:induction false} KilledUntilExit(s: System, es: seq<Event>, k: nat, pid: nat)
    requires Core(s) && IsRun(s, es) && Marked(s, k, pid) && Exit(k) !in es
    ensures Marked(After(s, es), k, pid) && !AsleepInWait(After(s, es).table[k])
    decreases |es|
  {
    if es != [] {
      var r := Next(s, es[0]);
      StepKeepsCore(s, es[0], r);
      MarkedStep(s, es[0], r, k, pid);
      KilledUntilExit(r, es[1..], k, pid);
    }
  }

  /** A scan of wait by a killed process returns. */
  lemma KilledWaitReturns(s: System, k: nat, pid: nat)
    requires Marked(s, k, pid)
    ensures WaitScan(s.table, k).1 != Sleeps
  {
  }

  lemma {:induction false} RunPids(s: System, es: seq<Event>)
    requires Core(s) && AllPids(s.table, s.nextpid) && IsRun(s, es)
    ensures Core(After(s, es)) && AllPids(After(s, es).table, After(s, es).nextpid)
    decreases |es|
  {
    if es != [] {
      var r := Next(s, es[0]);
      StepKeepsCore(s, es[0], r);
      PidsStep(s, es[0], r);
      RunPids(r, es[1..]);
    }
  }

  /**
   In every run from boot: a kill of a living process's pid marks that process and
   no other and leaves it awake; from then on until it exits it is marked, never
   asleep in wait, and no scan of wait by it would sleep.
   */
  lemma KillSticks(es: seq<Event>, k: nat, later: seq<Event>)
    requires IsRun(Boot(), es) && k < |After(Boot(), es).table| && Live(After(Boot(), es).table[k])
    requires var s := After(Boot(), es); IsRun(Next(s, Kill(s.table[k].pid)), later) && Exit(k) !in later
    ensures var s := After(Boot(), es);
      var pid := s.table[k].pid;
      var r := Next(s, Kill(pid));
      && Marked(r, k, pid) && r.table[k].state != Sleeping
      && (forall i :: 0 <= i < |s.table| && i != k ==> r.table[i] == s.table[i])
      && Marked(After(r, later), k, pid) && !AsleepInWait(After(r, later).table[k])
      && WaitScan(After(r, later).table, k).1 != Sleeps
  {
    BootInv();
    RunPids(Boot(), es);
    var s := After(Boot(), es);
    var pid := s.table[k].pid;
    var r := Next(s, Kill(pid));
    KillReaches(s, pid, k, r);
    StepKeepsCore(s, Kill(pid), r);
    KilledUntilExit(r, later, k, pid);
    KilledWaitReturns(After(r, later), k, pid);
  }

  // ---- sleep and wakeup ---------------------------------------------------

  predicate AsleepOn(s: System, k: nat, c: Chan) {
    k < |s.table| && s.table[k].state == Sleeping && s.table[k].chan == c
  }

  /** Events that may wake slot k from a channel that is no process. */
  predicate MayWake(s: System, e: Event, k: nat, a: nat) {
    e == Wakeup(Other(a)) || (e.WakeOnCond? && k in e.who) || (e.Kill? && FirstPid(s.table, e.pid) == k)
  }

  ghost predicate NeverWoken(s: System, es: seq<Event>, k: nat, a: nat)
    requires IsRun(s, es)
    decreases |es|
  {
    es == [] || (!MayWake(s, es[0], k, a) && NeverWoken(Next(s, es[0]), es[1..], k, a))
  }

  lemma AsleepQuietly(s: System, e: Event, r: System, k: nat, a: nat)
    requires Core(s) && Enabled(s, e) && r == Next(s, e) && AsleepOn(s, k, Other(a)) && !MayWake(s, e, k, a)
      && MovesNoOne(e)
    ensures AsleepOn(r, k, Other(a))
  {
  }

  lemma AsleepInFork(s: System, e: Event, r: System, k: nat, a: nat)
    requires Core(s) && Enabled(s, e) && r == Next(s, e) && AsleepOn(s, k, Other(a)) && InFork(e)
    ensures AsleepOn(r, k, Other(a))
  {
  }

  lemma AsleepAtEnd(s: System, e: Event, r: System, k: nat, a: nat)
    requires Core(s) && Enabled(s, e) && r == Next(s, e) && AsleepOn(s, k, Other(a)) && !MovesNoOne(e) && !InFork(e)
    ensures AsleepOn(r, k, Other(a))
  {
  }

  lemma AsleepStep(s: System, e: Event, r: System, k: nat, a: nat)
    requires Core(s) && Enabled(s, e) && r == Next(s, e) && AsleepOn(s, k, Other(a)) && !MayWake(s, e, k, a)
    ensures AsleepOn(r, k, Other(a))
  {
    if MovesNoOne(e) {
      AsleepQuietly(s, e, r, k, a);
    } else if InFork(e) {
      AsleepInFork(s, e, r, k, a);
    } else {
      AsleepAtEnd(s, e, r, k, a);
    }
  }

  /** A process asleep on a channel sleeps until a wakeup on that channel, a kill, or a wakeup by condition. */
  lemma {:induction false} AsleepStays(s: System, es: seq<Event>, k: nat, a: nat)
    requires Core(s) && IsRun(s, es) && AsleepOn(s, k, Other(a)) && NeverWoken(s, es, k, a)
    ensures AsleepOn(After(s, es), k, Other(a))
    decreases |es|
  {
    if es != [] {
      var r := Next(s, es[0]);
      StepKeepsCore(s, es[0], r);
      AsleepStep(s, es[0], r, k, a);
      AsleepStays(r, es[1..], k, a);
    }
  }

  /** sleep puts its caller to sleep on the channel; a wakeup there makes it runnable, and nobody else. */
  lemma SleepThenWakeup(s: System, p: nat, a: nat, es: seq<Event>)
    requires Core(s) && Enabled(s, SleepOn(p, a)) && IsRun(Next(s, SleepOn(p, a)), es)
    requires NeverWoken(Next(s, SleepOn(p, a)), es, p, a)
    ensures var asleep := After(Next(s, SleepOn(p, a)), es);
      var woken := Next(asleep, Wakeup(Other(a)));
      && AsleepOn(asleep, p, Other(a)) && |woken.table| == |asleep.table| && woken.table[p].state == Runnable
      && (forall i :: 0 <= i < |asleep.table| ==> !AsleepOn(woken, i, Other(a)))
      && (forall i :: 0 <= i < |asleep.table| && !AsleepOn(asleep, i, Other(a)) ==> woken.table[i] == asleep.table[i])
  {
    var r := Next(s, SleepOn(p, a));
    StepKeepsCore(s, SleepOn(p, a), r);
    AsleepStays(r, es, p, a);
  }

  /** A sleep on a condition, and the wakeup of any who wait for one. */
  lemma CondSleepThenWake(s: System, p: nat, who: set<nat>)
    requires Core(s) && Enabled(s, SleepOnCond(p)) && p in who
    ensures var asleep := Next(s, SleepOnCond(p));
      var woken := Next(asleep, WakeOnCond(who));
      && |asleep.table| == |s.table| && asleep.table[p].state == Sleeping && asleep.table[p].chan == s.table[p].chan
      && |woken.table| == |s.table| && woken.table[p].state == Runnable
      && (forall i :: 0 <= i < |s.table| && i in who ==> woken.table[i].state != Sleeping)
      && (forall i :: 0 <= i < |s.table| && i !in who ==> woken.table[i] == s.table[i])
  {
  }

  // ---- the processor ------------------------------------------------------

  /** The caller gives the processor up: runnable if it yields, else asleep or a zombie. */
  predicate GivesUp(e: Event, p: nat) {
    e == Yield(p) || (e.SleepOn? && e.p == p) || e == SleepOnCond(p) || e == Exit(p)
  }

  lemma GivesUpStep(s: System, e: Event, r: System, p: nat)
    requires Core(s) && Enabled(s, e) && r == Next(s, e) && GivesUp(e, p)
    ensures p < |r.table| && r.table[p].pid == s.table[p].pid
    ensures r.table[p].state == if e.Yield? then Runnable else if e.Exit? then Zombie else Sleeping
  {
  }

  lemma NotRunningQuietly(s: System, e: Event, r: System, k: nat)
    requires Core(s) && Enabled(s, e) && r == Next(s, e) && k < |s.table| && s.table[k].state != Running
    requires e != Dispatch(k) && MovesNoOne(e)
    ensures k < |r.table| && r.table[k].state != Running
  {
  }

  lemma NotRunningInFork(s: System, e: Event, r: System, k: nat)
    requires Core(s) && Enabled(s, e) && r == Next(s, e) && k < |s.table| && s.table[k].state != Running && InFork(e)
    ensures k < |r.table| && r.table[k].state != Running
  {
  }

  lemma NotRunningAtEnd(s: System, e: Event, r: System, k: nat)
    requires Core(s) && Enabled(s, e) && r == Next(s, e) && k < |s.table| && s.table[k].state != Running
    requires !MovesNoOne(e) && !InFork(e)
    ensures k < |r.table| && r.table[k].state != Running
  {
  }

  lemma NotRunningStep(s: System, e: Event, r: System, k: nat)
    requires Core(s) && Enabled(s, e) && r == Next(s, e) && k < |s.table| && s.table[k].state != Running
    requires e != Dispatch(k)
    ensures k < |r.table| && r.table[k].state != Running
  {
    if MovesNoOne(e) {
      NotRunningQuietly(s, e, r, k);
    } else if InFork(e) {
      NotRunningInFork(s, e, r, k);
    } else {
      NotRunningAtEnd(s, e, r, k);
    }
  }

  lemma {:induction false} NotRunningStays(s: System, es: seq<Event>, k: nat)
    requires Core(s) && IsRun(s, es) && k < |s.table| && s.table[k].state != Running && Dispatch(k) !in es
    ensures k < |After(s, es).table| && After(s, es).table[k].state != Running
    decreases |es|
  {
    if es != [] {
      var r := Next(s, es[0]);
      StepKeepsCore(s, es[0], r);
      NotRunningStep(s, es[0], r, k);
      NotRunningStays(r, es[1..], k);
    }
  }

  /** Who has given the processor up runs again only when the scheduler picks it. */
  lemma RunsOnlyWhenPicked(s: System, e: Event, p: nat, es: seq<Event>)
    requires Core(s) && Enabled(s, e) && GivesUp(e, p) && IsRun(Next(s, e), es) && Dispatch(p) !in es
    ensures p < |After(Next(s, e), es).table| && After(Next(s, e), es).table[p].state != Running
  {
    StepKeepsCore(s, e, Next(s, e));
    GivesUpStep(s, e, Next(s, e), p);
    NotRunningStays(Next(s, e), es, p);
  }

  // ---- tickets ------------------------------------------------------------

  /** The tickets one step gives slot k: those asked for, or the first ones of a new process. */
  function GivenTickets(s: System, e: Event, k: nat, before: nat): (n: nat) {
    if e.SetTickets? && e.p == k then e.n
    else if e.Alloc? && FirstUnused(s.table) == k then TICKETS
    else before
  }

  /** The tickets slot k was last given in a run. */
  ghost function LastTickets(s: System, es: seq<Event>, k: nat, before: nat): (n: nat)
    requires IsRun(s, es)
    decreases |es|
  {
    if es == [] then before else LastTickets(Next(s, es[0]), es[1..], k, GivenTickets(s, es[0], k, before))
  }

  lemma TicketsQuietly(s: System, e: Event, r: System, k: nat)
    requires Core(s) && Enabled(s, e) && r == Next(s, e) && k < |s.table| && MovesNoOne(e)
    ensures |r.table| == |s.table|
    ensures r.table[k].tickets == if e.SetTickets? && e.p == k then e.n else s.table[k].tickets
  {
  }

  lemma TicketsInFork(s: System, e: Event, r: System, k: nat)
    requires Core(s) && Enabled(s, e) && r == Next(s, e) && k < |s.table| && InFork(e)
    ensures |r.table| == |s.table|
    ensures r.table[k].tickets == if e.Alloc? && FirstUnused(s.table) == k then TICKETS else s.table[k].tickets
  {
  }

  lemma TicketsAtEnd(s: System, e: Event, r: System, k: nat)
    requires Core(s) && Enabled(s, e) && r == Next(s, e) && k < |s.table| && !MovesNoOne(e) && !InFork(e)
    ensures |r.table| == |s.table| && r.table[k].tickets == s.table[k].tickets
  {
  }

  lemma TicketsStep(s: System, e: Event, r: System, k: nat)
    requires Core(s) && Enabled(s, e) && r == Next(s, e) && k < |s.table|
    ensures |r.table| == |s.table|
    ensures r.table[k].tickets == GivenTickets(s, e, k, s.table[k].tickets)
  {
    if MovesNoOne(e) {
      TicketsQuietly(s, e, r, k);
    } else if InFork(e) {
      TicketsInFork(s, e, r, k);
    } else {
      TicketsAtEnd(s, e, r, k);
    }
  }

  /** A process holds the tickets it last asked for, or the 100 it was made with. */
  lemma {:induction false} TicketsAreLast(s: System, es: seq<Event>, k: nat)
    requires Core(s) && IsRun(s, es) && k < |s.table|
    ensures k < |After(s, es).table| && After(s, es).table[k].tickets == LastTickets(s, es, k, s.table[k].tickets)
    decreases |es|
  {
    if es != [] {
      var r := Next(s, es[0]);
      StepKeepsCore(s, es[0], r);
      TicketsStep(s, es[0], r, k);
      TicketsAreLast(r, es[1..], k);
    }
  }
}
