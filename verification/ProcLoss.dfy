/**
 A run in which a process sleeps in wait for good: between the two stores with
 which a fork gives up its child, another fork takes the slot.
 */
module ProcLoss {
  import opened ProcTable
  import opened ProcRuns

  /** Slots 0, 1 and 2 and what the first two are doing; all other slots are free. */
  ghost predicate Small(s: System, a: Proc, b: Proc, c: Proc, first: Task, second: Task) {
    && |s.table| == NPROC && |s.tasks| == NPROC && s.init == 0
    && s.table[0] == a && s.table[1] == b && s.table[2] == c && s.tasks[0] == first && s.tasks[1] == second
    && forall i :: 2 < i < NPROC ==> s.table[i] == FREE_SLOT
  }

  /** The run so far leads to a small state. */
  ghost predicate Leads(es: seq<Event>, a: Proc, b: Proc, c: Proc, first: Task, second: Task, nextpid: nat) {
    IsRun(Boot(), es) && Small(After(Boot(), es), a, b, c, first, second) && After(Boot(), es).nextpid == nextpid
  }

  function Process(state: State, pid: nat, parent: Link): (p: Proc) {
    Proc(state, pid, parent, NoChan, false, TICKETS)
  }

  /** init runs and allocates process 1. */
  lemma FirstMade() returns (es: seq<Event>)
    ensures Leads(es, Process(Running, 1, Null), Process(Embryo, 2, Null), FREE_SLOT, Made(1), Idle, 3)
  {
    assert Leads([], Process(Runnable, 1, Null), FREE_SLOT, FREE_SLOT, Idle, Idle, 2);
    RunMore(Boot(), [], Dispatch(0));
    es := [] + [Dispatch(0)];
    assert Leads(es, Process(Running, 1, Null), FREE_SLOT, FREE_SLOT, Idle, Idle, 2);
    assert FirstUnused(After(Boot(), es).table) == 1;
    RunMore(Boot(), es, Alloc(0));
    es := es + [Alloc(0)];
  }

  /** init forks process 1. */
  lemma FirstChild() returns (es: seq<Event>)
    ensures Leads(es, Process(Running, 1, Null), Process(Runnable, 2, To(0)), FREE_SLOT, Idle, Idle, 3)
  {
    es := FirstMade();
    RunMore(Boot(), es, SetParent(0));
    es := es + [SetParent(0)];
    assert Leads(es, Process(Running, 1, Null), Process(Embryo, 2, To(0)), FREE_SLOT, Parented(1), Idle, 3);
    RunMore(Boot(), es, ForkDone(0));
    es := es + [ForkDone(0)];
  }

  /** init's second fork runs out of memory and has freed the slot, but not yet its parent link. */
  lemma HalfUndone() returns (es: seq<Event>)
    ensures Leads(es, Process(Running, 1, Null), Process(Running, 2, To(0)), Process(Unused, 3, To(0)), Undoing(2),
      Idle, 4)
  {
    var init, child := Process(Running, 1, Null), Process(Running, 2, To(0));
    es := FirstChild();
    RunMore(Boot(), es, Dispatch(1));
    es := es + [Dispatch(1)];
    assert Leads(es, init, child, FREE_SLOT, Idle, Idle, 3);
    assert FirstUnused(After(Boot(), es).table) == 2;
    RunMore(Boot(), es, Alloc(0));
    es := es + [Alloc(0)];
    assert Leads(es, init, child, Process(Embryo, 3, Null), Made(2), Idle, 4);
    RunMore(Boot(), es, SetParent(0));
    es := es + [SetParent(0)];
    assert Leads(es, init, child, Process(Embryo, 3, To(0)), Parented(2), Idle, 4);
    RunMore(Boot(), es, ForkNoMemory(0));
    es := es + [ForkNoMemory(0)];
  }

  /** Process 1 forks into the same slot. */
  lemma SlotTaken() returns (es: seq<Event>)
    ensures Leads(es, Process(Running, 1, Null), Process(Running, 2, To(0)), Process(Runnable, 4, To(1)),
      Undoing(2), Idle, 5)
  {
    var init, child := Process(Running, 1, Null), Process(Running, 2, To(0));
    es := HalfUndone();
    assert FirstUnused(After(Boot(), es).table) == 2;
    RunMore(Boot(), es, Alloc(1));
    es := es + [Alloc(1)];
    assert Leads(es, init, child, Process(Embryo, 4, To(0)), Undoing(2), Made(2), 5);
    RunMore(Boot(), es, SetParent(1));
    es := es + [SetParent(1)];
    assert Leads(es, init, child, Process(Embryo, 4, To(1)), Undoing(2), Parented(2), 5);
    RunMore(Boot(), es, ForkDone(1));
    es := es + [ForkDone(1)];
  }

  /** Process 1 waits for its child. */
  lemma SleepsInWait() returns (es: seq<Event>)
    ensures Leads(es, Process(Running, 1, Null), AsleepFor(Process(Running, 2, To(0)), 1),
      Process(Runnable, 4, To(1)), Undoing(2), Idle, 5)
  {
    es := SlotTaken();
    var t := After(Boot(), es).table;
    assert Child(t, 2, 1);
    assert FirstZombie(t, 1) == |t|;
    RunMore(Boot(), es, Wait(1));
    es := es + [Wait(1)];
  }

  /** init's late store takes the child away. */
  lemma WaitsForNobody() returns (es: seq<Event>)
    ensures IsRun(Boot(), es)
    ensures var t := After(Boot(), es).table; |t| > 1 && AsleepInWait(t[1]) && !HasChild(t, 1)
  {
    es := SleepsInWait();
    RunMore(Boot(), es, ForkUndone(0));
    es := es + [ForkUndone(0)];
    Alone(After(Boot(), es), Process(Running, 1, Null), AsleepFor(Process(Running, 2, To(0)), 1),
      Process(Runnable, 4, Null));
  }

  lemma Alone(s: System, a: Proc, b: Proc, c: Proc)
    requires Small(s, a, b, c, Idle, Idle) && a.parent == Null && b.parent == To(0) && c.parent == Null
    ensures !HasChild(s.table, 1)
  {
  }
}
