/**
 Processes as a machine whose steps are the critical sections of the process-table
 lock and the stores made outside it, and what every run of it keeps.
 */
module ProcRuns {
  import opened ProcTable

  /**
   Where a process is inside the kernel: making a child, between the two stores
   that give up a child, or past the start of exit.
   */
  datatype Task = Idle | Made(child: nat) | Parented(child: nat) | Undoing(child: nat) | Leaving

  /**
   The table and its globals; what each process is doing; the pids that have
   exited, those `wait` has returned, and how many process creations failed.
   */
  datatype System = System(
    table: seq<Proc>, init: nat, nextpid: nat, ttltcts: int,
    tasks: seq<Task>, exited: set<nat>, returned: seq<nat>, failed: nat)

  datatype Event =
    | Alloc(p: nat) | SetParent(p: nat) | ForkDone(p: nat)
    | ForkNoStack(p: nat) | ForkNoMemory(p: nat) | ForkUndone(p: nat)
    | Yield(p: nat) | Dispatch(p: nat) | SleepOn(p: nat, addr: nat) | SleepOnCond(p: nat)
    | Wakeup(c: Chan) | WakeOnCond(who: set<nat>) | Kill(pid: nat) | SetTickets(p: nat, n: nat)
    | BeginExit(p: nat) | Exit(p: nat) | Wait(p: nat)

  predicate Runs(s: System, p: nat, task: Task) {
    p < |s.table| && p < |s.tasks| && s.table[p].state == Running && s.tasks[p] == task
  }

  /** p runs, at a step of fork about slot child. */
  predicate Forks(s: System, p: nat, child: nat, task: Task) {
    Runs(s, p, task) && child < |s.table|
  }

  predicate Enabled(s: System, e: Event) {
    match e
    case Alloc(p) => Runs(s, p, Idle)
    case SetParent(p) => p < |s.tasks| && s.tasks[p].Made? && Forks(s, p, s.tasks[p].child, s.tasks[p])
    case ForkDone(p) => p < |s.tasks| && s.tasks[p].Parented? && Forks(s, p, s.tasks[p].child, s.tasks[p])
    case ForkNoStack(p) => p < |s.tasks| && s.tasks[p].Made? && Forks(s, p, s.tasks[p].child, s.tasks[p])
    case ForkNoMemory(p) => p < |s.tasks| && s.tasks[p].Parented? && Forks(s, p, s.tasks[p].child, s.tasks[p])
    case ForkUndone(p) => p < |s.tasks| && s.tasks[p].Undoing? && Forks(s, p, s.tasks[p].child, s.tasks[p])
    case Yield(p) => p < |s.table| && s.table[p].state == Running
    case Dispatch(p) => p < |s.table| && s.table[p].state == Runnable
    case SleepOn(p, _) => p < |s.table| && s.table[p].state == Running
    case SleepOnCond(p) => p < |s.table| && s.table[p].state == Running
    case Wakeup(_) => true
    case WakeOnCond(_) => true
    case Kill(_) => true
    case SetTickets(p, n) => Runs(s, p, Idle) && n > 0
    case BeginExit(p) => Runs(s, p, Idle) && p != s.init
    case Exit(p) => Runs(s, p, Leaving)
    case Wait(p) => Runs(s, p, Idle)
  }

  function WokenIf(t: seq<Proc>, who: set<nat>): (r: seq<Proc>)
    ensures |r| == |t|
    ensures forall i :: 0 <= i < |t| ==>
      r[i] == if i in who && t[i].state == Sleeping then t[i].(state := Runnable) else t[i]
  {
    seq(|t|, i requires 0 <= i < |t| => if i in who && t[i].state == Sleeping then t[i].(state := Runnable) else t[i])
  }

  function With(s: System, p: nat, q: Proc): (r: System)
    requires p < |s.table|
  {
    s.(table := s.table[p := q])
  }

  ghost function Next(s: System, e: Event): (r: System)
    requires Enabled(s, e)
  {
    match e
    case Alloc(p) =>
      var k := FirstUnused(s.table);
      if k == |s.table| then s
      else With(s, k, Allocated(s.table[k], s.nextpid)).(
        nextpid := s.nextpid + 1, ttltcts := s.ttltcts + TICKETS, tasks := s.tasks[p := Made(k)])
    case SetParent(p) =>
      var c := s.tasks[p].child;
      With(s, c, s.table[c].(parent := To(p))).(tasks := s.tasks[p := Parented(c)])
    case ForkDone(p) =>
      var c := s.tasks[p].child;
      With(s, c, s.table[c].(state := Runnable)).(tasks := s.tasks[p := Idle])
    case ForkNoStack(p) =>
      var c := s.tasks[p].child;
      With(s, c, s.table[c].(state := Unused)).(tasks := s.tasks[p := Idle], failed := s.failed + 1)
    case ForkNoMemory(p) =>
      var c := s.tasks[p].child;
      With(s, c, s.table[c].(state := Unused)).(tasks := s.tasks[p := Undoing(c)], failed := s.failed + 1)
    case ForkUndone(p) =>
      var c := s.tasks[p].child;
      With(s, c, s.table[c].(parent := Null)).(tasks := s.tasks[p := Idle])
    case Yield(p) => With(s, p, s.table[p].(state := Runnable))
    case Dispatch(p) => With(s, p, s.table[p].(state := Running, chan := NoChan))
    case SleepOn(p, addr) => With(s, p, s.table[p].(state := Sleeping, chan := Other(addr)))
    case SleepOnCond(p) => With(s, p, s.table[p].(state := Sleeping))
    case Wakeup(c) => s.(table := Woken(s.table, c))
    case WakeOnCond(who) => s.(table := WokenIf(s.table, who))
    case Kill(pid) =>
      var k := FirstPid(s.table, pid);
      if k == |s.table| then s else With(s, k, Killed(s.table[k]))
    case SetTickets(p, n) =>
      With(s, p, s.table[p].(tickets := n)).(ttltcts := s.ttltcts - s.table[p].tickets + n)
    case BeginExit(p) => s.(ttltcts := s.ttltcts - s.table[p].tickets, tasks := s.tasks[p := Leaving])
    case Exit(p) =>
      s.(table := ExitTable(s.table, p, s.init), tasks := s.tasks[p := Idle], exited := s.exited + {s.table[p].pid})
    case Wait(p) =>
      var (t, r) := WaitScan(s.table, p);
      if r.Reaped? then s.(table := t, returned := s.returned + [r.pid]) else s.(table := t)
  }

  // ---- what every state keeps ---------------------------------------------

  predicate Live(q: Proc) {
    q.state == Sleeping || q.state == Runnable || q.state == Running
  }

  predicate Making(k: Task) {
    k.Made? || k.Parented?
  }

  /** Only living processes are in the kernel, each makes its own child, and init stays. */
  ghost predicate Working(t: seq<Proc>, tasks: seq<Task>, init: nat)
    requires |t| == |tasks|
  {
    && init < |t| && Live(t[init]) && tasks[init] != Leaving
    && (forall p :: 0 <= p < |t| && tasks[p] != Idle ==> Live(t[p]))
    && (forall p :: 0 <= p < |t| && Making(tasks[p]) ==> tasks[p].child < |t| && t[tasks[p].child].state == Embryo)
    && (forall p :: 0 <= p < |t| && tasks[p].Undoing? ==> tasks[p].child < |t| && tasks[p].child != init)
    && (forall p, q :: 0 <= p < |t| && 0 <= q < |t| && p != q && Making(tasks[p]) && Making(tasks[q]) ==>
         tasks[p].child != tasks[q].child)
  }

  predicate AsleepInWait(q: Proc) {
    q.state == Sleeping && q.chan.OfProc?
  }

  /** Only sleepers and those just woken have a channel; who waits in `wait` does nothing else. */
  ghost predicate Channels(t: seq<Proc>, tasks: seq<Task>)
    requires |t| == |tasks|
  {
    && (forall i :: 0 <= i < |t| && t[i].state != Sleeping && t[i].state != Runnable ==> t[i].chan == NoChan)
    && (forall i :: 0 <= i < |t| && AsleepInWait(t[i]) ==> t[i].chan == OfProc(i) && tasks[i] == Idle && !t[i].killed)
  }

  /** Pids in use are distinct and have been given out. */
  ghost predicate Pids(t: seq<Proc>, nextpid: nat) {
    && (forall i :: 0 <= i < |t| && t[i].state != Unused ==> 0 < t[i].pid < nextpid)
    && (forall i, j :: 0 <= i < j < |t| && t[i].state != Unused && t[j].state != Unused ==> t[i].pid != t[j].pid)
  }

  ghost predicate ZombieWith(t: seq<Proc>, pid: nat) {
    exists i :: 0 <= i < |t| && t[i].state == Zombie && t[i].pid == pid
  }

  /** An exited process is a zombie or has been returned by wait, once. */
  ghost predicate Accounted(t: seq<Proc>, nextpid: nat, exited: set<nat>, returned: seq<nat>) {
    && (forall x :: x in exited ==> x < nextpid && (x in returned || ZombieWith(t, x)))
    && (forall x :: x in returned ==> x in exited)
    && (forall i, j :: 0 <= i < j < |returned| ==> returned[i] != returned[j])
    && (forall i :: 0 <= i < |t| && t[i].state == Zombie ==> t[i].pid in exited && t[i].pid !in returned)
    && (forall i :: 0 <= i < |t| && (Live(t[i]) || t[i].state == Embryo) ==> t[i].pid !in exited)
  }

  /** What holds in every run, whoever is whose parent. */
  ghost predicate Core(s: System) {
    && |s.table| == NPROC && |s.tasks| == NPROC
    && Working(s.table, s.tasks, s.init) && Channels(s.table, s.tasks)
    && Pids(s.table, s.nextpid) && Accounted(s.table, s.nextpid, s.exited, s.returned)
  }

  // ---- who is whose child -------------------------------------------------

  /** Slot c has no parent, or one that is about to take itself out. */
  predicate Stale(t: seq<Proc>, tasks: seq<Task>, c: nat)
    requires c < |t|
  {
    t[c].parent != Null ==> t[c].parent.slot < |tasks| && tasks[t[c].parent.slot] == Undoing(c)
  }

  /** Slot i's parent is another, living process; a process other than init has one, and a free slot has none. */
  predicate Kin(t: seq<Proc>, tasks: seq<Task>, init: nat, i: nat)
    requires i < |t|
  {
    && (t[i].parent != Null ==> t[i].parent.slot < |t| && t[i].parent.slot != i && Live(t[t[i].parent.slot]))
    && (t[i].state == Unused ==> Stale(t, tasks, i))
    && (t[i].state == Embryo && !Stale(t, tasks, i) ==>
         t[i].parent.slot < |tasks| && tasks[t[i].parent.slot] == Parented(i))
    && ((Live(t[i]) || t[i].state == Zombie) && i != init ==> t[i].parent != Null)
  }

  /** Process i has a child, and no zombie child. */
  ghost predicate WaitsForChild(t: seq<Proc>, i: nat)
    requires i < |t|
  {
    HasChild(t, i) && forall j :: 0 <= j < |t| && Child(t, j, i) ==> t[j].state != Zombie
  }

  ghost predicate Waiting(t: seq<Proc>) {
    forall i :: 0 <= i < |t| && AsleepInWait(t[i]) ==> WaitsForChild(t, i)
  }

  /** A child that fork has given a parent still has it. */
  ghost predicate Linked(t: seq<Proc>, tasks: seq<Task>)
    requires |t| == |tasks|
  {
    forall p :: 0 <= p < |t| && tasks[p].Parented? && tasks[p].child < |t| ==> t[tasks[p].child].parent == To(p)
  }

  ghost predicate Tree(t: seq<Proc>, tasks: seq<Task>, init: nat) {
    init < |t| && t[init].parent == Null && forall i :: 0 <= i < |t| ==> Kin(t, tasks, init, i)
  }

  ghost predicate Family(t: seq<Proc>, tasks: seq<Task>, init: nat) {
    |t| == |tasks| && Tree(t, tasks, init) && Linked(t, tasks) && Waiting(t)
  }

  ghost predicate Inv(s: System) {
    Core(s) && Family(s.table, s.tasks, s.init)
  }

  /** Slot c is a process, or a child that fork has given a parent. */
  ghost predicate InUse(t: seq<Proc>, tasks: seq<Task>, c: nat)
    requires c < |t|
  {
    Live(t[c]) || t[c].state == Zombie || exists q :: 0 <= q < |tasks| && tasks[q] == Parented(c)
  }

  /** A failed fork's second store comes when the slot belongs to another child by now. */
  ghost predicate Steals(s: System, e: Event)
    requires Enabled(s, e)
  {
    e.ForkUndone? && InUse(s.table, s.tasks, s.tasks[e.p].child)
  }

  // ---- steps that move no process in the tree -----------------------------

  /** Every slot keeps its pid and parent, and living processes stay living; no one falls asleep in wait. */
  predicate QuietSlot(a: Proc, b: Proc) {
    && a.pid == b.pid && a.parent == b.parent && (a.state == b.state || (Live(a) && Live(b)))
    && (AsleepInWait(b) ==> AsleepInWait(a) && b.chan == a.chan && b.killed == a.killed)
    && (b.state != Sleeping && b.state != Runnable ==> b.chan == NoChan)
  }

  ghost predicate Quiet(t: seq<Proc>, u: seq<Proc>) {
    |t| == |u| && forall i :: 0 <= i < |t| ==> QuietSlot(t[i], u[i])
  }

  predicate MovesNoOne(e: Event) {
    e.Yield? || e.Dispatch? || e.SleepOn? || e.SleepOnCond? || e.Wakeup? || e.WakeOnCond? || e.Kill? || e.SetTickets?
  }

  lemma QuietOne(t: seq<Proc>, tasks: seq<Task>, p: nat, b: Proc)
    requires |t| == |tasks| && Channels(t, tasks) && p < |t| && QuietSlot(t[p], b)
    ensures Quiet(t, t[p := b])
  {
  }

  predicate OwnSlot(e: Event) {
    e.Yield? || e.Dispatch? || e.SleepOn? || e.SleepOnCond? || e.SetTickets?
  }

  lemma QuietOwn(s: System, e: Event, r: System)
    requires Core(s) && Enabled(s, e) && OwnSlot(e) && r == Next(s, e)
    ensures Quiet(s.table, r.table) && r == s.(table := r.table, ttltcts := r.ttltcts)
  {
    QuietOne(s.table, s.tasks, e.p, r.table[e.p]);
  }

  lemma QuietKill(s: System, pid: nat, r: System)
    requires Core(s) && r == Next(s, Kill(pid))
    ensures Quiet(s.table, r.table) && r == s.(table := r.table)
  {
    var k := FirstPid(s.table, pid);
    if k < |s.table| { QuietOne(s.table, s.tasks, k, Killed(s.table[k])); }
  }

  lemma QuietSteps(s: System, e: Event, r: System)
    requires Core(s) && Enabled(s, e) && MovesNoOne(e) && r == Next(s, e)
    ensures Quiet(s.table, r.table) && r == s.(table := r.table, ttltcts := r.ttltcts)
  {
    if OwnSlot(e) {
      QuietOwn(s, e, r);
    } else if e.Kill? {
      QuietKill(s, e.pid, r);
    }
  }

  lemma QuietAccounted(t: seq<Proc>, u: seq<Proc>, nextpid: nat, exited: set<nat>, returned: seq<nat>)
    requires Accounted(t, nextpid, exited, returned) && Quiet(t, u)
    ensures Accounted(u, nextpid, exited, returned)
  {
    forall x | x in exited && x !in returned ensures ZombieWith(u, x) {
      var i :| 0 <= i < |t| && t[i].state == Zombie && t[i].pid == x;
      assert u[i].state == Zombie;
    }
  }

  lemma QuietWorking(t: seq<Proc>, u: seq<Proc>, tasks: seq<Task>, init: nat)
    requires |t| == |tasks| && Working(t, tasks, init) && Quiet(t, u)
    ensures Working(u, tasks, init)
  {
  }

  lemma QuietPids(t: seq<Proc>, u: seq<Proc>, tasks: seq<Task>, nextpid: nat)
    requires |t| == |tasks| && Channels(t, tasks) && Pids(t, nextpid) && Quiet(t, u)
    ensures Channels(u, tasks) && Pids(u, nextpid)
  {
  }

  lemma QuietCore(s: System, r: System)
    requires Core(s) && Quiet(s.table, r.table) && r == s.(table := r.table, ttltcts := r.ttltcts)
    ensures Core(r)
  {
    QuietWorking(s.table, r.table, s.tasks, s.init);
    QuietPids(s.table, r.table, s.tasks, s.nextpid);
    QuietAccounted(s.table, r.table, s.nextpid, s.exited, s.returned);
  }

  lemma QuietWaiting(t: seq<Proc>, u: seq<Proc>)
    requires Waiting(t) && Quiet(t, u)
    ensures Waiting(u)
  {
    forall i | 0 <= i < |u| && AsleepInWait(u[i]) ensures WaitsForChild(u, i) {
      assert WaitsForChild(t, i);
      var j :| 0 <= j < |t| && Child(t, j, i);
      assert Child(u, j, i);
      assert forall k :: 0 <= k < |u| && Child(u, k, i) ==> Child(t, k, i);
    }
  }

  lemma QuietFamily(t: seq<Proc>, u: seq<Proc>, tasks: seq<Task>, init: nat)
    requires |t| == |tasks| && Family(t, tasks, init) && Quiet(t, u)
    ensures Family(u, tasks, init)
  {
    QuietWaiting(t, u);
    forall i | 0 <= i < |u| ensures Kin(u, tasks, init, i) {
      assert Kin(t, tasks, init, i);
    }
  }

  // ---- fork ---------------------------------------------------------------

  predicate InFork(e: Event) {
    e.Alloc? || e.SetParent? || e.ForkDone? || e.ForkNoStack? || e.ForkNoMemory? || e.ForkUndone?
  }

  /** One slot k changes; it is no zombie before or after, and was no living process. */
  ghost predicate OnlySlot(t: seq<Proc>, k: nat, u: seq<Proc>) {
    && |u| == |t| && k < |t| && u == t[k := u[k]]
    && t[k].state != Zombie && u[k].state != Zombie && !Live(t[k])
  }

  lemma SlotAccounted(t: seq<Proc>, k: nat, u: seq<Proc>, nextpid: nat, next: nat, exited: set<nat>, returned: seq<nat>)
    requires Accounted(t, nextpid, exited, returned) && OnlySlot(t, k, u) && nextpid <= next
    requires u[k].state != Unused ==> u[k].pid !in exited
    ensures Accounted(u, next, exited, returned)
  {
    forall x | x in exited && x !in returned ensures ZombieWith(u, x) {
      var i :| 0 <= i < |t| && t[i].state == Zombie && t[i].pid == x;
      assert u[i] == t[i];
    }
  }

  lemma AllocWorking(t: seq<Proc>, tasks: seq<Task>, init: nat, p: nat, k: nat, q: Proc)
    requires |t| == |tasks| && Working(t, tasks, init) && p < |t| && Live(t[p]) && tasks[p] == Idle
    requires k < |t| && t[k].state == Unused && q.state == Embryo
    ensures Working(t[k := q], tasks[p := Made(k)], init)
  {
  }

  lemma AllocPids(t: seq<Proc>, nextpid: nat, k: nat, q: Proc)
    requires Pids(t, nextpid) && 0 < nextpid && k < |t| && q.pid == nextpid
    ensures Pids(t[k := q], nextpid + 1)
  {
  }

  /** allocproc takes slot k for the child of p. */
  ghost predicate Allocates(s: System, p: nat, k: nat, r: System) {
    && Runs(s, p, Idle) && k < |s.table| && s.table[k].state == Unused
    && r == s.(table := s.table[k := Allocated(s.table[k], s.nextpid)], tasks := s.tasks[p := Made(k)],
               nextpid := s.nextpid + 1, ttltcts := r.ttltcts)
  }

  lemma AllocStep(s: System, p: nat, r: System)
    requires Enabled(s, Alloc(p)) && r == Next(s, Alloc(p))
    ensures r == s || Allocates(s, p, FirstUnused(s.table), r)
  {
  }

  lemma AllocCore(s: System, p: nat, k: nat, r: System)
    requires Core(s) && Allocates(s, p, k, r)
    ensures Core(r)
  {
    AllocWorking(s.table, s.tasks, s.init, p, k, r.table[k]);
    AllocPids(s.table, s.nextpid, k, r.table[k]);
    AllocChannels(s.table, s.tasks, p, k, r.table[k]);
    SlotAccounted(s.table, k, r.table, s.nextpid, r.nextpid, s.exited, s.returned);
  }

  lemma AllocChannels(t: seq<Proc>, tasks: seq<Task>, p: nat, k: nat, q: Proc)
    requires |t| == |tasks| && Channels(t, tasks) && p < |t| && t[p].state == Running && k < |t|
    requires q.state == Embryo && q.chan == NoChan
    ensures Channels(t[k := q], tasks[p := Made(k)])
  {
  }

  /** What a step of fork after allocproc may make of the child's slot and of the forker's task. */
  predicate ForkMove(was: Proc, c: nat, q: Proc, task: Task) {
    && q == was.(state := q.state, parent := q.parent)
    && ((q.state == Runnable && task == Idle) || (q.state == Unused && (task == Idle || task == Undoing(c)))
        || (q.state == Embryo && task == Parented(c)))
  }

  lemma ForkWorking(t: seq<Proc>, tasks: seq<Task>, init: nat, p: nat, c: nat, q: Proc, task: Task)
    requires |t| == |tasks| && Working(t, tasks, init) && p < |t| && Making(tasks[p]) && c == tasks[p].child
    requires ForkMove(t[c], c, q, task)
    ensures Working(t[c := q], tasks[p := task], init)
  {
  }

  lemma ForkCore(s: System, p: nat, c: nat, r: System, q: Proc, task: Task)
    requires Core(s) && p < |s.tasks| && Making(s.tasks[p]) && c == s.tasks[p].child && ForkMove(s.table[c], c, q, task)
    requires r == s.(table := s.table[c := q], tasks := s.tasks[p := task], failed := r.failed)
    ensures Core(r)
  {
    ForkWorking(s.table, s.tasks, s.init, p, c, q, task);
    SlotAccounted(s.table, c, r.table, s.nextpid, s.nextpid, s.exited, s.returned);
  }

  lemma UndoneWorking(t: seq<Proc>, tasks: seq<Task>, init: nat, p: nat, c: nat)
    requires |t| == |tasks| && Working(t, tasks, init) && p < |t| && tasks[p] == Undoing(c) && c < |t|
    ensures Working(t[c := t[c].(parent := Null)], tasks[p := Idle], init)
  {
  }

  lemma UndonePids(t: seq<Proc>, tasks: seq<Task>, p: nat, c: nat, nextpid: nat)
    requires |t| == |tasks| && Channels(t, tasks) && Pids(t, nextpid) && p < |t| && c < |t|
    ensures Channels(t[c := t[c].(parent := Null)], tasks[p := Idle]) && Pids(t[c := t[c].(parent := Null)], nextpid)
  {
  }

  lemma UndoneAccounted(t: seq<Proc>, c: nat, nextpid: nat, exited: set<nat>, returned: seq<nat>)
    requires Accounted(t, nextpid, exited, returned) && c < |t|
    ensures Accounted(t[c := t[c].(parent := Null)], nextpid, exited, returned)
  {
    var u := t[c := t[c].(parent := Null)];
    forall x | x in exited && x !in returned ensures ZombieWith(u, x) {
      var i :| 0 <= i < |t| && t[i].state == Zombie && t[i].pid == x;
      assert u[i].state == Zombie && u[i].pid == x;
    }
  }

  lemma UndoneCore(s: System, p: nat, r: System)
    requires Core(s) && Enabled(s, ForkUndone(p)) && r == Next(s, ForkUndone(p))
    ensures Core(r)
  {
    var c := s.tasks[p].child;
    UndoneWorking(s.table, s.tasks, s.init, p, c);
    UndonePids(s.table, s.tasks, p, c, s.nextpid);
    UndoneAccounted(s.table, c, s.nextpid, s.exited, s.returned);
  }

  /** Slot k and p's task about it change. */
  lemma SlotTree(t: seq<Proc>, tasks: seq<Task>, k: nat, u: seq<Proc>, p: nat, tasks': seq<Task>, init: nat)
    requires |t| == |tasks| && Tree(t, tasks, init) && OnlySlot(t, k, u) && k != init
    requires p < |tasks| && |tasks'| == |tasks| && tasks' == tasks[p := tasks'[p]]
    requires tasks[p] == Idle || (!tasks[p].Leaving? && tasks[p].child == k)
    requires Kin(u, tasks', init, k)
    ensures Tree(u, tasks', init)
  {
    forall i | 0 <= i < |u| ensures Kin(u, tasks', init, i) {
      assert Kin(t, tasks, init, i);
    }
  }

  /** A change of slot k that takes no child from a process asleep in wait. */
  lemma SlotWaiting(t: seq<Proc>, k: nat, u: seq<Proc>)
    requires Waiting(t) && OnlySlot(t, k, u) && u[k].state != Sleeping
    requires forall i :: 0 <= i < |t| && AsleepInWait(t[i]) && Child(t, k, i) ==> Child(u, k, i)
    ensures Waiting(u)
  {
    forall i | 0 <= i < |u| && AsleepInWait(u[i]) ensures WaitsForChild(u, i) {
      assert WaitsForChild(t, i);
      var j :| 0 <= j < |t| && Child(t, j, i);
      assert Child(u, j, i);
      forall j | 0 <= j < |u| && Child(u, j, i) ensures u[j].state != Zombie {
        assert j != k ==> Child(t, j, i);
      }
    }
  }

  /** One step of fork by p about slot k, from the trees before to those after. */
  lemma ForkFamily(t: seq<Proc>, tasks: seq<Task>, init: nat, p: nat, k: nat, u: seq<Proc>, task: Task)
    requires |t| == |tasks| && Family(t, tasks, init) && Channels(t, tasks) && Working(t, tasks, init)
    requires OnlySlot(t, k, u) && k != init && p < |tasks| && u[k].state != Sleeping
    requires tasks[p] == Idle || (!tasks[p].Leaving? && tasks[p].child == k)
    requires Kin(u, tasks[p := task], init, k)
    requires Stale(t, tasks, k) || t[k].parent == To(p)
    requires Live(t[p]) && !AsleepInWait(t[p])
    requires task.Parented? ==> task.child == k && u[k].parent == To(p)
    requires u[k].parent != t[k].parent ==> forall q :: 0 <= q < |t| && q != p ==> tasks[q] != Parented(k)
    ensures Family(u, tasks[p := task], init)
  {
    SlotTree(t, tasks, k, u, p, tasks[p := task], init);
    SlotWaiting(t, k, u);
  }

  lemma AllocFamily(s: System, p: nat, k: nat, r: System)
    requires Inv(s) && Allocates(s, p, k, r)
    ensures Family(r.table, r.tasks, r.init)
  {
    assert Kin(s.table, s.tasks, s.init, k);
    ForkFamily(s.table, s.tasks, s.init, p, k, r.table, Made(k));
  }

  lemma SetParentFamily(s: System, p: nat, r: System)
    requires Inv(s) && Enabled(s, SetParent(p)) && r == Next(s, SetParent(p))
    ensures Family(r.table, r.tasks, r.init)
  {
    var c := s.tasks[p].child;
    assert Kin(s.table, s.tasks, s.init, c);
    ForkFamily(s.table, s.tasks, s.init, p, c, r.table, Parented(c));
  }

  lemma ForkDoneFamily(s: System, p: nat, r: System)
    requires Inv(s) && Enabled(s, ForkDone(p)) && r == Next(s, ForkDone(p))
    ensures Family(r.table, r.tasks, r.init)
  {
    var c := s.tasks[p].child;
    assert Kin(s.table, s.tasks, s.init, c);
    ForkFamily(s.table, s.tasks, s.init, p, c, r.table, Idle);
  }

  lemma ForkNoStackFamily(s: System, p: nat, r: System)
    requires Inv(s) && Enabled(s, ForkNoStack(p)) && r == Next(s, ForkNoStack(p))
    ensures Family(r.table, r.tasks, r.init)
  {
    var c := s.tasks[p].child;
    assert Kin(s.table, s.tasks, s.init, c);
    ForkFamily(s.table, s.tasks, s.init, p, c, r.table, Idle);
  }

  lemma ForkNoMemoryFamily(s: System, p: nat, r: System)
    requires Inv(s) && Enabled(s, ForkNoMemory(p)) && r == Next(s, ForkNoMemory(p))
    ensures Family(r.table, r.tasks, r.init)
  {
    var c := s.tasks[p].child;
    assert Kin(s.table, s.tasks, s.init, c);
    ForkFamily(s.table, s.tasks, s.init, p, c, r.table, Undoing(c));
  }

  lemma ForkUndoneFamily(s: System, p: nat, r: System)
    requires Inv(s) && Enabled(s, ForkUndone(p)) && r == Next(s, ForkUndone(p)) && !Steals(s, ForkUndone(p))
    ensures Family(r.table, r.tasks, r.init)
  {
    var c := s.tasks[p].child;
    assert Kin(s.table, s.tasks, s.init, c);
    ForkFamily(s.table, s.tasks, s.init, p, c, r.table, Idle);
  }

  // ---- exit ---------------------------------------------------------------

  lemma ExitWorking(t: seq<Proc>, tasks: seq<Task>, p: nat, init: nat, u: seq<Proc>)
    requires |t| == |tasks| && Working(t, tasks, init)
    requires p < |t| && tasks[p] == Leaving && t[p].state == Running && u == ExitTable(t, p, init)
    ensures Working(u, tasks[p := Idle], init)
  {
  }

  lemma ExitAccounted(t: seq<Proc>, p: nat, init: nat, u: seq<Proc>, nextpid: nat, exited: set<nat>, returned: seq<nat>)
    requires Accounted(t, nextpid, exited, returned) && Pids(t, nextpid)
    requires p < |t| && t[p].state == Running && u == ExitTable(t, p, init)
    ensures Accounted(u, nextpid, exited + {t[p].pid}, returned)
  {
    forall x | x in exited + {t[p].pid} && x !in returned ensures ZombieWith(u, x) {
      if x == t[p].pid {
        assert u[p].state == Zombie;
      } else {
        var i :| 0 <= i < |t| && t[i].state == Zombie && t[i].pid == x;
        assert u[i].state == Zombie && u[i].pid == x;
      }
    }
  }

  lemma ExitKeepsPids(t: seq<Proc>, tasks: seq<Task>, p: nat, init: nat, u: seq<Proc>, nextpid: nat)
    requires |t| == |tasks| && Pids(t, nextpid) && Channels(t, tasks)
    requires p < |t| && t[p].state == Running && u == ExitTable(t, p, init)
    ensures Pids(u, nextpid) && Channels(u, tasks[p := Idle])
  {
  }

  lemma ExitCore(s: System, p: nat, r: System)
    requires Core(s) && Enabled(s, Exit(p)) && r == Next(s, Exit(p))
    ensures Core(r)
  {
    ExitWorking(s.table, s.tasks, p, s.init, r.table);
    ExitKeepsPids(s.table, s.tasks, p, s.init, r.table, s.nextpid);
    ExitAccounted(s.table, p, s.init, r.table, s.nextpid, s.exited, s.returned);
  }

  lemma ExitTree(t: seq<Proc>, tasks: seq<Task>, p: nat, init: nat, u: seq<Proc>, tasks': seq<Task>)
    requires |t| == |tasks| && Tree(t, tasks, init) && Working(t, tasks, init)
    requires p < |t| && tasks[p] == Leaving && t[p].state == Running && u == ExitTable(t, p, init)
      && tasks' == tasks[p := Idle]
    ensures Tree(u, tasks', init)
  {
    forall i | 0 <= i < |u| ensures Kin(u, tasks', init, i) {
      assert Kin(t, tasks, init, i) && Kin(t, tasks, init, p);
    }
  }

  /** Who is still asleep in wait after p's exit is neither p's parent nor given a zombie. */
  lemma ExitWaits(t: seq<Proc>, tasks: seq<Task>, p: nat, init: nat, u: seq<Proc>, i: nat)
    requires |t| == |tasks| && Waiting(t) && Tree(t, tasks, init) && Channels(t, tasks)
    requires p < |t| && p != init && t[p].state == Running && u == ExitTable(t, p, init)
    requires i < |u| && AsleepInWait(u[i])
    ensures WaitsForChild(u, i)
  {
    assert i != p && WaitsForChild(t, i) && Kin(t, tasks, init, p);
    var j :| 0 <= j < |t| && Child(t, j, i);
    assert j != p && Child(u, j, i);
    forall j | 0 <= j < |u| && Child(u, j, i) ensures u[j].state != Zombie {
      assert Orphan(t, p, j) ==> ZombieOrphan(t, p, |t|);
      assert t[j].parent != To(p) ==> Child(t, j, i);
    }
  }

  lemma ExitFamily(s: System, p: nat, r: System)
    requires Inv(s) && Enabled(s, Exit(p)) && r == Next(s, Exit(p))
    ensures Family(r.table, r.tasks, r.init)
  {
    ExitTree(s.table, s.tasks, p, s.init, r.table, r.tasks);
    forall i | 0 <= i < |r.table| && AsleepInWait(r.table[i]) ensures WaitsForChild(r.table, i) {
      ExitWaits(s.table, s.tasks, p, s.init, r.table, i);
    }
  }

  // ---- wait ---------------------------------------------------------------

  lemma ReapAccounted(t: seq<Proc>, k: nat, u: seq<Proc>, nextpid: nat, exited: set<nat>, returned: seq<nat>)
    requires Accounted(t, nextpid, exited, returned) && Pids(t, nextpid)
    requires k < |t| && t[k].state == Zombie && u == t[k := Freed(t[k])]
    ensures Accounted(u, nextpid, exited, returned + [t[k].pid])
  {
    forall x | x in exited && x !in returned + [t[k].pid] ensures ZombieWith(u, x) {
      var i :| 0 <= i < |t| && t[i].state == Zombie && t[i].pid == x;
      assert i != k && u[i] == t[i];
    }
  }

  lemma ReapWorking(t: seq<Proc>, tasks: seq<Task>, init: nat, k: nat, nextpid: nat)
    requires |t| == |tasks| && Working(t, tasks, init) && Channels(t, tasks) && Pids(t, nextpid)
    requires k < |t| && t[k].state == Zombie
    ensures var u := t[k := Freed(t[k])]; Working(u, tasks, init) && Channels(u, tasks) && Pids(u, nextpid)
  {
  }

  lemma ReapCore(s: System, k: nat, r: System)
    requires Core(s) && k < |s.table| && s.table[k].state == Zombie
    requires r == s.(table := s.table[k := Freed(s.table[k])], returned := s.returned + [s.table[k].pid])
    ensures Core(r)
  {
    ReapWorking(s.table, s.tasks, s.init, k, s.nextpid);
    ReapAccounted(s.table, k, r.table, s.nextpid, s.exited, s.returned);
  }

  lemma ReapTree(t: seq<Proc>, tasks: seq<Task>, init: nat, k: nat, u: seq<Proc>)
    requires |t| == |tasks| && Tree(t, tasks, init) && Linked(t, tasks) && Working(t, tasks, init)
    requires k < |t| && t[k].state == Zombie && u == t[k := Freed(t[k])]
    ensures Tree(u, tasks, init) && Linked(u, tasks)
  {
    forall i | 0 <= i < |u| ensures Kin(u, tasks, init, i) {
      assert Kin(t, tasks, init, i);
    }
  }

  lemma ReapWaiting(t: seq<Proc>, p: nat, k: nat, u: seq<Proc>)
    requires Waiting(t) && p < |t| && t[p].state == Running
    requires k < |t| && t[k].state == Zombie && t[k].parent == To(p) && u == t[k := Freed(t[k])]
    ensures Waiting(u)
  {
    forall i | 0 <= i < |u| && AsleepInWait(u[i]) ensures WaitsForChild(u, i) {
      assert i != p && WaitsForChild(t, i);
      var j :| 0 <= j < |t| && Child(t, j, i);
      assert Child(u, j, i);
      assert forall j :: 0 <= j < |u| && Child(u, j, i) ==> Child(t, j, i);
    }
  }

  lemma ReapFamily(t: seq<Proc>, tasks: seq<Task>, init: nat, p: nat, k: nat, u: seq<Proc>)
    requires |t| == |tasks| && Family(t, tasks, init) && Working(t, tasks, init) && p < |t| && t[p].state == Running
    requires k < |t| && t[k].state == Zombie && t[k].parent == To(p) && u == t[k := Freed(t[k])]
    ensures Family(u, tasks, init)
  {
    ReapTree(t, tasks, init, k, u);
    ReapWaiting(t, p, k, u);
  }

  function AsleepFor(q: Proc, p: nat): (r: Proc) {
    q.(state := Sleeping, chan := OfProc(p))
  }

  lemma SleepAccounted(t: seq<Proc>, p: nat, u: seq<Proc>, nextpid: nat, exited: set<nat>, returned: seq<nat>)
    requires Accounted(t, nextpid, exited, returned) && p < |t| && Live(t[p]) && u == t[p := AsleepFor(t[p], p)]
    ensures Accounted(u, nextpid, exited, returned)
  {
    forall x | x in exited && x !in returned ensures ZombieWith(u, x) {
      var i :| 0 <= i < |t| && t[i].state == Zombie && t[i].pid == x;
      assert u[i] == t[i];
    }
  }

  lemma SleepWorking(t: seq<Proc>, tasks: seq<Task>, init: nat, p: nat, nextpid: nat)
    requires |t| == |tasks| && Working(t, tasks, init) && Channels(t, tasks) && Pids(t, nextpid)
    requires p < |t| && Live(t[p]) && tasks[p] == Idle && !t[p].killed
    ensures var u := t[p := AsleepFor(t[p], p)]; Working(u, tasks, init) && Channels(u, tasks) && Pids(u, nextpid)
  {
  }

  lemma SleepCore(s: System, p: nat, r: System)
    requires Core(s) && Runs(s, p, Idle) && !s.table[p].killed && r == With(s, p, AsleepFor(s.table[p], p))
    ensures Core(r)
  {
    SleepWorking(s.table, s.tasks, s.init, p, s.nextpid);
    SleepAccounted(s.table, p, r.table, s.nextpid, s.exited, s.returned);
  }

  lemma SleepFamily(t: seq<Proc>, tasks: seq<Task>, init: nat, p: nat, u: seq<Proc>)
    requires |t| == |tasks| && Family(t, tasks, init) && p < |t| && t[p].state == Running
    requires HasChild(t, p) && FirstZombie(t, p) == |t| && u == t[p := AsleepFor(t[p], p)]
    ensures Family(u, tasks, init)
  {
    forall i | 0 <= i < |u| ensures Kin(u, tasks, init, i) {
      assert Kin(t, tasks, init, i);
    }
    forall i | 0 <= i < |u| && AsleepInWait(u[i]) ensures WaitsForChild(u, i) {
      assert i != p ==> WaitsForChild(t, i);
      var j :| 0 <= j < |t| && Child(t, j, i);
      assert Child(u, j, i);
      assert forall j :: 0 <= j < |u| && Child(u, j, i) ==> Child(t, j, i);
    }
  }

  lemma WaitStep(s: System, p: nat, r: System)
    requires Core(s) && Enabled(s, Wait(p)) && r == Next(s, Wait(p))
    ensures Core(r)
    ensures Family(s.table, s.tasks, s.init) ==> Family(r.table, r.tasks, r.init)
  {
    var k := FirstZombie(s.table, p);
    if k < |s.table| {
      ReapCore(s, k, r);
      if Inv(s) { ReapFamily(s.table, s.tasks, s.init, p, k, r.table); }
    } else if HasChild(s.table, p) && !s.table[p].killed {
      SleepCore(s, p, r);
      if Inv(s) { SleepFamily(s.table, s.tasks, s.init, p, r.table); }
    }
  }

  // ---- every step ---------------------------------------------------------

  lemma ForkStepCore(s: System, e: Event, r: System)
    requires Core(s) && Enabled(s, e) && InFork(e) && r == Next(s, e)
    ensures Core(r)
  {
    if e.Alloc? {
      AllocStep(s, e.p, r);
      if r != s { AllocCore(s, e.p, FirstUnused(s.table), r); }
    } else if e.ForkUndone? {
      UndoneCore(s, e.p, r);
    } else {
      var c := s.tasks[e.p].child;
      ForkCore(s, e.p, c, r, r.table[c], r.tasks[e.p]);
    }
  }

  lemma BeginExitCore(s: System, p: nat, r: System)
    requires Core(s) && Runs(s, p, Idle) && p != s.init && r == s.(ttltcts := r.ttltcts, tasks := s.tasks[p := Leaving])
    ensures Core(r)
  {
  }

  lemma QuietStepCore(s: System, e: Event, r: System)
    requires Core(s) && Enabled(s, e) && MovesNoOne(e) && r == Next(s, e)
    ensures Core(r)
  {
    QuietSteps(s, e, r);
    QuietCore(s, r);
  }

  lemma StepKeepsCore(s: System, e: Event, r: System)
    requires Core(s) && Enabled(s, e) && r == Next(s, e)
    ensures Core(r)
  {
    if MovesNoOne(e) {
      QuietStepCore(s, e, r);
    } else if InFork(e) {
      ForkStepCore(s, e, r);
    } else if e.BeginExit? {
      BeginExitCore(s, e.p, r);
    } else if e.Exit? {
      ExitCore(s, e.p, r);
    } else {
      WaitStep(s, e.p, r);
    }
  }

  lemma ForkStepFamily(s: System, e: Event, r: System)
    requires Inv(s) && Enabled(s, e) && InFork(e) && r == Next(s, e) && !Steals(s, e)
    ensures Family(r.table, r.tasks, r.init)
  {
    match e
    case Alloc(p) =>
      AllocStep(s, p, r);
      if r != s { AllocFamily(s, p, FirstUnused(s.table), r); }
    case SetParent(p) => SetParentFamily(s, p, r);
    case ForkDone(p) => ForkDoneFamily(s, p, r);
    case ForkNoStack(p) => ForkNoStackFamily(s, p, r);
    case ForkNoMemory(p) => ForkNoMemoryFamily(s, p, r);
    case ForkUndone(p) => ForkUndoneFamily(s, p, r);
  }

  lemma BeginExitFamily(s: System, p: nat, r: System)
    requires Inv(s) && Enabled(s, BeginExit(p)) && r == Next(s, BeginExit(p))
    ensures Family(r.table, r.tasks, r.init)
  {
    forall i | 0 <= i < |r.table| ensures Kin(r.table, r.tasks, r.init, i) {
      assert Kin(s.table, s.tasks, s.init, i);
    }
  }

  lemma StepKeepsFamily(s: System, e: Event, r: System)
    requires Inv(s) && Enabled(s, e) && r == Next(s, e) && !Steals(s, e)
    ensures Family(r.table, r.tasks, r.init)
  {
    if MovesNoOne(e) {
      QuietSteps(s, e, r);
      QuietFamily(s.table, r.table, s.tasks, s.init);
    } else if InFork(e) {
      ForkStepFamily(s, e, r);
    } else if e.BeginExit? {
      BeginExitFamily(s, e.p, r);
    } else if e.Exit? {
      ExitFamily(s, e.p, r);
    } else {
      WaitStep(s, e.p, r);
    }
  }

  // ---- all runs -----------------------------------------------------------

  /**
   No child is lost: who sleeps in wait has a child and no zombie child, every
   process but init has a living parent, and so has a child fork is making.
   */
  ghost predicate NoneLost(s: System) {
    && |s.table| == |s.tasks| && Waiting(s.table) && Linked(s.table, s.tasks)
    && forall i :: 0 <= i < |s.table| && i != s.init && (Live(s.table[i]) || s.table[i].state == Zombie) ==>
         HasLivingParent(s.table, i)
  }

  predicate HasLivingParent(t: seq<Proc>, i: nat)
    requires i < |t|
  {
    t[i].parent != Null && t[i].parent.slot < |t| && Live(t[t[i].parent.slot])
  }

  lemma FamilyLosesNone(s: System)
    requires Inv(s)
    ensures NoneLost(s)
  {
    forall i | 0 <= i < |s.table| && i != s.init && (Live(s.table[i]) || s.table[i].state == Zombie)
      ensures HasLivingParent(s.table, i)
    {
      assert Kin(s.table, s.tasks, s.init, i);
    }
  }

  /** The late store takes the parent from a process, or from a child in the making. */
  lemma StealLosesOne(s: System, e: Event, r: System)
    requires Core(s) && Enabled(s, e) && r == Next(s, e) && Steals(s, e)
    ensures !NoneLost(r)
  {
    var c := s.tasks[e.p].child;
    assert r.table[c].parent == Null;
    if !Live(s.table[c]) && s.table[c].state != Zombie {
      var q :| 0 <= q < |s.tasks| && s.tasks[q] == Parented(c);
      assert r.tasks[q] == Parented(c);
    } else {
      assert !HasLivingParent(r.table, c);
    }
  }

  const FREE_SLOT := Proc(Unused, 0, Null, NoChan, false, 0)

  /** After userinit: init alone, runnable. */
  function Boot(): (s: System) {
    var blank := seq(NPROC, i => FREE_SLOT);
    System(blank[0 := Proc(Runnable, 1, Null, NoChan, false, TICKETS)], 0, 2, TICKETS, seq(NPROC, i => Idle), {}, [], 0)
  }

  /** init in slot 0 and nothing else. */
  ghost predicate InitAlone(t: seq<Proc>, tasks: seq<Task>) {
    && |t| == NPROC && |tasks| == NPROC && t[0] == Proc(Runnable, 1, Null, NoChan, false, TICKETS)
    && (forall i :: 0 < i < |t| ==> t[i] == FREE_SLOT) && (forall i :: 0 <= i < |tasks| ==> tasks[i] == Idle)
  }

  lemma InitAloneCore(t: seq<Proc>, tasks: seq<Task>)
    requires InitAlone(t, tasks)
    ensures Working(t, tasks, 0) && Channels(t, tasks) && Pids(t, 2) && Accounted(t, 2, {}, [])
  {
  }

  lemma InitAloneFamily(t: seq<Proc>, tasks: seq<Task>)
    requires InitAlone(t, tasks)
    ensures Family(t, tasks, 0)
  {
    forall i | 0 <= i < |t| ensures Kin(t, tasks, 0, i) { }
  }

  lemma BootInv()
    ensures Inv(Boot())
  {
    InitAloneCore(Boot().table, Boot().tasks);
    InitAloneFamily(Boot().table, Boot().tasks);
  }

  ghost predicate IsRun(s: System, es: seq<Event>)
    decreases |es|
  {
    es == [] || (Enabled(s, es[0]) && IsRun(Next(s, es[0]), es[1..]))
  }

  ghost function After(s: System, es: seq<Event>): (r: System)
    requires IsRun(s, es)
    decreases |es|
  {
    if es == [] then s else After(Next(s, es[0]), es[1..])
  }

  lemma {:induction false} RunMore(s: System, es: seq<Event>, e: Event)
    requires IsRun(s, es) && Enabled(After(s, es), e)
    ensures IsRun(s, es + [e]) && After(s, es + [e]) == Next(After(s, es), e)
    decreases |es|
  {
    if es == [] {
      assert es + [e] == [e] && [e][1..] == [];
      assert IsRun(Next(s, e), []) && After(Next(s, e), []) == Next(s, e);
    } else {
      RunMore(Next(s, es[0]), es[1..], e);
      assert (es + [e])[1..] == es[1..] + [e];
    }
  }

  /** In every state of the run no child is lost. */
  ghost predicate NeverLost(s: System, es: seq<Event>)
    requires IsRun(s, es)
    decreases |es|
  {
    NoneLost(s) && (es != [] ==> NeverLost(Next(s, es[0]), es[1..]))
  }

  /** No step of the run is a store into a slot that another child has by then. */
  ghost predicate NeverSteals(s: System, es: seq<Event>)
    requires IsRun(s, es)
    decreases |es|
  {
    es != [] ==> !Steals(s, es[0]) && NeverSteals(Next(s, es[0]), es[1..])
  }

  lemma {:induction false} RunKeepsCore(s: System, es: seq<Event>)
    requires Core(s) && IsRun(s, es)
    ensures Core(After(s, es))
    decreases |es|
  {
    if es != [] {
      StepKeepsCore(s, es[0], Next(s, es[0]));
      RunKeepsCore(Next(s, es[0]), es[1..]);
    }
  }

  lemma {:induction false} NeverLostIff(s: System, es: seq<Event>)
    requires Inv(s) && IsRun(s, es)
    ensures NeverLost(s, es) <==> NeverSteals(s, es)
    decreases |es|
  {
    FamilyLosesNone(s);
    if es != [] {
      var r := Next(s, es[0]);
      if Steals(s, es[0]) {
        StealLosesOne(s, es[0], r);
      } else {
        StepKeepsCore(s, es[0], r);
        StepKeepsFamily(s, es[0], r);
        NeverLostIff(r, es[1..]);
      }
    }
  }

  /** In every run from boot an exited pid is a zombie's or has been returned by wait, and none is returned twice. */
  lemma EachExitOnce(es: seq<Event>)
    requires IsRun(Boot(), es)
    ensures var s := After(Boot(), es);
      && (forall x :: x in s.exited <==> x in s.returned || ZombieWith(s.table, x))
      && (forall x :: x in s.returned ==> !ZombieWith(s.table, x))
      && (forall i, j :: 0 <= i < j < |s.returned| ==> s.returned[i] != s.returned[j])
  {
    BootInv();
    RunKeepsCore(Boot(), es);
  }

  /**
   A run from boot loses no child, in any of its states, if and only if no failed
   fork's second store finds its slot taken by another child.
   */
  lemma NoLostChild(es: seq<Event>)
    requires IsRun(Boot(), es)
    ensures NeverLost(Boot(), es) <==> NeverSteals(Boot(), es)
  {
    BootInv();
    NeverLostIff(Boot(), es);
  }

  // ---- when no fork comes between the two stores --------------------------

  /** The step takes a slot that a failed fork has freed but not finished with. */
  ghost predicate Takes(s: System, e: Event) {
    e.Alloc? && exists q :: 0 <= q < |s.tasks| && s.tasks[q] == Undoing(FirstUnused(s.table))
  }

  /** A slot that a failed fork has not finished with is still free. */
  ghost predicate StillFree(t: seq<Proc>, tasks: seq<Task>) {
    forall q :: 0 <= q < |tasks| && tasks[q].Undoing? && tasks[q].child < |t| ==> t[tasks[q].child].state == Unused
  }

  lemma StillFreeQuietly(t: seq<Proc>, u: seq<Proc>, tasks: seq<Task>)
    requires StillFree(t, tasks) && Quiet(t, u)
    ensures StillFree(u, tasks)
  {
  }

  lemma ForkKeepsFree(s: System, e: Event, r: System)
    requires Core(s) && Enabled(s, e) && InFork(e) && r == Next(s, e) && StillFree(s.table, s.tasks) && !Takes(s, e)
    ensures StillFree(r.table, r.tasks)
  {
    if e.Alloc? {
      AllocStep(s, e.p, r);
    } else {
      var c := s.tasks[e.p].child;
      SlotKeepsFree(s.table, s.tasks, e.p, c, r.table[c], r.tasks[e.p]);
    }
  }

  /** A step of fork by p about slot c, which is nobody else's to free. */
  lemma SlotKeepsFree(t: seq<Proc>, tasks: seq<Task>, p: nat, c: nat, q: Proc, task: Task)
    requires |t| == |tasks| && StillFree(t, tasks) && p < |t| && c < |t|
    requires (task.Undoing? ==> task.child == c) && (q.state == Unused || q.state == t[c].state || t[c].state == Embryo)
    requires task.Undoing? ==> q.state == Unused
    ensures StillFree(t[c := q], tasks[p := task])
  {
  }

  lemma ExitKeepsFree(t: seq<Proc>, tasks: seq<Task>, p: nat, init: nat, u: seq<Proc>)
    requires |t| == |tasks| && StillFree(t, tasks) && p < |t| && t[p].state == Running && u == ExitTable(t, p, init)
    ensures StillFree(u, tasks[p := Idle])
  {
  }

  lemma WaitKeepsFree(t: seq<Proc>, tasks: seq<Task>, p: nat)
    requires StillFree(t, tasks) && p < |t| && t[p].state == Running
    ensures StillFree(WaitScan(t, p).0, tasks)
  {
  }

  lemma StepKeepsFree(s: System, e: Event, r: System)
    requires Core(s) && Enabled(s, e) && r == Next(s, e) && StillFree(s.table, s.tasks) && !Takes(s, e)
    ensures StillFree(r.table, r.tasks)
  {
    if MovesNoOne(e) {
      QuietSteps(s, e, r);
      StillFreeQuietly(s.table, r.table, s.tasks);
    } else if InFork(e) {
      ForkKeepsFree(s, e, r);
    } else if e.Exit? {
      ExitKeepsFree(s.table, s.tasks, e.p, s.init, r.table);
    } else if e.Wait? {
      WaitKeepsFree(s.table, s.tasks, e.p);
    }
  }

  lemma FreeIsNoTheft(s: System, e: Event)
    requires Core(s) && Enabled(s, e) && StillFree(s.table, s.tasks)
    ensures !Steals(s, e)
  {
  }

  ghost predicate NeverTakes(s: System, es: seq<Event>)
    requires IsRun(s, es)
    decreases |es|
  {
    es != [] ==> !Takes(s, es[0]) && NeverTakes(Next(s, es[0]), es[1..])
  }

  /** So a run in which no allocproc comes between the two stores loses no child. */
  lemma {:induction false} UntakenNeverSteals(s: System, es: seq<Event>)
    requires Core(s) && StillFree(s.table, s.tasks) && IsRun(s, es) && NeverTakes(s, es)
    ensures NeverSteals(s, es)
    decreases |es|
  {
    if es != [] {
      var r := Next(s, es[0]);
      FreeIsNoTheft(s, es[0]);
      StepKeepsCore(s, es[0], r);
      StepKeepsFree(s, es[0], r);
      UntakenNeverSteals(r, es[1..]);
    }
  }

  lemma UntakenLosesNone(es: seq<Event>)
    requires IsRun(Boot(), es) && NeverTakes(Boot(), es)
    ensures NeverLost(Boot(), es)
  {
    BootInv();
    UntakenNeverSteals(Boot(), es);
    NoLostChild(es);
  }
}
