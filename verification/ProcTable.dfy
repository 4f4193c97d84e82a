/**
 The process table: what each critical section of the process-table lock does to
 it, as functions on the table, and the table-scan loops proved against them.
 */
module ProcTable {
  const NPROC := 64
  const TICKETS := 100

  datatype State = Unused | Embryo | Sleeping | Runnable | Running | Zombie

  /** A pointer to a slot of the table, or null. */
  datatype Link = Null | To(slot: nat)

  /** What a process sleeps on: nothing, a process (in `wait`), or another address. */
  datatype Chan = NoChan | OfProc(slot: nat) | Other(addr: nat)

  datatype Proc = Proc(state: State, pid: nat, parent: Link, chan: Chan, killed: bool, tickets: nat)

  /** What one scan of `wait` does: returns a child's pid, returns -1, or sleeps. */
  datatype WaitResult = Reaped(pid: nat) | NoChildren | Sleeps

  // ---- wakeup1 ------------------------------------------------------------

  function Wake(p: Proc, c: Chan): (r: Proc) {
    if p.state == Sleeping && p.chan == c then p.(state := Runnable) else p
  }

  function Woken(t: seq<Proc>, c: Chan): (r: seq<Proc>)
    ensures |r| == |t| && forall i :: 0 <= i < |t| ==> r[i] == Wake(t[i], c)
  {
    seq(|t|, i requires 0 <= i < |t| => Wake(t[i], c))
  }

  // ---- allocproc and kill -------------------------------------------------

  /** The first unused slot from i on, or |t|. */
  function UnusedFrom(t: seq<Proc>, i: nat): (k: nat)
    requires i <= |t|
    ensures i <= k <= |t| && (k < |t| ==> t[k].state == Unused)
    ensures forall j :: i <= j < k ==> t[j].state != Unused
    decreases |t| - i
  {
    if i == |t| || t[i].state == Unused then i else UnusedFrom(t, i + 1)
  }

  function FirstUnused(t: seq<Proc>): (k: nat) {
    UnusedFrom(t, 0)
  }

  function Allocated(p: Proc, pid: nat): (r: Proc) {
    p.(state := Embryo, pid := pid, tickets := TICKETS)
  }

  /** The first slot with this pid from i on, or |t|. */
  function PidFrom(t: seq<Proc>, pid: nat, i: nat): (k: nat)
    requires i <= |t|
    ensures i <= k <= |t| && (k < |t| ==> t[k].pid == pid)
    ensures forall j :: i <= j < k ==> t[j].pid != pid
    decreases |t| - i
  {
    if i == |t| || t[i].pid == pid then i else PidFrom(t, pid, i + 1)
  }

  function FirstPid(t: seq<Proc>, pid: nat): (k: nat) {
    PidFrom(t, pid, 0)
  }

  function Killed(p: Proc): (r: Proc) {
    p.(killed := true, state := if p.state == Sleeping then Runnable else p.state)
  }

  // ---- exit ---------------------------------------------------------------

  /** A process pointer as a channel; a null one is the channel of those who sleep on nothing. */
  function ChanOf(l: Link): (c: Chan) {
    match l case Null => NoChan case To(slot) => OfProc(slot)
  }

  /** Slot i becomes a zombie child of init when p exits. */
  predicate Orphan(t: seq<Proc>, p: nat, i: int) {
    0 <= i < |t| && t[i].parent == To(p) && t[i].state == Zombie
  }

  ghost predicate ZombieOrphan(t: seq<Proc>, p: nat, n: nat) {
    exists i :: 0 <= i < n && Orphan(t, p, i)
  }

  lemma OrphanNext(t: seq<Proc>, p: nat, n: nat)
    ensures ZombieOrphan(t, p, n + 1) <==> ZombieOrphan(t, p, n) || Orphan(t, p, n)
  {
  }

  /** A process other than p after p has exited. */
  ghost function ExitOther(t: seq<Proc>, p: nat, init: nat, i: nat): (r: Proc)
    requires i < |t| && p < |t|
  {
    var q := t[i];
    var woken := q.state == Sleeping &&
      (q.chan == ChanOf(t[p].parent) || (q.chan == OfProc(init) && ZombieOrphan(t, p, |t|)));
    q.(parent := if q.parent == To(p) then To(init) else q.parent, state := if woken then Runnable else q.state)
  }

  /** The table after the locked part of exit by p. */
  ghost function ExitTable(t: seq<Proc>, p: nat, init: nat): (r: seq<Proc>)
    requires p < |t|
    ensures |r| == |t| && r[p] == t[p].(state := Zombie, killed := false)
    ensures forall i :: 0 <= i < |t| && i != p ==> r[i] == ExitOther(t, p, init, i)
  {
    seq(|t|, i requires 0 <= i < |t| =>
      if i == p then t[p].(state := Zombie, killed := false) else ExitOther(t, p, init, i))
  }

  // ---- wait ---------------------------------------------------------------

  predicate Child(t: seq<Proc>, i: nat, p: nat)
    requires i < |t|
  {
    t[i].state != Unused && t[i].parent == To(p)
  }

  /** The first zombie child of p from i on, or |t|. */
  function ZombieFrom(t: seq<Proc>, p: nat, i: nat): (k: nat)
    requires i <= |t|
    ensures i <= k <= |t| && (k < |t| ==> Child(t, k, p) && t[k].state == Zombie)
    ensures forall j :: i <= j < k && Child(t, j, p) ==> t[j].state != Zombie
    decreases |t| - i
  {
    if i == |t| || (Child(t, i, p) && t[i].state == Zombie) then i else ZombieFrom(t, p, i + 1)
  }

  function FirstZombie(t: seq<Proc>, p: nat): (k: nat) {
    ZombieFrom(t, p, 0)
  }

  ghost predicate HasChild(t: seq<Proc>, p: nat) {
    exists i :: 0 <= i < |t| && Child(t, i, p)
  }

  function Freed(p: Proc): (r: Proc) {
    p.(state := Unused, pid := 0, parent := Null)
  }

  /** One scan of wait by p: the table and what happened. */
  ghost function WaitScan(t: seq<Proc>, p: nat): (r: (seq<Proc>, WaitResult))
    requires p < |t|
    ensures |r.0| == |t|
  {
    var k := FirstZombie(t, p);
    if k < |t| then (t[k := Freed(t[k])], Reaped(t[k].pid))
    else if !HasChild(t, p) || t[p].killed then (t, NoChildren)
    else (t[p := t[p].(state := Sleeping, chan := OfProc(p))], Sleeps)
  }

  // ---- what the loops do, slot by slot ------------------------------------

  predicate SameLinks(a: Proc, b: Proc) {
    a.parent == b.parent && a.chan == b.chan
  }

  /** The lowest slot with the pid is marked killed, made runnable if it slept, and nothing else changes. */
  ghost predicate IsKilled(t: seq<Proc>, u: seq<Proc>, pid: nat, k: nat) {
    && |u| == |t| && k < |t| && t[k].pid == pid && (forall j :: 0 <= j < k ==> t[j].pid != pid)
    && (forall j :: 0 <= j < |t| && j != k ==> u[j] == t[j])
    && u[k].killed && u[k].state == (if t[k].state == Sleeping then Runnable else t[k].state)
    && u[k].pid == t[k].pid && SameLinks(u[k], t[k]) && u[k].tickets == t[k].tickets
  }

  /** Slot i slept on p's parent, or on init while a child of p is a zombie. */
  ghost predicate WokenByExit(t: seq<Proc>, p: nat, init: nat, i: nat)
    requires i < |t| && p < |t|
  {
    && t[i].state == Sleeping
    && ((t[p].parent.To? && t[i].chan == OfProc(t[p].parent.slot)) || (t[p].parent == Null && t[i].chan == NoChan)
        || (t[i].chan == OfProc(init) && exists j :: 0 <= j < |t| && t[j].parent == To(p) && t[j].state == Zombie))
  }

  /** p is a zombie; its children are init's; who slept on its parent, or on init beside a zombie, is runnable. */
  ghost predicate IsExited(t: seq<Proc>, u: seq<Proc>, p: nat, init: nat) {
    && |u| == |t| && p < |t| && u[p] == t[p].(state := Zombie, killed := false)
    && (forall i :: 0 <= i < |t| && i != p ==>
          && u[i].pid == t[i].pid && u[i].chan == t[i].chan && u[i].killed == t[i].killed
          && u[i].tickets == t[i].tickets
          && u[i].parent == (if t[i].parent == To(p) then To(init) else t[i].parent)
          && u[i].state == if WokenByExit(t, p, init, i) then Runnable else t[i].state)
  }

  lemma ExitShows(t: seq<Proc>, p: nat, init: nat)
    requires p < |t|
    ensures IsExited(t, ExitTable(t, p, init), p, init)
  {
    assert ZombieOrphan(t, p, |t|) <==> exists j :: 0 <= j < |t| && t[j].parent == To(p) && t[j].state == Zombie by {
      if ZombieOrphan(t, p, |t|) { var j :| 0 <= j < |t| && Orphan(t, p, j); assert t[j].parent == To(p); }
      if j :| 0 <= j < |t| && t[j].parent == To(p) && t[j].state == Zombie { assert Orphan(t, p, j); }
    }
  }

  predicate IsChild(t: seq<Proc>, i: nat, p: nat) {
    i < |t| && t[i].state != Unused && t[i].parent == To(p)
  }

  predicate ZombieChild(t: seq<Proc>, i: nat, p: nat) {
    i < |t| && t[i].state == Zombie && t[i].parent == To(p)
  }

  /** A zombie child is reaped iff there is one; else -1 without children or when killed; else p sleeps on itself. */
  ghost predicate HasWaited(t: seq<Proc>, u: seq<Proc>, p: nat, r: WaitResult) {
    && p < |t| && (r.Reaped? <==> exists i :: 0 <= i < |t| && ZombieChild(t, i, p))
    && (r == NoChildren <==> !r.Reaped? && ((forall i :: 0 <= i < |t| ==> !IsChild(t, i, p)) || t[p].killed))
    && match r
       case Reaped(pid) => exists k :: 0 <= k < |t| && IsReaped(t, u, p, k, pid)
       case NoChildren => u == t
       case Sleeps => u == t[p := t[p].(state := Sleeping, chan := OfProc(p))]
  }

  lemma WaitShows(t: seq<Proc>, p: nat)
    requires p < |t|
    ensures HasWaited(t, WaitScan(t, p).0, p, WaitScan(t, p).1)
  {
    var k := FirstZombie(t, p);
    if k < |t| {
      assert ZombieChild(t, k, p) && IsReaped(t, WaitScan(t, p).0, p, k, t[k].pid);
    } else {
      forall i | 0 <= i < |t| ensures IsChild(t, i, p) <==> Child(t, i, p) { }
    }
  }

  /** The lowest zombie child is freed, and nothing else changes. */
  ghost predicate IsReaped(t: seq<Proc>, u: seq<Proc>, p: nat, k: nat, pid: nat) {
    && |u| == |t| && ZombieChild(t, k, p) && (forall j :: 0 <= j < k ==> !ZombieChild(t, j, p))
    && pid == t[k].pid && (forall j :: 0 <= j < |t| && j != k ==> u[j] == t[j])
    && u[k].state == Unused && u[k].pid == 0 && u[k].parent == Null && u[k].chan == t[k].chan
    && u[k].killed == t[k].killed && u[k].tickets == t[k].tickets
  }

  // ---- the loops ----------------------------------------------------------

  class Table {
    var procs: array<Proc>
    var nextpid: nat
    var ttltcts: int

    /** allocproc: the first unused slot becomes an embryo with the next pid. */
    method AllocProc() returns (k: nat)
      modifies procs, `nextpid, `ttltcts
      ensures k == FirstUnused(old(procs[..]))
      ensures k < procs.Length ==> procs[..] == old(procs[..])[k := Allocated(old(procs[k]), old(nextpid))]
      ensures k < procs.Length ==> nextpid == old(nextpid) + 1 && ttltcts == old(ttltcts) + TICKETS
      ensures k >= procs.Length ==> procs[..] == old(procs[..]) && nextpid == old(nextpid) && ttltcts == old(ttltcts)
      ensures k <= procs.Length && (forall i :: 0 <= i < k ==> old(procs[i]).state != Unused)
      ensures k < procs.Length ==>
        && old(procs[k]).state == Unused && procs[k].state == Embryo && procs[k].pid == old(nextpid)
        && procs[k].tickets == 100 && SameLinks(old(procs[k]), procs[k]) && procs[k].killed == old(procs[k]).killed
      ensures forall i :: 0 <= i < procs.Length && i != k ==> procs[i] == old(procs[i])
    {
      k := 0;
      while k < procs.Length
        invariant k <= procs.Length && procs[..] == old(procs[..]) && nextpid == old(nextpid) && ttltcts == old(ttltcts)
        invariant forall i :: 0 <= i < k ==> procs[i].state != Unused
      {
        if procs[k].state == Unused {
          procs[k] := Allocated(procs[k], nextpid);
          nextpid := nextpid + 1;
          ttltcts := ttltcts + TICKETS;
          return;
        }
        k := k + 1;
      }
    }

    /** wakeup1: every process asleep on c becomes runnable. */
    method Wakeup1(c: Chan)
      modifies procs
      ensures procs[..] == Woken(old(procs[..]), c)
      ensures forall i :: 0 <= i < procs.Length ==>
        procs[i] == old(procs[i]).(state := procs[i].state) &&
        procs[i].state == if old(procs[i]).state == Sleeping && old(procs[i]).chan == c then Runnable
                          else old(procs[i]).state
    {
      var i := 0;
      while i < procs.Length
        invariant 0 <= i <= procs.Length
        invariant forall j :: 0 <= j < i ==> procs[j] == Wake(old(procs[j]), c)
        invariant forall j :: i <= j < procs.Length ==> procs[j] == old(procs[j])
      {
        if procs[i].state == Sleeping && procs[i].chan == c {
          procs[i] := procs[i].(state := Runnable);
        }
        i := i + 1;
      }
    }

    /** kill: the first process with this pid is marked and not left asleep. */
    method Kill(pid: nat) returns (found: bool)
      modifies procs
      ensures found <==> exists i :: 0 <= i < procs.Length && old(procs[i].pid) == pid
      ensures var k := FirstPid(old(procs[..]), pid);
        procs[..] == if found then old(procs[..])[k := Killed(old(procs[..])[k])] else old(procs[..])
      ensures found ==> exists k :: 0 <= k < procs.Length && IsKilled(old(procs[..]), procs[..], pid, k)
      ensures !found ==> procs[..] == old(procs[..])
    {
      var i := 0;
      while i < procs.Length
        invariant 0 <= i <= procs.Length && procs[..] == old(procs[..])
        invariant forall j :: 0 <= j < i ==> procs[j].pid != pid
      {
        if procs[i].pid == pid {
          procs[i] := procs[i].(killed := true);
          if procs[i].state == Sleeping {
            procs[i] := procs[i].(state := Runnable);
          }
          assert IsKilled(old(procs[..]), procs[..], pid, i);
          return true;
        }
        i := i + 1;
      }
      return false;
    }

    /** The locked part of exit by process p. */
    method Exit(p: nat, init: nat)
      requires p < procs.Length && p != init && procs[p].state == Running
      requires procs[p].parent != To(p)
      modifies procs
      ensures procs[..] == ExitTable(old(procs[..]), p, init)
      ensures IsExited(old(procs[..]), procs[..], p, init)
    {
      ghost var t := procs[..];
      Wakeup1(ChanOf(procs[p].parent));
      var i := 0;
      while i < procs.Length
        invariant 0 <= i <= procs.Length
        invariant forall j :: 0 <= j < procs.Length ==> procs[j] == ExitSoFar(t, p, init, j, i)
      {
        OrphanNext(t, p, i);
        if procs[i].parent == To(p) {
          procs[i] := procs[i].(parent := To(init));
          if procs[i].state == Zombie {
            Wakeup1(OfProc(init));
          }
        }
        i := i + 1;
      }
      procs[p] := procs[p].(killed := false);
      procs[p] := procs[p].(state := Zombie);
      ExitShows(t, p, init);
    }

    /** One pass of wait's outer loop by process p. */
    method WaitPass(p: nat) returns (r: WaitResult)
      requires p < procs.Length
      modifies procs
      ensures (procs[..], r) == WaitScan(old(procs[..]), p)
      ensures HasWaited(old(procs[..]), procs[..], p, r)
    {
      ghost var t := procs[..];
      WaitShows(t, p);
      var havekids := false;
      var i := 0;
      while i < procs.Length
        invariant 0 <= i <= procs.Length && procs[..] == t
        invariant havekids <==> exists j :: 0 <= j < i && Child(t, j, p)
        invariant forall j :: 0 <= j < i && Child(t, j, p) ==> t[j].state != Zombie
      {
        assert procs[i] == t[i];
        ghost var kid := Child(t, i, p);
        if procs[i].state != Unused && procs[i].parent == To(p) {
          if procs[i].state == Zombie {
            var pid := procs[i].pid;
            procs[i] := procs[i].(state := Unused);
            procs[i] := procs[i].(pid := 0);
            procs[i] := procs[i].(parent := Null);
            assert i == FirstZombie(t, p);
            assert procs[..] == t[i := Freed(t[i])];
            return Reaped(pid);
          }
          havekids := true;
        }
        i := i + 1;
      }
      if !havekids || procs[p].killed {
        return NoChildren;
      }
      procs[p] := procs[p].(chan := OfProc(p));
      procs[p] := procs[p].(state := Sleeping);
      assert procs[..] == t[p := t[p].(state := Sleeping, chan := OfProc(p))];
      return Sleeps;
    }
  }

  /** Slot j once exit's loop has passed n slots. */
  ghost function ExitSoFar(t: seq<Proc>, p: nat, init: nat, j: nat, n: nat): (r: Proc)
    requires j < |t| && p < |t|
  {
    var q := t[j];
    var woken := q.state == Sleeping &&
      (q.chan == ChanOf(t[p].parent) || (q.chan == OfProc(init) && ZombieOrphan(t, p, n)));
    q.(parent := if j < n && q.parent == To(p) then To(init) else q.parent,
       state := if woken then Runnable else q.state)
  }
}
