/**
 Whole runs of the journal: commits, flushes, power failures at any sector
 write, and recoveries that may themselves be cut short.
 */
module JournalRuns {
  import opened Basics
  import opened Blocks
  import opened JournalLog
  import opened JournalCrash

  /**
   The in-memory list of unflushed transactions: what can be reached from
   mtn_head, and where mtn_tail points.  tailAt is the index of mtn_tail in the
   list, BEHIND when mtn_tail is a flushed node whose next is mtn_head, LOST
   when it is a flushed node that leads elsewhere.
   */
  datatype Mtn = Mtn(list: seq<Trans>, tailAt: int)

  const BEHIND := -1
  const LOST := -2

  /** end_trans: the tail's next is set, the tail itself moves only in an empty list. */
  function Append(m: Mtn, tx: Trans): (r: Mtn) {
    if m.list == [] then Mtn([tx], 0)
    else if 0 <= m.tailAt < |m.list| then Mtn(m.list[..m.tailAt + 1] + [tx], m.tailAt)
    else Mtn(m.list, LOST)
  }

  /** jfull_flush walks from mtn_head up to and including mtn_tail. */
  function FlushSet(m: Mtn): (txs: seq<Trans>) {
    if BEHIND <= m.tailAt < |m.list| then m.list[..m.tailAt + 1] else []
  }

  /** mtn_head = curr_tail->next, mtn_tail unchanged. */
  function AfterFlush(m: Mtn): (r: Mtn) {
    if BEHIND <= m.tailAt < |m.list| then Mtn(m.list[m.tailAt + 1..], BEHIND) else m
  }

  datatype System =
    | Up(disk: Disk, jtail: nat, hdr: Block, mtn: Mtn)
    | Down(disk: Disk)

  datatype Event =
    | Commit(tx: Trans)
    | CrashInCommit(tx: Trans, k: nat)   // power fails after k sector writes
    | Flush
    | CrashInFlush(k: nat)
    | Crash
    | Boot
    | CrashInBoot(k: nat)

  /** end_trans never returns: it fills the journal and then waits for the lock it holds, to flush what is pending. */
  predicate Hangs(s: System, tx: Trans, size: nat)
    requires s.Up?
  {
    s.mtn.list != [] && tx != [] && LOG + size <= s.jtail + |tx| + 1
  }

  ghost predicate Enabled(s: System, e: Event, size: nat) {
    SUPER < |s.disk| &&
    match e
    case Commit(tx) =>
      s.Up? && (tx == [] || (Loggable(tx, size, |s.disk|) && Fits(s.jtail, tx, size) && !Hangs(s, tx, size)))
    case CrashInCommit(tx, k) =>
      && s.Up? && Loggable(tx, size, |s.disk|) && Stays(s.jtail, tx, k, size)
      && k <= |CommitWrites(s.disk[SUPER], s.hdr, s.jtail, tx)|
    case Flush => s.Up? && (s.mtn.list == [] || s.mtn.tailAt != LOST)
    case CrashInFlush(k) =>
      && s.Up? && s.mtn.list != [] && s.mtn.tailAt != LOST
      && k <= |FlushWrites(s.disk[SUPER], FlushSet(s.mtn))|
    case Crash => s.Up?
    case Boot => s.Down? && LOG < |s.disk|
    case CrashInBoot(k) => s.Down? && k <= |RecoverWrites(s.disk)|
  }

  /** The journal after end_trans of tx. */
  function CommitState(s: System, tx: Trans): (t: System)
    requires s.Up? && SUPER < |s.disk| && |tx| <= NBPT
  {
    if tx == [] then s
    else Up(Apply(s.disk, CommitWrites(s.disk[SUPER], s.hdr, s.jtail, tx)),
            s.jtail + |tx| + 1, Header(s.hdr, tx), Append(s.mtn, tx))
  }

  /** The journal after jfull_flush. */
  function FlushState(s: System): (t: System)
    requires s.Up? && SUPER < |s.disk|
  {
    if s.mtn.list == [] then s
    else Up(Apply(s.disk, FlushWrites(s.disk[SUPER], FlushSet(s.mtn))), LOG, s.hdr, AfterFlush(s.mtn))
  }

  /** The journal after pbjFSck. */
  function BootState(disk: Disk): (t: System)
    requires LOG < |disk|
  {
    Up(Recovered(disk), LOG, Recovered(disk)[LOG], Mtn([], BEHIND))
  }

  function Next(s: System, e: Event, size: nat): (t: System)
    requires Enabled(s, e, size)
    ensures |t.disk| == |s.disk|
  {
    match e
    case Commit(tx) => CommitState(s, tx)
    case CrashInCommit(tx, k) => Down(Apply(s.disk, CommitWrites(s.disk[SUPER], s.hdr, s.jtail, tx)[..k]))
    case Flush => FlushState(s)
    case CrashInFlush(k) => Down(Apply(s.disk, FlushWrites(s.disk[SUPER], FlushSet(s.mtn))[..k]))
    case Crash => Down(s.disk)
    case Boot => BootState(s.disk)
    case CrashInBoot(k) => Down(Apply(s.disk, RecoverWrites(s.disk)[..k]))
  }

  /** The transactions whose superblock write lands in this event. */
  function Landed(s: System, e: Event, size: nat): (txs: seq<Trans>)
    requires Enabled(s, e, size)
  {
    match e
    case Commit(tx) => if tx == [] then [] else [tx]
    case CrashInCommit(tx, k) => if k == |CommitWrites(s.disk[SUPER], s.hdr, s.jtail, tx)| then [tx] else []
    case _ => []
  }

  ghost predicate IsRun(s: System, es: seq<Event>, size: nat)
    decreases |es|
  {
    es == [] || (Enabled(s, es[0], size) && IsRun(Next(s, es[0], size), es[1..], size))
  }

  function Final(s: System, es: seq<Event>, size: nat): (t: System)
    requires IsRun(s, es, size)
    ensures |t.disk| == |s.disk|
    decreases |es|
  {
    if es == [] then s else Final(Next(s, es[0], size), es[1..], size)
  }

  function Committed(s: System, es: seq<Event>, size: nat): (txs: seq<Trans>)
    requires IsRun(s, es, size)
    decreases |es|
  {
    if es == [] then [] else Landed(s, es[0], size) + Committed(Next(s, es[0], size), es[1..], size)
  }

  /** There is room for the next header, and for a whole transaction if none is pending. */
  predicate Room(s: System, size: nat) {
    s.Up? ==> LOG <= s.jtail < LOG + size && (s.mtn.list == [] ==> s.jtail == LOG)
  }

  /** A journal that can hold the largest transaction and one block more is never written past its end. */
  lemma {:induction false} AlwaysRoom(s: System, es: seq<Event>, size: nat)
    requires IsRun(s, es, size) && Room(s, size) && NBPT + 1 < size
    ensures Room(Final(s, es, size), size)
    ensures forall tx: Trans :: Final(s, es, size).Up? && Final(s, es, size).mtn.list == [] && |tx| <= NBPT ==>
      Fits(Final(s, es, size).jtail, tx, size)
    decreases |es|
  {
    if es != [] { AlwaysRoom(Next(s, es[0], size), es[1..], size); }
  }

  /** mtn as commits and flushes leave it when txs are logged. */
  ghost predicate MtnOf(m: Mtn, txs: seq<Trans>) {
    if txs == [] then m.list == [] || m.tailAt == BEHIND
    else
      && m.list != []
      && (m.tailAt == LOST || (m.tailAt == 0 && m.list[0] == txs[0] && (|txs| == 1 <==> |m.list| == 1)))
  }

  /** The disk logs txs, and installing them gives the home blocks of `home`. */
  ghost predicate Means(s: System, size: nat, txs: seq<Trans>, home: Disk) {
    && Logged(s.disk, size, txs)
    && SameHome(Apply(s.disk, Flat(txs)), home, size)
    && (s.Up? ==> s.jtail == LogEnd(LOG, txs) && MtnOf(s.mtn, txs))
  }

  ghost predicate Sound(s: System, size: nat, home: Disk) {
    exists txs :: Means(s, size, txs, home)
  }

  lemma FlatConcat(a: seq<Trans>, b: seq<Trans>)
    ensures Flat(a + b) == Flat(a) + Flat(b)
    decreases |b|
  {
    if b == [] {
      assert a + b == a;
    } else {
      var init, last := b[..|b| - 1], b[|b| - 1];
      assert init + [last] == b && a + b == (a + init) + [last];
      FlatConcat(a, init);
      FlatAppend(a + init, last);
      FlatAppend(init, last);
    }
  }

  lemma MeansAfterCommit(s: System, size: nat, txs: seq<Trans>, home: Disk, tx: Trans)
    requires s.Up? && Means(s, size, txs, home) && Loggable(tx, size, |s.disk|) && Fits(s.jtail, tx, size)
    ensures Means(CommitState(s, tx), size, txs + [tx], Apply(home, tx))
  {
    var d := s.disk;
    var ws := CommitWrites(d[SUPER], s.hdr, s.jtail, tx);
    var e := Apply(d, ws);
    CommitExtendsLog(d, s.hdr, size, txs, tx, ws);
    LogEndAppend(LOG, txs, tx);
    InstalledAfterCommit(d, s.hdr, size, txs, home, tx, ws);
  }

  /** Installing the longer log on the committed disk gives home with tx applied. */
  lemma InstalledAfterCommit(d: Disk, hdr: Block, size: nat, txs: seq<Trans>, home: Disk, tx: Trans, ws: seq<Write>)
    requires Logged(d, size, txs) && Loggable(tx, size, |d|) && Fits(LogEnd(LOG, txs), tx, size)
    requires ws == CommitWrites(d[SUPER], hdr, LogEnd(LOG, txs), tx)
    requires SameHome(Apply(d, Flat(txs)), home, size)
    ensures SameHome(Apply(Apply(d, ws), Flat(txs + [tx])), Apply(home, tx), size)
  {
    assert ws[..|ws|] == ws;
    CommitKeepsHome(d, hdr, size, LogEnd(LOG, txs), tx, |ws|);
    ApplySameHome(Apply(d, ws), d, Flat(txs + [tx]), size);
    FlatAppend(txs, tx);
    ApplyConcat(d, Flat(txs), tx);
    ApplySameHome(Apply(d, Flat(txs)), home, tx, size);
  }

  /** A commit cut short leaves the log as it was. */
  lemma CommitCut(d: Disk, hdr: Block, size: nat, txs: seq<Trans>, home: Disk, tx: Trans, k: nat, e: Disk)
    requires Logged(d, size, txs) && Loggable(tx, size, |d|) && Stays(LogEnd(LOG, txs), tx, k, size)
    requires SameHome(Apply(d, Flat(txs)), home, size) && k < |CommitWrites(d[SUPER], hdr, LogEnd(LOG, txs), tx)|
    requires e == Apply(d, CommitWrites(d[SUPER], hdr, LogEnd(LOG, txs), tx)[..k])
    ensures Means(Down(e), size, txs, home)
  {
    CommitIsAtomic(d, hdr, size, txs, tx, k);
    RecoveryInstallsLog(e, size, txs);
  }

  lemma SoundAfterCommitCrash(s: System, size: nat, txs: seq<Trans>, home: Disk, tx: Trans, k: nat)
    requires s.Up? && Means(s, size, txs, home) && Loggable(tx, size, |s.disk|) && Stays(s.jtail, tx, k, size)
    requires k <= |CommitWrites(s.disk[SUPER], s.hdr, s.jtail, tx)|
    ensures var ws := CommitWrites(s.disk[SUPER], s.hdr, s.jtail, tx);
      Sound(Down(Apply(s.disk, ws[..k])), size, if k == |ws| then Apply(home, tx) else home)
  {
    var d := s.disk;
    var ws := CommitWrites(d[SUPER], s.hdr, s.jtail, tx);
    var e := Apply(d, ws[..k]);
    if k == |ws| {
      assert ws[..k] == ws;
      MeansAfterCommit(s, size, txs, home, tx);
      assert Means(Down(e), size, txs + [tx], Apply(home, tx));
    } else {
      CommitCut(d, s.hdr, size, txs, home, tx, k, e);
    }
  }

  /** Installing what is logged, cut short, leaves the log as it was; done, it leaves it empty. */
  lemma FlushCut(d: Disk, size: nat, txs: seq<Trans>, home: Disk, ws: seq<Write>, k: nat, e: Disk)
    requires Logged(d, size, txs) && txs != [] && SameHome(Apply(d, Flat(txs)), home, size)
    requires ws == FlushWrites(d[SUPER], txs) && k <= |ws| && e == Apply(d, ws[..k])
    ensures Means(Down(e), size, if k == |ws| then [] else txs, home)
  {
    FlushPrefix(d, size, txs, k);
    RecoveryInstallsLog(e, size, if k == |ws| then [] else txs);
  }

  /** jfull_flush stopped before its superblock write: part of the first transaction is home, the log as it was. */
  lemma FlushStarted(d: Disk, size: nat, txs: seq<Trans>, home: Disk, k: nat, e: Disk)
    requires Logged(d, size, txs) && txs != [] && SameHome(Apply(d, Flat(txs)), home, size)
    requires k <= |txs[0]| && e == Apply(d, txs[0][..k])
    ensures Means(Down(e), size, txs, home)
  {
    assert Flat(txs)[..k] == txs[0][..k];
    FlushPart(d, size, txs, k, e);
    RecoveryInstallsLog(e, size, txs);
  }

  /** jfull_flush, all of it: what FlushSet has is home and the log is empty. */
  lemma FlushDone(d: Disk, size: nat, txs: seq<Trans>, m: Mtn, e: Disk)
    requires Logged(d, size, txs) && MtnOf(m, txs) && m.list != [] && m.tailAt != LOST
    requires e == Apply(d, FlushWrites(d[SUPER], FlushSet(m)))
    ensures FlushSet(m) == (if txs == [] then [] else [txs[0]])
    ensures Logged(e, size, []) && MtnOf(AfterFlush(m), [])
    ensures SameHome(e, if txs == [] then d else Apply(d, txs[0]), size)
    ensures Recovered(e) == e
  {
    assert FlushSet(m) == if txs == [] then [] else [txs[0]];
    assert txs != [] ==> Flat([txs[0]]) == txs[0];
    FlushInstalls(d, size, FlushSet(m));
    RecoverFindsLog(e, size, []);
  }

  // ---- when a flush keeps everything --------------------------------------

  lemma TouchedBefore(ws: seq<Write>, s: nat)
    requires Touches(ws, s) && ws[|ws| - 1].sector != s
    ensures Touches(ws[..|ws| - 1], s)
  {
    var i :| 0 <= i < |ws| && ws[i].sector == s;
    assert ws[..|ws| - 1][i].sector == s;
  }

  /** The data of the last write to a sector. */
  ghost function LastData(ws: seq<Write>, s: nat): (data: Block)
    requires Touches(ws, s)
    decreases |ws|
  {
    if ws[|ws| - 1].sector == s then ws[|ws| - 1].data else (TouchedBefore(ws, s); LastData(ws[..|ws| - 1], s))
  }

  lemma {:induction false} ApplyLast(d: Disk, ws: seq<Write>, s: nat)
    requires s < |d| && Touches(ws, s)
    ensures Apply(d, ws)[s] == LastData(ws, s)
    decreases |ws|
  {
    if ws[|ws| - 1].sector != s {
      TouchedBefore(ws, s);
      ApplyLast(d, ws[..|ws| - 1], s);
    }
  }

  /** Home writes change no home block iff the last one to each sector repeats what is there. */
  lemma WritesChangeNothingIff(d: Disk, ws: seq<Write>, size: nat)
    requires HomeWrites(ws, size, |d|)
    ensures SameHome(d, Apply(d, ws), size) <==> forall s :: 0 <= s < |d| && Touches(ws, s) ==> LastData(ws, s) == d[s]
  {
    forall s | 0 <= s < |d| && !InJournal(s, size)
      ensures d[s] == Apply(d, ws)[s] <==> (Touches(ws, s) ==> LastData(ws, s) == d[s])
    {
      if Touches(ws, s) { ApplyLast(d, ws, s); } else { ApplyFrame(d, ws, s); }
    }
  }

  /** The transactions logged on a disk. */
  function LogOf(d: Disk): (txs: seq<Trans>)
    requires SUPER < |d|
  {
    match RecoverLog(d) case Parsed(txs) => txs case _ => []
  }

  /** Sector by sector, what is logged after the first transaction ends with what the first leaves there. */
  ghost predicate LaterRepeat(d: Disk, txs: seq<Trans>) {
    txs == [] || forall x :: 0 <= x < |d| && Touches(Flat(txs[1..]), x) ==>
      LastData(Flat(txs[1..]), x) == Apply(d, txs[0])[x]
  }

  lemma FirstIsAllIff(d: Disk, size: nat, txs: seq<Trans>)
    requires Logged(d, size, txs) && txs != []
    ensures SameHome(Apply(d, txs[0]), Apply(d, Flat(txs)), size) <==> LaterRepeat(d, txs)
  {
    ApplyConcat(d, txs[0], Flat(txs[1..]));
    FlatHome(txs[1..], size, |d|);
    WritesChangeNothingIff(Apply(d, txs[0]), Flat(txs[1..]), size);
  }

  lemma SameHomeChain(a: Disk, b: Disk, c: Disk, d: Disk, size: nat)
    requires SameHome(a, b, size) && SameHome(c, d, size) && |b| == |c|
    ensures SameHome(a, d, size) <==> SameHome(b, c, size)
  {
  }

  /** A whole jfull_flush brings home all that is logged iff the later transactions repeat the first. */
  lemma FlushKeepsDurableIff(d: Disk, size: nat, txs: seq<Trans>, home: Disk, m: Mtn, e: Disk)
    requires Logged(d, size, txs) && SameHome(Apply(d, Flat(txs)), home, size)
    requires MtnOf(m, txs) && m.list != [] && m.tailAt != LOST
    requires e == Apply(d, FlushWrites(d[SUPER], FlushSet(m)))
    ensures SameHome(Recovered(e), home, size) <==> LaterRepeat(d, LogOf(d))
    ensures LaterRepeat(d, LogOf(d)) ==> Means(Down(e), size, [], home)
  {
    RecoverFindsLog(d, size, txs);
    FlushDone(d, size, txs, m, e);
    var first := if txs == [] then d else Apply(d, txs[0]);
    if txs != [] { FirstIsAllIff(d, size, txs); }
    SameHomeChain(e, first, Apply(d, Flat(txs)), home, size);
  }

  /** A flush that gets as far as the superblock and forgets a transaction that it did not bring home. */
  ghost predicate Drops(s: System, e: Event, size: nat)
    requires Enabled(s, e, size)
  {
    && (e == Flush || (e.CrashInFlush? && e.k == |FlushWrites(s.disk[SUPER], FlushSet(s.mtn))|))
    && s.mtn.list != [] && !LaterRepeat(s.disk, LogOf(s.disk))
  }

  lemma SoundAfterFlushCrash(s: System, size: nat, txs: seq<Trans>, home: Disk, ws: seq<Write>, k: nat)
    requires s.Up? && Means(s, size, txs, home) && Enabled(s, CrashInFlush(k), size)
    requires ws == FlushWrites(s.disk[SUPER], FlushSet(s.mtn)) && k < |ws|
    ensures Means(Down(Apply(s.disk, ws[..k])), size, txs, home)
  {
    if txs != [] {
      assert FlushSet(s.mtn) == [txs[0]] && Flat([txs[0]]) == txs[0];
      assert ws[..k] == txs[0][..k];
      FlushStarted(s.disk, size, txs, home, k, Apply(s.disk, ws[..k]));
    }
  }

  lemma SoundAfterFlush(s: System, size: nat, txs: seq<Trans>, home: Disk)
    requires s.Up? && Means(s, size, txs, home) && Enabled(s, Flush, size) && s.mtn.list != []
    requires LaterRepeat(s.disk, LogOf(s.disk))
    ensures Means(FlushState(s), size, [], home)
  {
    var e := Apply(s.disk, FlushWrites(s.disk[SUPER], FlushSet(s.mtn)));
    FlushKeepsDurableIff(s.disk, size, txs, home, s.mtn, e);
    FlushDone(s.disk, size, txs, s.mtn, e);
  }

  lemma SoundAfterBoot(s: System, size: nat, txs: seq<Trans>, home: Disk, k: nat)
    requires s.Down? && Means(s, size, txs, home) && k <= |RecoverWrites(s.disk)|
    ensures Sound(Down(Apply(s.disk, RecoverWrites(s.disk)[..k])), size, home)
    ensures k == |RecoverWrites(s.disk)| && LOG < |s.disk| ==> Sound(Next(s, Boot, size), size, home)
  {
    var ws := RecoverWrites(s.disk);
    var e := Apply(s.disk, ws[..k]);
    RecoverFindsLog(s.disk, size, txs);
    var rest := if k == |ws| then [] else txs;
    if txs != [] { FlushCut(s.disk, size, txs, home, ws, k, e); }
    assert Means(Down(e), size, rest, home);
    if k == |ws| && LOG < |s.disk| {
      assert ws[..k] == ws;
      assert Means(Next(s, Boot, size), size, [], home);
    }
  }

  /** Every step keeps all committed data, unless it is a flush that drops some. */
  lemma StepSound(s: System, e: Event, size: nat, home: Disk)
    requires Enabled(s, e, size) && Sound(s, size, home) && !Drops(s, e, size)
    ensures Sound(Next(s, e, size), size, Apply(home, Flat(Landed(s, e, size))))
  {
    var txs :| Means(s, size, txs, home);
    match e {
      case Commit(tx) =>
        if tx != [] {
          assert Flat([tx]) == tx;
          MeansAfterCommit(s, size, txs, home, tx);
        }
      case CrashInCommit(tx, k) =>
        assert Flat([tx]) == tx;
        SoundAfterCommitCrash(s, size, txs, home, tx, k);
      case Flush =>
        if s.mtn.list != [] { SoundAfterFlush(s, size, txs, home); }
      case CrashInFlush(k) =>
        CrashInFlushSound(s, size, txs, home, k);
      case Crash =>
        assert Means(Down(s.disk), size, txs, home);
      case Boot =>
        SoundAfterBoot(s, size, txs, home, |RecoverWrites(s.disk)|);
      case CrashInBoot(k) =>
        SoundAfterBoot(s, size, txs, home, k);
    }
  }

  lemma CrashInFlushSound(s: System, size: nat, txs: seq<Trans>, home: Disk, k: nat)
    requires Enabled(s, CrashInFlush(k), size) && Means(s, size, txs, home) && !Drops(s, CrashInFlush(k), size)
    ensures Sound(Next(s, CrashInFlush(k), size), size, home)
  {
    var ws := FlushWrites(s.disk[SUPER], FlushSet(s.mtn));
    if k == |ws| {
      assert ws[..k] == ws;
      FlushKeepsDurableIff(s.disk, size, txs, home, s.mtn, Apply(s.disk, ws));
    } else {
      SoundAfterFlushCrash(s, size, txs, home, ws, k);
    }
  }

  /** A flush that drops something leaves a disk whose recovery lacks committed data. */
  lemma DropLoses(s: System, e: Event, size: nat, home: Disk)
    requires Enabled(s, e, size) && Sound(s, size, home) && Drops(s, e, size)
    ensures SUPER < |Next(s, e, size).disk| && !SameHome(Recovered(Next(s, e, size).disk), home, size)
  {
    var txs :| Means(s, size, txs, home);
    var ws := FlushWrites(s.disk[SUPER], FlushSet(s.mtn));
    assert ws[..|ws|] == ws;
    FlushKeepsDurableIff(s.disk, size, txs, home, s.mtn, Apply(s.disk, ws));
  }

  lemma {:induction false} LogEndAppend(h: nat, txs: seq<Trans>, tx: Trans)
    ensures LogEnd(h, txs + [tx]) == LogEnd(h, txs) + |tx| + 1
    decreases |txs|
  {
    if txs == [] {
      assert txs + [tx] == [tx];
      assert [tx][1..] == [];
    } else {
      LogEndAppend(h + |txs[0]| + 1, txs[1..], tx);
      assert (txs + [tx])[1..] == txs[1..] + [tx];
    }
  }

  /** No flush of the run drops a transaction. */
  ghost predicate NeverDrops(s: System, es: seq<Event>, size: nat)
    requires IsRun(s, es, size)
    decreases |es|
  {
    es == [] || (!Drops(s, es[0], size) && NeverDrops(Next(s, es[0], size), es[1..], size))
  }

  /** At every point of the run, recovery gives home with the transactions committed so far. */
  ghost predicate AlwaysDurable(s: System, es: seq<Event>, size: nat, home: Disk)
    requires IsRun(s, es, size) && SUPER < |s.disk|
    decreases |es|
  {
    && SameHome(Recovered(s.disk), home, size)
    && (es == [] || AlwaysDurable(Next(s, es[0], size), es[1..], size, Apply(home, Flat(Landed(s, es[0], size)))))
  }

  lemma {:induction false} RunSound(s: System, es: seq<Event>, size: nat, home: Disk)
    requires IsRun(s, es, size) && Sound(s, size, home) && NeverDrops(s, es, size)
    ensures Sound(Final(s, es, size), size, Apply(home, Flat(Committed(s, es, size))))
    decreases |es|
  {
    if es != [] {
      var t, now := Next(s, es[0], size), Landed(s, es[0], size);
      StepSound(s, es[0], size, home);
      RunSound(t, es[1..], size, Apply(home, Flat(now)));
      var later := Committed(t, es[1..], size);
      FlatConcat(now, later);
      ApplyConcat(home, Flat(now), Flat(later));
    }
  }

  lemma SoundRecovers(s: System, size: nat, home: Disk)
    requires Sound(s, size, home)
    ensures SUPER < |s.disk| && SameHome(Recovered(s.disk), home, size)
  {
    var txs :| Means(s, size, txs, home);
    RecoveryInstallsLog(s.disk, size, txs);
  }

  /** Committed data is never lost in a run iff no flush drops any. */
  lemma {:induction false} DurableIff(s: System, es: seq<Event>, size: nat, home: Disk)
    requires IsRun(s, es, size) && Sound(s, size, home)
    ensures SUPER < |s.disk| && (AlwaysDurable(s, es, size, home) <==> NeverDrops(s, es, size))
    decreases |es|
  {
    SoundRecovers(s, size, home);
    if es != [] {
      if Drops(s, es[0], size) {
        DropLoses(s, es[0], size, home);
      } else {
        StepSound(s, es[0], size, home);
        DurableIff(Next(s, es[0], size), es[1..], size, Apply(home, Flat(Landed(s, es[0], size))));
      }
    }
  }

  /**
   Durability and atomicity over every run from a fresh image.  Iff no flush drops
   a transaction: at every point, cutting the power and recovering yields the
   initial home blocks with exactly the transactions whose superblock write landed,
   whole and in commit order.
   */
  lemma JournalRunTheorem(d: Disk, es: seq<Event>, size: nat)
    requires Logged(d, size, []) && IsRun(Down(d), es, size)
    ensures SUPER < |d| && (AlwaysDurable(Down(d), es, size, d) <==> NeverDrops(Down(d), es, size))
    ensures NeverDrops(Down(d), es, size) ==>
      SameHome(Recovered(Final(Down(d), es, size).disk), Apply(d, Flat(Committed(Down(d), es, size))), size)
  {
    assert Means(Down(d), size, [], d);
    DurableIff(Down(d), es, size, d);
    if NeverDrops(Down(d), es, size) {
      RunSound(Down(d), es, size, d);
      SoundRecovers(Final(Down(d), es, size), size, Apply(d, Flat(Committed(Down(d), es, size))));
    }
  }

  // ---- flushing more than one transaction ---------------------------------

  /**
   jfull_flush with any number of unflushed transactions: only the first is
   installed, the log is emptied all the same, and the list is emptied iff there
   was no second one.
   */
  lemma FlushInstallsOnlyFirst(s: System, size: nat, txs: seq<Trans>, home: Disk)
    requires s.Up? && Means(s, size, txs, home) && txs != [] && s.mtn.tailAt != LOST
    ensures FlushSet(s.mtn) == txs[..1]
    ensures AfterFlush(s.mtn).list == [] <==> |txs| == 1
    ensures var e := Apply(s.disk, FlushWrites(s.disk[SUPER], FlushSet(s.mtn)));
      && Logged(e, size, [])
      && SameHome(Recovered(e), Apply(s.disk, txs[0]), size)
  {
    assert txs[..1] == [txs[0]];
    FlushDone(s.disk, size, txs, s.mtn, Apply(s.disk, FlushWrites(s.disk[SUPER], FlushSet(s.mtn))));
  }

  /** A flush that finds one transaction drops nothing. */
  lemma FlushOneKeepsDurable(s: System, size: nat, home: Disk, e: Event)
    requires Sound(s, size, home) && Enabled(s, e, size) && (s.Up? ==> |s.mtn.list| <= 1)
    ensures !Drops(s, e, size)
  {
    var txs :| Means(s, size, txs, home);
    RecoverFindsLog(s.disk, size, txs);
    if |txs| == 1 { assert txs[1..] == []; }
  }

  /** Every flush of the run finds at most one transaction. */
  ghost predicate FlushesSingly(s: System, es: seq<Event>, size: nat)
    requires IsRun(s, es, size)
    decreases |es|
  {
    es == [] || ((es[0] == Flush || es[0].CrashInFlush? ==> |s.mtn.list| <= 1)
                 && FlushesSingly(Next(s, es[0], size), es[1..], size))
  }

  /** So flushing after every commit is enough. */
  lemma {:induction false} SinglyNeverDrops(s: System, es: seq<Event>, size: nat, home: Disk)
    requires IsRun(s, es, size) && Sound(s, size, home) && FlushesSingly(s, es, size)
    ensures NeverDrops(s, es, size)
    decreases |es|
  {
    if es != [] {
      if es[0] == Flush || es[0].CrashInFlush? { FlushOneKeepsDurable(s, size, home, es[0]); }
      StepSound(s, es[0], size, home);
      SinglyNeverDrops(Next(s, es[0], size), es[1..], size, Apply(home, Flat(Landed(s, es[0], size))));
    }
  }

  lemma OneStep(s: System, e: Event, es: seq<Event>, size: nat)
    requires Enabled(s, e, size) && IsRun(Next(s, e, size), es, size)
    ensures IsRun(s, [e] + es, size) && Final(s, [e] + es, size) == Final(Next(s, e, size), es, size)
  {
    assert ([e] + es)[1..] == es;
  }

  /** The journal after a boot and two commits. */
  lemma TwoCommits(d: Disk, size: nat, t1: Trans, t2: Trans)
    requires Logged(d, size, []) && Loggable(t1, size, |d|) && Loggable(t2, size, |d|)
    requires |t1| + |t2| + 2 < size
    ensures IsRun(Down(d), [Boot, Commit(t1), Commit(t2)], size)
    ensures var s := Final(Down(d), [Boot, Commit(t1), Commit(t2)], size);
      s.Up? && s.mtn.tailAt == 0 && Means(s, size, [t1, t2], Apply(Apply(d, t1), t2))
  {
    RecoverFindsLog(d, size, []);
    var s1 := Next(Down(d), Boot, size);
    assert Means(s1, size, [], d);
    MeansAfterCommit(s1, size, [], d, t1);
    var s2 := Next(s1, Commit(t1), size);
    assert [] + [t1] == [t1] && [t1] + [t2] == [t1, t2];
    MeansAfterCommit(s2, size, [t1], Apply(d, t1), t2);
    ThreeSteps(Down(d), Boot, Commit(t1), Commit(t2), size);
  }

  lemma ThreeSteps(s: System, a: Event, b: Event, c: Event, size: nat)
    requires Enabled(s, a, size) && Enabled(Next(s, a, size), b, size)
      && Enabled(Next(Next(s, a, size), b, size), c, size)
    ensures IsRun(s, [a, b, c], size) && Final(s, [a, b, c], size) == Next(Next(Next(s, a, size), b, size), c, size)
  {
    var s1 := Next(s, a, size);
    var s2 := Next(s1, b, size);
    var s3 := Next(s2, c, size);
    assert IsRun(s3, [], size) && Final(s3, [], size) == s3;
    OneStep(s2, c, [], size);
    OneStep(s1, b, [c] + [], size);
    OneStep(s, a, [b] + ([c] + []), size);
    assert [a] + ([b] + ([c] + [])) == [a, b, c];
  }

  /** Two commits and one flush: the second committed transaction is gone after a crash. */
  lemma FlushLosesSecond(d: Disk, size: nat, s: nat, a: Block, b: Block)
    requires Logged(d, size, []) && 5 <= size && LOG + size <= s < |d| && s < TWO32
    ensures var t1, t2 := [Write(s, a)], [Write(s, b)];
      var es := [Boot, Commit(t1), Commit(t2)];
      && IsRun(Down(d), es, size)
      && var st := Final(Down(d), es, size);
         st.Up? && Recovered(st.disk)[s] == b
         && Recovered(Apply(st.disk, FlushWrites(st.disk[SUPER], FlushSet(st.mtn))))[s] == a
  {
    var t1, t2 := [Write(s, a)], [Write(s, b)];
    TwoCommits(d, size, t1, t2);
    var st := Final(Down(d), [Boot, Commit(t1), Commit(t2)], size);
    var home := Apply(Apply(d, t1), t2);
    assert home[s] == b by { assert home == Put(Apply(Apply(d, t1), []), t2[0]); }
    RecoveryInstallsLog(st.disk, size, [t1, t2]);
    assert Apply(st.disk, t1)[s] == a by { assert Apply(st.disk, t1) == Put(Apply(st.disk, []), t1[0]); }
    FlushInstallsOnlyFirst(st, size, [t1, t2], home);
  }
}
