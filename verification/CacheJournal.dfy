/**
 The buffer cache on top of the journal.  A commit logs the contents of its
 transaction's buffers, a flush writes them home one by one while other processes
 go on, the power may fail at any sector write, and every boot recovers.  All this
 behaves like a flat array of blocks with transactions.
 */
module CacheJournal {
  import opened Basics
  import opened Blocks
  import opened JournalLog
  import opened JournalCrash
  import Runs = JournalRuns
  import Cache = BufferCache

  // ---- a flat array of blocks with transactions ---------------------------

  /** For every sector its latest contents, those that survive a crash, and who wrote it without having committed. */
  datatype Store = Store(latest: Disk, durable: Disk, writer: seq<Option<nat>>)

  datatype Action = Writes(p: nat, sector: nat, data: Block) | Commits(p: nat) | PowerFails

  predicate WellFormed(a: Store, n: nat) {
    |a.latest| == |a.durable| == |a.writer| == n
  }

  /** Of every sector p has written and not committed, the latest contents become durable. */
  function Keep(a: Store, p: nat): (r: Disk)
    requires WellFormed(a, |a.latest|)
    ensures |r| == |a.latest|
    ensures forall x :: 0 <= x < |r| ==> r[x] == if a.writer[x] == Some(p) then a.latest[x] else a.durable[x]
  {
    seq(|a.latest|, x requires 0 <= x < |a.latest| => if a.writer[x] == Some(p) then a.latest[x] else a.durable[x])
  }

  function Settle(writer: seq<Option<nat>>, p: nat): (r: seq<Option<nat>>)
    ensures |r| == |writer|
    ensures forall x :: 0 <= x < |r| ==> r[x] == if writer[x] == Some(p) then None else writer[x]
  {
    seq(|writer|, x requires 0 <= x < |writer| => if writer[x] == Some(p) then None else writer[x])
  }

  function Do(a: Store, act: Action): (r: Store)
    requires WellFormed(a, |a.latest|)
    ensures WellFormed(r, |a.latest|)
  {
    match act
    case Writes(p, x, data) =>
      if x < |a.latest| then a.(latest := a.latest[x := data], writer := a.writer[x := Some(p)]) else a
    case Commits(p) => Store(a.latest, Keep(a, p), Settle(a.writer, p))
    case PowerFails => Store(a.durable, a.durable, seq(|a.latest|, _ => None))
  }

  // ---- the machine --------------------------------------------------------

  /** The cache with its disk, the journal's tail and header buffer; and what is logged and survives a crash. */
  datatype State = State(cache: Cache.System, jtail: nat, hdr: Block, log: seq<Trans>, durable: Disk)

  datatype Event =
    | Step(e: Cache.Event)   // a buffer is got, filled, written, released, or written home by a flush
    | Commit(p: nat)
    | FlushEnd               // a flush empties the log
    | Crash(cuts: seq<nat>, blank: Block)
    | CrashInCommit(p: nat, k: nat, cuts: seq<nat>, blank: Block)   // the power fails after k sector writes

  predicate InCache(e: Cache.Event) {
    e.Bget? || e.Fill? || e.Bwrite? || e.Brelse? || e.FlushOne?
  }

  /** p has a transaction that end_trans can log. */
  ghost predicate CanCommit(c: Cache.System, p: nat) {
    Cache.Enabled(c, Cache.Commit(p, c.disk))
  }

  ghost function TransOf(c: Cache.System, p: nat): (tx: Trans)
    requires CanCommit(c, p)
    ensures 0 < |tx| <= NBPT
  {
    Cache.Contents(c.bufs, Cache.TransOf(c.trans, p))
  }

  ghost function CommitOf(s: State, p: nat): (ws: seq<Write>)
    requires CanCommit(s.cache, p) && SUPER < |s.cache.disk|
    ensures |ws| == |TransOf(s.cache, p)| + 2
  {
    CommitWrites(s.cache.disk[SUPER], s.hdr, s.jtail, TransOf(s.cache, p))
  }

  ghost predicate Enabled(s: State, e: Event) {
    SUPER < |s.cache.disk| &&
    match e
    case Step(e) => InCache(e) && Cache.Enabled(s.cache, e)
    case Commit(p) => CanCommit(s.cache, p) && Fits(s.jtail, TransOf(s.cache, p), s.cache.jsize)
    case FlushEnd => true
    case Crash(_, _) => true
    case CrashInCommit(p, k, _, _) =>
      && CanCommit(s.cache, p) && k <= |CommitOf(s, p)|
      && Stays(s.jtail, TransOf(s.cache, p), k, s.cache.jsize)
  }

  /** What holds in every state: the disk's log is known, and pending buffers over the disk are what should survive. */
  ghost predicate Base(s: State) {
    var c := s.cache;
    && Cache.Inv(c) && LOG < |c.disk| <= TWO32 && |s.durable| == |c.disk|
    && Logged(c.disk, c.jsize, s.log) && s.jtail == LogEnd(LOG, s.log)
    && SameHome(Apply(c.disk, c.logged), s.durable, c.jsize)
  }

  /** And the log brings all of it back. */
  ghost predicate Good(s: State) {
    Base(s) && SameHome(Apply(s.cache.disk, Flat(s.log)), s.durable, s.cache.jsize)
  }

  // ---- facts about sector writes ------------------------------------------

  ghost predicate Distinct(ws: seq<Write>) {
    forall i, j :: 0 <= i < j < |ws| ==> ws[i].sector != ws[j].sector
  }

  lemma {:induction false} ApplyDistinct(d: Disk, ws: seq<Write>, i: nat)
    requires Distinct(ws) && i < |ws| && ws[i].sector < |d|
    ensures Apply(d, ws)[ws[i].sector] == ws[i].data
  {
    if i < |ws| - 1 { ApplyDistinct(d, ws[..|ws| - 1], i); }
  }

  /** Every write's data is on the disk already. */
  ghost predicate AllHome(d: Disk, ws: seq<Write>) {
    forall i :: 0 <= i < |ws| && ws[i].sector < |d| ==> ws[i].data == d[ws[i].sector]
  }

  /** Writes to different sectors change no home block iff each repeats what is there. */
  lemma ChangeNothingIff(d: Disk, ws: seq<Write>, size: nat)
    requires Distinct(ws) && HomeWrites(ws, size, |d|)
    ensures SameHome(d, Apply(d, ws), size) <==> AllHome(d, ws)
  {
    forall i | 0 <= i < |ws| ensures Apply(d, ws)[ws[i].sector] == ws[i].data { ApplyDistinct(d, ws, i); }
    forall x | 0 <= x < |d| && !Touches(ws, x) ensures Apply(d, ws)[x] == d[x] { ApplyFrame(d, ws, x); }
  }

  /** The writes without the i-th. */
  lemma Others(ws: seq<Write>, i: nat, rest: seq<Write>)
    requires Distinct(ws) && i < |ws| && rest == Cache.Without(ws, i)
    ensures Distinct(rest) && !Touches(rest, ws[i].sector)
    ensures forall x: nat :: !Touches(ws, x) ==> !Touches(rest, x)
  {
    forall j, k | 0 <= j < k < |rest| ensures rest[j].sector != rest[k].sector {
      OtherAt(ws, i, j);
      OtherAt(ws, i, k);
    }
    forall j | 0 <= j < |rest| ensures rest[j].sector != ws[i].sector && Touches(ws, rest[j].sector) {
      OtherAt(ws, i, j);
    }
  }

  lemma OtherAt(ws: seq<Write>, i: nat, j: nat)
    requires i < |ws| && j < |ws| - 1
    ensures Cache.Without(ws, i)[j] == ws[if j < i then j else j + 1]
  {
  }

  /** One of the writes done ahead of the others: the sector of the j-th. */
  lemma AheadAt(d: Disk, ws: seq<Write>, i: nat, j: nat, rest: seq<Write>)
    requires Distinct(ws) && i < |ws| && j < |ws| && ws[j].sector < |d| && rest == Cache.Without(ws, i)
    ensures Apply(Put(d, ws[i]), rest)[ws[j].sector] == ws[j].data
  {
    Others(ws, i, rest);
    if j == i {
      ApplyFrame(Put(d, ws[i]), rest, ws[i].sector);
    } else {
      var k := if j < i then j else j - 1;
      OtherAt(ws, i, k);
      ApplyDistinct(Put(d, ws[i]), rest, k);
    }
  }

  lemma AheadOfOthers(d: Disk, ws: seq<Write>, i: nat, rest: seq<Write>)
    requires Distinct(ws) && i < |ws| && rest == Cache.Without(ws, i)
    ensures Apply(Put(d, ws[i]), rest) == Apply(d, ws)
  {
    forall x | 0 <= x < |d| ensures Apply(Put(d, ws[i]), rest)[x] == Apply(d, ws)[x] {
      if Touches(ws, x) {
        var j :| 0 <= j < |ws| && ws[j].sector == x;
        ApplyDistinct(d, ws, j);
        AheadAt(d, ws, i, j, rest);
      } else {
        Others(ws, i, rest);
        ApplyFrame(d, ws, x);
        ApplyFrame(Put(d, ws[i]), rest, x);
        assert ws[i].sector != x;
      }
    }
  }

  /** Writing home what the log brings there anyway. */
  lemma AheadOfLog(d: Disk, w: Write, ws: seq<Write>, home: Disk, size: nat)
    requires SameHome(Apply(d, ws), home, size) && w.sector < |d| && home[w.sector] == w.data
    ensures SameHome(Apply(Put(d, w), ws), home, size)
  {
    forall x | 0 <= x < |d| && !InJournal(x, size) ensures Apply(Put(d, w), ws)[x] == home[x] {
      if Touches(ws, x) || x != w.sector {
        ApplyAgree(Put(d, w), d, ws, x);
      } else {
        ApplyFrame(Put(d, w), ws, x);
      }
    }
  }

  // ---- facts about the cache ----------------------------------------------

  /** Dirty buffers on one list, as a transaction. */
  lemma ListTrans(c: Cache.System, bs: seq<nat>, w: Cache.Where)
    requires Cache.Inv(c) && Cache.ListIs(bs, c.place, w) && w != Cache.Clean
    ensures forall i :: 0 <= i < |bs| ==> bs[i] < |c.bufs|
    ensures Distinct(Cache.Contents(c.bufs, bs))
    ensures |c.disk| <= TWO32 ==> HomeWrites(Cache.Contents(c.bufs, bs), c.jsize, |c.disk|)
    ensures forall i :: 0 <= i < |bs| ==>
      c.bufs[bs[i]].sector < |c.store| && c.bufs[bs[i]].data == c.store[c.bufs[bs[i]].sector]
  {
    forall i | 0 <= i < |bs|
      ensures Cache.Live(c.bufs[bs[i]]) && c.bufs[bs[i]].sector < |c.disk| && !InJournal(c.bufs[bs[i]].sector, c.jsize)
      ensures c.bufs[bs[i]].data == c.store[c.bufs[bs[i]].sector]
    {
      assert Cache.Flags(c.bufs[bs[i]], c.held[bs[i]], c.place[bs[i]], |c.disk|, c.jsize);
      assert Cache.Fresh(c.bufs[bs[i]], c.disk, c.store, c.jsize);
    }
  }

  ghost predicate WrittenBy(bufs: seq<Cache.Buf>, place: seq<Cache.Where>, p: nat, x: nat)
    requires |place| == |bufs|
  {
    exists b :: 0 <= b < |bufs| && place[b] == Cache.InTrans(p) && bufs[b].sector == x
  }

  // ---- steps --------------------------------------------------------------

  /** A commit writes journal sectors only. */
  lemma CommitHome(s: State, p: nat)
    requires Base(s) && Enabled(s, Commit(p))
    ensures Cache.Enabled(s.cache, Cache.Commit(p, Apply(s.cache.disk, CommitOf(s, p))))
  {
    var ws := CommitOf(s, p);
    assert ws[..|ws|] == ws;
    CommitKeepsHome(s.cache.disk, s.hdr, s.cache.jsize, s.jtail, TransOf(s.cache, p), |ws|);
  }

  /** The disk whose log a flush has emptied. */
  function WithEmptyLog(d: Disk): (r: Disk)
    requires SUPER < |d|
    ensures |r| == |d|
  {
    d[SUPER := Emptied(d[SUPER])]
  }

  /** The machine after a recovery that was cut short after each of the given numbers of sector writes. */
  ghost function Rebooted(s: State, d: Disk, cuts: seq<nat>, blank: Block): (r: State)
    requires LOG < |d|
  {
    var after := Recovered(Interrupted(d, cuts));
    State(Cache.Boot(after, s.cache.jsize, |s.cache.bufs|, blank), LOG, after[LOG], [], after)
  }

  ghost function Next(s: State, e: Event): (r: State)
    requires Base(s) && Enabled(s, e)
  {
    match e
    case Step(e) => s.(cache := Cache.Next(s.cache, e))
    case Commit(p) =>
      CommitHome(s, p);
      var tx := TransOf(s.cache, p);
      State(Cache.Next(s.cache, Cache.Commit(p, Apply(s.cache.disk, CommitOf(s, p)))),
            s.jtail + |tx| + 1, Header(s.hdr, tx), s.log + [tx], Apply(s.durable, tx))
    case FlushEnd =>
      s.(cache := Cache.Next(s.cache, Cache.FlushEnd(WithEmptyLog(s.cache.disk))), jtail := LOG, log := [])
    case Crash(cuts, blank) => Rebooted(s, s.cache.disk, cuts, blank)
    case CrashInCommit(p, k, cuts, blank) =>
      Rebooted(s, Apply(s.cache.disk, CommitOf(s, p)[..k]), cuts, blank)
  }

  /** A flush that empties the log while a pending buffer differs from its home sector. */
  ghost predicate Early(s: State, e: Event)
    requires Base(s)
  {
    e == FlushEnd && !AllHome(s.cache.disk, s.cache.logged)
  }

  // ---- every step keeps what is durable -----------------------------------

  /** A step inside the cache that writes nothing home. */
  lemma QuietStep(c: Cache.System, e: Cache.Event, r: Cache.System)
    requires Cache.Inv(c) && InCache(e) && !e.FlushOne? && Cache.Enabled(c, e) && r == Cache.Next(c, e)
    ensures r.disk == c.disk && r.logged == c.logged && r.jsize == c.jsize
  {
  }

  /** Writing home one of the pending buffers. */
  lemma FlushOneMeans(d: Disk, size: nat, log: seq<Trans>, logged: Trans, durable: Disk, i: nat, e: Disk)
    requires Logged(d, size, log) && SameHome(Apply(d, logged), durable, size)
    requires Distinct(logged) && HomeWrites(logged, size, |d|) && i < |logged| && e == Put(d, logged[i])
    ensures Logged(e, size, log) && SameHome(Apply(e, Cache.Without(logged, i)), durable, size)
    ensures SameHome(Apply(d, Flat(log)), durable, size) ==> SameHome(Apply(e, Flat(log)), durable, size)
  {
    var w := logged[i];
    AheadOfOthers(d, logged, i, Cache.Without(logged, i));
    ApplyOne(d, w);
    assert HomeWrites([w], size, |d|);
    HomeWritesKeepLog(d, [w], size, log);
    ApplyDistinct(d, logged, i);
    if SameHome(Apply(d, Flat(log)), durable, size) { AheadOfLog(d, w, Flat(log), durable, size); }
  }

  lemma FlushOneGood(s: State, i: nat, r: State)
    requires Base(s) && Enabled(s, Step(Cache.FlushOne(i))) && r == Next(s, Step(Cache.FlushOne(i)))
    ensures Base(r) && (Good(s) ==> Good(r))
  {
    var c := s.cache;
    Cache.StepKeepsInv(c, Cache.FlushOne(i), r.cache);
    Cache.FlushWritesLogged(c, i, r.cache);
    ListTrans(c, c.pending, Cache.Pending);
    FlushOneMeans(c.disk, c.jsize, s.log, c.logged, s.durable, i, r.cache.disk);
  }

  lemma StepGood(s: State, e: Cache.Event, r: State)
    requires Base(s) && Enabled(s, Step(e)) && r == Next(s, Step(e))
    ensures Base(r) && (Good(s) ==> Good(r))
  {
    if e.FlushOne? {
      FlushOneGood(s, e.i, r);
    } else {
      Cache.StepKeepsInv(s.cache, e, r.cache);
      QuietStep(s.cache, e, r.cache);
    }
  }

  /** The transaction of p can be logged. */
  lemma CommitLoggable(s: State, p: nat)
    requires Base(s) && CanCommit(s.cache, p)
    ensures Loggable(TransOf(s.cache, p), s.cache.jsize, |s.cache.disk|) && Distinct(TransOf(s.cache, p))
  {
    assert Cache.ListIs(Cache.TransOf(s.cache.trans, p), s.cache.place, Cache.InTrans(p));
    ListTrans(s.cache, Cache.TransOf(s.cache.trans, p), Cache.InTrans(p));
  }

  /** Pending buffers over the disk, after a commit. */
  lemma CommitPending(d: Disk, e: Disk, logged: Trans, tx: Trans, home: Disk, size: nat)
    requires SameHome(d, e, size) && SameHome(Apply(d, logged), home, size)
    ensures SameHome(Apply(e, logged + tx), Apply(home, tx), size)
  {
    ApplySameHome(d, e, logged, size);
    ApplyConcat(e, logged, tx);
    ApplySameHome(Apply(e, logged), home, tx, size);
  }

  lemma CommitGood(s: State, p: nat, r: State)
    requires Base(s) && Enabled(s, Commit(p)) && r == Next(s, Commit(p))
    ensures Base(r) && (Good(s) ==> Good(r))
  {
    var c, tx, ws := s.cache, TransOf(s.cache, p), CommitOf(s, p);
    CommitHome(s, p);
    CommitLoggable(s, p);
    Cache.StepKeepsInv(c, Cache.Commit(p, Apply(c.disk, ws)), r.cache);
    CommitExtendsLog(c.disk, s.hdr, c.jsize, s.log, tx, ws);
    Runs.LogEndAppend(LOG, s.log, tx);
    CommitPending(c.disk, r.cache.disk, c.logged, tx, s.durable, c.jsize);
    if Good(s) { Runs.InstalledAfterCommit(c.disk, s.hdr, c.jsize, s.log, s.durable, tx, ws); }
  }

  lemma EmptyLogged(d: Disk, size: nat, txs: seq<Trans>)
    requires Logged(d, size, txs)
    ensures Logged(WithEmptyLog(d), size, []) && SameHome(d, WithEmptyLog(d), size)
  {
    FlushInstalls(d, size, []);
    ApplyOne(d, Write(SUPER, Emptied(d[SUPER])));
    assert FlushWrites(d[SUPER], []) == [Write(SUPER, Emptied(d[SUPER]))];
  }

  /** Without its log a disk still means what it should iff what is pending is home. */
  lemma HomeIff(d: Disk, e: Disk, size: nat, logged: Trans, durable: Disk)
    requires SameHome(e, d, size) && SameHome(Apply(d, logged), durable, size)
    requires Distinct(logged) && HomeWrites(logged, size, |d|)
    ensures SameHome(e, durable, size) <==> AllHome(d, logged)
  {
    ChangeNothingIff(d, logged, size);
    Runs.SameHomeChain(e, d, Apply(d, logged), durable, size);
  }

  /** Emptying the log keeps what is durable iff every pending buffer is home. */
  lemma FlushEndIff(s: State, r: State)
    requires Base(s) && Enabled(s, FlushEnd) && r == Next(s, FlushEnd)
    ensures Base(r) && (Good(r) <==> !Early(s, FlushEnd))
  {
    var c := s.cache;
    FlushEndBase(s, r);
    ListTrans(c, c.pending, Cache.Pending);
    HomeIff(c.disk, r.cache.disk, c.jsize, c.logged, s.durable);
    EmptyGood(r);
  }

  /** With nothing logged, the disk alone has to mean what should survive. */
  lemma EmptyGood(r: State)
    requires Base(r) && r.log == []
    ensures Good(r) <==> SameHome(r.cache.disk, r.durable, r.cache.jsize)
  {
    assert Apply(r.cache.disk, Flat(r.log)) == r.cache.disk;
  }

  lemma FlushEndBase(s: State, r: State)
    requires Base(s) && Enabled(s, FlushEnd) && r == Next(s, FlushEnd)
    ensures Base(r) && SameHome(r.cache.disk, s.cache.disk, s.cache.jsize)
    ensures r.cache == s.cache.(disk := WithEmptyLog(s.cache.disk), now := s.cache.now + 1)
    ensures r == s.(cache := r.cache, jtail := LOG, log := [])
  {
    var c := s.cache;
    EmptyLogged(c.disk, c.jsize, s.log);
    Cache.StepKeepsInv(c, Cache.FlushEnd(WithEmptyLog(c.disk)), r.cache);
    ApplySameHome(r.cache.disk, c.disk, c.logged, c.jsize);
  }

  /** Nothing is written yet: memory and disk agree with what is durable. */
  ghost predicate Clean(r: State) {
    && r.durable == r.cache.disk == r.cache.store
    && forall b :: 0 <= b < |r.cache.place| ==> r.cache.place[b] == Cache.Clean
  }

  /** A boot finds what is logged, however often recovery was cut short. */
  lemma RebootedGood(s: State, d: Disk, txs: seq<Trans>, cuts: seq<nat>, blank: Block, r: State)
    requires LOG < |d| <= TWO32 && Logged(d, s.cache.jsize, txs) && r == Rebooted(s, d, cuts, blank)
    ensures Good(r) && SameHome(r.durable, Apply(d, Flat(txs)), s.cache.jsize) && r.cache.jsize == s.cache.jsize
    ensures Clean(r)
  {
    RecoveryIsIdempotent(d, s.cache.jsize, txs, cuts);
    Cache.BootInv(r.cache.disk, s.cache.jsize, |s.cache.bufs|, blank);
  }

  lemma CrashGood(s: State, cuts: seq<nat>, blank: Block, r: State)
    requires Base(s) && r == Next(s, Crash(cuts, blank))
    ensures Good(r) && Clean(r) && r.cache.jsize == s.cache.jsize
    ensures Good(s) ==> SameHome(r.durable, s.durable, s.cache.jsize)
  {
    RebootedGood(s, s.cache.disk, s.log, cuts, blank, r);
  }

  /** The log after the first k sector writes of a commit. */
  lemma CommitCrash(d: Disk, hdr: Block, size: nat, txs: seq<Trans>, tx: Trans, k: nat, e: Disk, home: Disk)
    returns (left: seq<Trans>)
    requires Logged(d, size, txs) && Loggable(tx, size, |d|) && Stays(LogEnd(LOG, txs), tx, k, size)
    requires k <= |CommitWrites(d[SUPER], hdr, LogEnd(LOG, txs), tx)|
    requires e == Apply(d, CommitWrites(d[SUPER], hdr, LogEnd(LOG, txs), tx)[..k])
    ensures Logged(e, size, left)
    ensures SameHome(Apply(d, Flat(txs)), home, size) ==>
      SameHome(Apply(e, Flat(left)), if k == |tx| + 2 then Apply(home, tx) else home, size)
  {
    CommitIsAtomic(d, hdr, size, txs, tx, k);
    left := if k == |tx| + 2 then txs + [tx] else txs;
    CommitKeepsHome(d, hdr, size, LogEnd(LOG, txs), tx, k);
    ApplySameHome(e, d, Flat(left), size);
    if SameHome(Apply(d, Flat(txs)), home, size) && k == |tx| + 2 {
      FlatAppend(txs, tx);
      ApplyConcat(d, Flat(txs), tx);
      ApplySameHome(Apply(d, Flat(txs)), home, tx, size);
    }
  }

  /** After a commit that is cut short the old state comes back, after a whole one the new. */
  lemma CrashInCommitGood(s: State, p: nat, k: nat, cuts: seq<nat>, blank: Block, r: State)
    requires Base(s) && Enabled(s, CrashInCommit(p, k, cuts, blank)) && r == Next(s, CrashInCommit(p, k, cuts, blank))
    ensures Good(r) && Clean(r) && r.cache.jsize == s.cache.jsize
    ensures Good(s) ==>
      SameHome(r.durable, if k == |CommitOf(s, p)| then Apply(s.durable, TransOf(s.cache, p)) else s.durable,
               s.cache.jsize)
  {
    var d, tx := s.cache.disk, TransOf(s.cache, p);
    var e := Apply(d, CommitOf(s, p)[..k]);
    CommitLoggable(s, p);
    var left := CommitCrash(d, s.hdr, s.cache.jsize, s.log, tx, k, e, s.durable);
    RebootedGood(s, e, left, cuts, blank, r);
  }

  lemma StepKeepsBase(s: State, e: Event, r: State)
    requires Base(s) && Enabled(s, e) && r == Next(s, e)
    ensures Base(r) && (Good(s) ==> (Good(r) <==> !Early(s, e)))
  {
    match e
    case Step(e) => StepGood(s, e, r);
    case Commit(p) => CommitGood(s, p, r);
    case FlushEnd => FlushEndIff(s, r);
    case Crash(cuts, blank) => CrashGood(s, cuts, blank, r);
    case CrashInCommit(p, k, cuts, blank) => CrashInCommitGood(s, p, k, cuts, blank, r);
  }

  // ---- the machine is the flat array --------------------------------------

  ghost predicate RefinesAt(c: Cache.System, durable: Disk, a: Store, x: nat)
    requires WellFormed(a, |durable|) && x < |durable| == |c.store| && |c.place| == |c.bufs|
  {
    && a.latest[x] == c.store[x] && a.durable[x] == durable[x]
    && forall p: nat :: a.writer[x] == Some(p) <==> WrittenBy(c.bufs, c.place, p, x)
  }

  ghost predicate Refines(s: State, a: Store)
    requires Base(s)
  {
    && WellFormed(a, |s.cache.disk|)
    && forall x :: 0 <= x < |s.cache.disk| && !InJournal(x, s.cache.jsize) ==>
         RefinesAt(s.cache, s.durable, a, x)
  }

  /** What an event does to the flat array. */
  ghost function Actions(s: State, e: Event): (acts: seq<Action>)
    requires Base(s) && Enabled(s, e)
  {
    match e
    case Step(Bwrite(p, b, data)) => [Writes(p, s.cache.bufs[b].sector, data)]
    case Step(_) => []
    case Commit(p) => [Commits(p)]
    case FlushEnd => []
    case Crash(_, _) => [PowerFails]
    case CrashInCommit(p, k, _, _) => (if k == |CommitOf(s, p)| then [Commits(p)] else []) + [PowerFails]
  }

  function DoAll(a: Store, acts: seq<Action>): (r: Store)
    requires WellFormed(a, |a.latest|)
    ensures WellFormed(r, |a.latest|)
    decreases |acts|
  {
    if acts == [] then a else DoAll(Do(a, acts[0]), acts[1..])
  }

  /** Which sectors are written and not committed depends on the buffers in transactions only. */
  lemma SameWriters(bufs: seq<Cache.Buf>, place: seq<Cache.Where>, bufs': seq<Cache.Buf>, place': seq<Cache.Where>,
                    p: nat, x: nat)
    requires |place| == |bufs| == |bufs'| == |place'|
    requires forall b :: 0 <= b < |bufs| && (place[b].InTrans? || place'[b].InTrans?) ==>
      place[b] == place'[b] && bufs[b].sector == bufs'[b].sector
    ensures WrittenBy(bufs, place, p, x) <==> WrittenBy(bufs', place', p, x)
  {
    if WrittenBy(bufs, place, p, x) {
      var b :| 0 <= b < |bufs| && place[b] == Cache.InTrans(p) && bufs[b].sector == x;
      assert place'[b] == Cache.InTrans(p) && bufs'[b].sector == x;
    }
    if WrittenBy(bufs', place', p, x) {
      var b :| 0 <= b < |bufs| && place'[b] == Cache.InTrans(p) && bufs'[b].sector == x;
      assert place[b] == Cache.InTrans(p) && bufs[b].sector == x;
    }
  }

  /** bget changes no buffer that is in a transaction. */
  lemma BgetWriters(c: Cache.System, p: nat, sector: nat, r: Cache.System)
    requires Cache.Inv(c) && Cache.Enabled(c, Cache.Bget(p, sector)) && r == Cache.Next(c, Cache.Bget(p, sector))
    ensures |r.bufs| == |r.place| == |c.bufs| && r.store == c.store
    ensures forall b :: 0 <= b < |c.bufs| && (c.place[b].InTrans? || r.place[b].InTrans?) ==>
      c.place[b] == r.place[b] && c.bufs[b].sector == r.bufs[b].sector
  {
    var b := Cache.BgetResult(c.bufs, c.ring, sector).b;
    assert Cache.Flags(c.bufs[b], c.held[b], c.place[b], |c.disk|, c.jsize);
  }

  /** The steps that write nothing leave the buffers in transactions alone. */
  lemma QuietWriters(c: Cache.System, e: Cache.Event, r: Cache.System)
    requires Cache.Inv(c) && InCache(e) && !e.Bwrite? && Cache.Enabled(c, e) && r == Cache.Next(c, e)
    ensures |r.bufs| == |r.place| == |c.bufs| && r.store == c.store
    ensures forall b :: 0 <= b < |c.bufs| && (c.place[b].InTrans? || r.place[b].InTrans?) ==>
      c.place[b] == r.place[b] && c.bufs[b].sector == r.bufs[b].sector
  {
    if e.Bget? { BgetWriters(c, e.p, e.sector, r); }
  }

  lemma QuietRefines(s: State, e: Cache.Event, r: State, a: Store)
    requires Base(s) && Enabled(s, Step(e)) && !e.Bwrite? && r == Next(s, Step(e)) && Base(r) && Refines(s, a)
    requires |r.cache.disk| == |s.cache.disk| && r.cache.jsize == s.cache.jsize
    ensures Refines(r, a)
  {
    var c, c' := s.cache, r.cache;
    QuietWriters(c, e, c');
    forall x | 0 <= x < |c.disk| && !InJournal(x, c.jsize) ensures RefinesAt(r.cache, r.durable, a, x) {
      assert RefinesAt(s.cache, s.durable, a, x);
      forall p: nat ensures a.writer[x] == Some(p) <==> WrittenBy(c'.bufs, c'.place, p, x) {
        SameWriters(c.bufs, c.place, c'.bufs, c'.place, p, x);
      }
    }
  }

  /** Who has written sector x without committing, after p writes it through buffer b. */
  lemma WriteWriters(c: Cache.System, p: nat, b: nat, data: Block, r: Cache.System, q: nat, x: nat)
    requires Cache.Inv(c) && Cache.Enabled(c, Cache.Bwrite(p, b, data)) && r == Cache.Next(c, Cache.Bwrite(p, b, data))
    ensures |r.bufs| == |r.place| == |c.bufs|
    ensures WrittenBy(r.bufs, r.place, q, x) <==>
      if x == c.bufs[b].sector then q == p else WrittenBy(c.bufs, c.place, q, x)
  {
    assert forall d :: 0 <= d < |c.bufs| && d != b ==> r.bufs[d] == c.bufs[d] && r.place[d] == c.place[d];
    assert r.place[b] == Cache.InTrans(p) && r.bufs[b].sector == c.bufs[b].sector;
    assert Cache.Flags(c.bufs[b], c.held[b], c.place[b], |c.disk|, c.jsize);
    if WrittenBy(r.bufs, r.place, q, x) {
      var d :| 0 <= d < |r.bufs| && r.place[d] == Cache.InTrans(q) && r.bufs[d].sector == x;
      if d != b {
        assert Cache.Flags(c.bufs[d], c.held[d], c.place[d], |c.disk|, c.jsize);
        assert c.bufs[d].sector != c.bufs[b].sector;
        assert c.place[d] == Cache.InTrans(q) && c.bufs[d].sector == x;
      }
    }
    if x != c.bufs[b].sector && WrittenBy(c.bufs, c.place, q, x) {
      var d :| 0 <= d < |c.bufs| && c.place[d] == Cache.InTrans(q) && c.bufs[d].sector == x;
      assert r.place[d] == Cache.InTrans(q) && r.bufs[d].sector == x;
    }
  }

  lemma BwriteAt(c: Cache.System, p: nat, b: nat, data: Block, r: Cache.System, durable: Disk, a: Store, x: nat)
    requires Cache.Inv(c) && Cache.Enabled(c, Cache.Bwrite(p, b, data)) && r == Cache.Next(c, Cache.Bwrite(p, b, data))
    requires WellFormed(a, |durable|) && x < |durable| == |c.store| == |r.store| && |r.place| == |r.bufs|
    requires RefinesAt(c, durable, a, x)
    ensures RefinesAt(r, durable, Do(a, Writes(p, c.bufs[b].sector, data)), x)
  {
    Cache.BwriteStep(c, p, b, data, r);
    forall q: nat ensures WrittenBy(r.bufs, r.place, q, x) <==>
      if x == c.bufs[b].sector then q == p else WrittenBy(c.bufs, c.place, q, x)
    {
      WriteWriters(c, p, b, data, r, q, x);
    }
  }

  lemma BwriteRefines(s: State, p: nat, b: nat, data: Block, r: State, a: Store)
    requires Base(s) && Enabled(s, Step(Cache.Bwrite(p, b, data))) && r == Next(s, Step(Cache.Bwrite(p, b, data)))
    requires Base(r) && Refines(s, a)
    ensures Refines(r, Do(a, Writes(p, s.cache.bufs[b].sector, data)))
  {
    forall x | 0 <= x < |s.cache.disk| && !InJournal(x, s.cache.jsize)
      ensures RefinesAt(r.cache, r.durable, Do(a, Writes(p, s.cache.bufs[b].sector, data)), x)
    {
      BwriteAt(s.cache, p, b, data, r.cache, s.durable, a, x);
    }
  }

  /** A sector's durable contents after a commit of p. */
  lemma CommitAt(s: State, p: nat, x: nat)
    requires Base(s) && CanCommit(s.cache, p) && x < |s.cache.disk|
    ensures Apply(s.durable, TransOf(s.cache, p))[x] ==
      if WrittenBy(s.cache.bufs, s.cache.place, p, x) then s.cache.store[x] else s.durable[x]
  {
    var c, tx, bs := s.cache, TransOf(s.cache, p), Cache.TransOf(s.cache.trans, p);
    assert Cache.ListIs(bs, c.place, Cache.InTrans(p));
    ListTrans(c, bs, Cache.InTrans(p));
    if WrittenBy(c.bufs, c.place, p, x) {
      var b :| 0 <= b < |c.bufs| && c.place[b] == Cache.InTrans(p) && c.bufs[b].sector == x;
      assert b in bs;
      var i :| 0 <= i < |bs| && bs[i] == b;
      ApplyDistinct(s.durable, tx, i);
    } else {
      forall i | 0 <= i < |tx| ensures tx[i].sector != x {
        assert c.place[bs[i]] == Cache.InTrans(p) && tx[i].sector == c.bufs[bs[i]].sector;
      }
      ApplyFrame(s.durable, tx, x);
    }
  }

  /** Durable contents after a commit of p are those the flat array keeps. */
  lemma CommitKeep(s: State, p: nat, a: Store)
    requires Base(s) && CanCommit(s.cache, p) && Refines(s, a)
    ensures SameHome(Apply(s.durable, TransOf(s.cache, p)), Keep(a, p), s.cache.jsize)
  {
    forall x | 0 <= x < |s.cache.disk| && !InJournal(x, s.cache.jsize)
      ensures Apply(s.durable, TransOf(s.cache, p))[x] == Keep(a, p)[x]
    {
      assert RefinesAt(s.cache, s.durable, a, x);
      CommitAt(s, p, x);
    }
  }

  lemma CommitWriters(c: Cache.System, p: nat, place: seq<Cache.Where>, q: nat, x: nat)
    requires |c.place| == |c.bufs| && place == Cache.NowPending(c.place, p)
    ensures WrittenBy(c.bufs, place, q, x) <==> q != p && WrittenBy(c.bufs, c.place, q, x)
  {
    if q != p && WrittenBy(c.bufs, c.place, q, x) {
      var b :| 0 <= b < |c.bufs| && c.place[b] == Cache.InTrans(q) && c.bufs[b].sector == x;
      assert place[b] == Cache.InTrans(q);
    }
    if WrittenBy(c.bufs, place, q, x) {
      var b :| 0 <= b < |c.bufs| && place[b] == Cache.InTrans(q) && c.bufs[b].sector == x;
      assert c.place[b] == Cache.InTrans(q);
    }
  }

  lemma CommitRefinesAt(c: Cache.System, p: nat, r: Cache.System, durable: Disk, after: Disk, a: Store, x: nat)
    requires |c.place| == |c.bufs| && r.bufs == c.bufs && r.place == Cache.NowPending(c.place, p) && r.store == c.store
    requires WellFormed(a, |durable|) && x < |durable| == |c.store| && RefinesAt(c, durable, a, x)
    requires |after| == |durable| && after[x] == Keep(a, p)[x]
    ensures RefinesAt(r, after, Do(a, Commits(p)), x)
  {
    forall q: nat ensures WrittenBy(r.bufs, r.place, q, x) <==> q != p && WrittenBy(c.bufs, c.place, q, x) {
      CommitWriters(c, p, r.place, q, x);
    }
  }

  lemma CommitFields(s: State, p: nat, r: State)
    requires Base(s) && Enabled(s, Commit(p)) && r == Next(s, Commit(p))
    ensures var c, c' := s.cache, r.cache;
      && c'.bufs == c.bufs && c'.place == Cache.NowPending(c.place, p) && c'.store == c.store
      && c'.jsize == c.jsize && |c'.disk| == |c.disk| && r.durable == Apply(s.durable, TransOf(c, p))
  {
    CommitHome(s, p);
  }

  lemma CommitRefines(s: State, p: nat, r: State, a: Store)
    requires Base(s) && Enabled(s, Commit(p)) && r == Next(s, Commit(p)) && Base(r) && Refines(s, a)
    ensures Refines(r, Do(a, Commits(p)))
  {
    CommitKeep(s, p, a);
    CommitFields(s, p, r);
    forall x | 0 <= x < |s.cache.disk| && !InJournal(x, s.cache.jsize)
      ensures RefinesAt(r.cache, r.durable, Do(a, Commits(p)), x)
    {
      CommitRefinesAt(s.cache, p, r.cache, s.durable, r.durable, a, x);
    }
  }

  /** A boot finds the durable contents, and nothing uncommitted. */
  lemma RebootRefines(r: State, durable: Disk, a: Store)
    requires Good(r) && Clean(r) && WellFormed(a, |r.cache.disk|)
    requires SameHome(r.durable, durable, r.cache.jsize) && SameHome(durable, a.durable, r.cache.jsize)
    ensures Refines(r, Do(a, PowerFails))
  {
  }

  lemma DoOne(a: Store, act: Action)
    requires WellFormed(a, |a.latest|)
    ensures DoAll(a, [act]) == Do(a, act)
  {
    assert [act][1..] == [];
  }

  lemma DoTwo(a: Store, act: Action, last: Action)
    requires WellFormed(a, |a.latest|)
    ensures DoAll(a, [act] + [last]) == Do(Do(a, act), last)
  {
    assert ([act] + [last])[1..] == [last];
    DoOne(Do(a, act), last);
  }

  lemma DurableHome(s: State, a: Store)
    requires Base(s) && Refines(s, a)
    ensures SameHome(s.durable, a.durable, s.cache.jsize)
  {
    forall x | 0 <= x < |s.durable| && !InJournal(x, s.cache.jsize) ensures s.durable[x] == a.durable[x] {
      assert RefinesAt(s.cache, s.durable, a, x);
    }
  }

  lemma CrashRefines(s: State, cuts: seq<nat>, blank: Block, r: State, a: Store)
    requires Good(s) && Refines(s, a) && r == Next(s, Crash(cuts, blank))
    ensures Base(r) && Refines(r, Do(a, PowerFails))
  {
    CrashGood(s, cuts, blank, r);
    DurableHome(s, a);
    RebootRefines(r, s.durable, a);
  }

  lemma CrashAfterCommitRefines(s: State, p: nat, cuts: seq<nat>, blank: Block, r: State, a: Store, e: Event)
    requires Good(s) && Refines(s, a) && CanCommit(s.cache, p) && e == CrashInCommit(p, |CommitOf(s, p)|, cuts, blank)
    requires Enabled(s, e) && r == Next(s, e)
    ensures Base(r) && Refines(r, Do(Do(a, Commits(p)), PowerFails))
  {
    CrashInCommitGood(s, p, |CommitOf(s, p)|, cuts, blank, r);
    CommitKeep(s, p, a);
    RebootRefines(r, Apply(s.durable, TransOf(s.cache, p)), Do(a, Commits(p)));
  }

  lemma CrashBeforeCommitRefines(s: State, p: nat, k: nat, cuts: seq<nat>, blank: Block, r: State, a: Store, e: Event)
    requires Good(s) && Refines(s, a) && e == CrashInCommit(p, k, cuts, blank)
    requires Enabled(s, e) && k < |CommitOf(s, p)| && r == Next(s, e)
    ensures Base(r) && Refines(r, Do(a, PowerFails))
  {
    CrashInCommitGood(s, p, k, cuts, blank, r);
    DurableHome(s, a);
    RebootRefines(r, s.durable, a);
  }

  lemma CrashInCommitRefines(s: State, p: nat, k: nat, cuts: seq<nat>, blank: Block, r: State, a: Store)
    requires Good(s) && Refines(s, a) && Enabled(s, CrashInCommit(p, k, cuts, blank))
    requires r == Next(s, CrashInCommit(p, k, cuts, blank))
    ensures Base(r) && Refines(r, DoAll(a, Actions(s, CrashInCommit(p, k, cuts, blank))))
  {
    if k == |CommitOf(s, p)| {
      CrashAfterCommitRefines(s, p, cuts, blank, r, a, CrashInCommit(p, k, cuts, blank));
      DoTwo(a, Commits(p), PowerFails);
    } else {
      CrashBeforeCommitRefines(s, p, k, cuts, blank, r, a, CrashInCommit(p, k, cuts, blank));
      assert [] + [PowerFails] == [PowerFails];
      DoOne(a, PowerFails);
    }
  }

  lemma OtherDisk(c: Cache.System, r: Cache.System, durable: Disk, a: Store, x: nat)
    requires WellFormed(a, |durable|) && x < |durable| == |c.store| && |c.place| == |c.bufs|
    requires r == c.(disk := r.disk, now := r.now) && RefinesAt(c, durable, a, x)
    ensures RefinesAt(r, durable, a, x)
  {
  }

  lemma FlushEndRefines(s: State, r: State, a: Store)
    requires Base(s) && Refines(s, a) && Enabled(s, FlushEnd) && r == Next(s, FlushEnd)
    ensures Base(r) && Refines(r, a)
  {
    FlushEndBase(s, r);
    forall x | 0 <= x < |r.cache.disk| && !InJournal(x, r.cache.jsize) ensures RefinesAt(r.cache, r.durable, a, x) {
      OtherDisk(s.cache, r.cache, s.durable, a, x);
    }
  }

  lemma InCacheRefines(s: State, e: Cache.Event, r: State, a: Store)
    requires Base(s) && Refines(s, a) && Enabled(s, Step(e)) && r == Next(s, Step(e))
    ensures Base(r) && Refines(r, DoAll(a, Actions(s, Step(e))))
  {
    StepGood(s, e, r);
    if e.Bwrite? {
      BwriteRefines(s, e.p, e.b, e.data, r, a);
      DoOne(a, Writes(e.p, s.cache.bufs[e.b].sector, e.data));
    } else {
      SameSizes(s.cache, e, r.cache);
      QuietRefines(s, e, r, a);
    }
  }

  lemma SameSizes(c: Cache.System, e: Cache.Event, r: Cache.System)
    requires Cache.Inv(c) && InCache(e) && Cache.Enabled(c, e) && r == Cache.Next(c, e)
    ensures |r.disk| == |c.disk| && r.jsize == c.jsize
  {
  }

  /** Every step does to the flat array what Actions says. */
  lemma StepRefines(s: State, e: Event, r: State, a: Store)
    requires Good(s) && Refines(s, a) && Enabled(s, e) && r == Next(s, e)
    ensures Base(r) && Refines(r, DoAll(a, Actions(s, e)))
  {
    match e
    case Step(e) => InCacheRefines(s, e, r, a);
    case Commit(p) =>
      CommitGood(s, p, r);
      CommitRefines(s, p, r, a);
      DoOne(a, Commits(p));
    case FlushEnd => FlushEndRefines(s, r, a);
    case Crash(cuts, blank) =>
      CrashRefines(s, cuts, blank, r, a);
      DoOne(a, PowerFails);
    case CrashInCommit(p, k, cuts, blank) => CrashInCommitRefines(s, p, k, cuts, blank, r, a);
  }

  // ---- all runs -----------------------------------------------------------

  ghost predicate IsRun(s: State, es: seq<Event>)
    requires Base(s)
    decreases |es|
  {
    es == [] || (Enabled(s, es[0]) && (StepKeepsBase(s, es[0], Next(s, es[0])); IsRun(Next(s, es[0]), es[1..])))
  }

  ghost function After(s: State, es: seq<Event>): (r: State)
    requires Base(s) && IsRun(s, es)
    ensures Base(r)
    decreases |es|
  {
    if es == [] then s else (StepKeepsBase(s, es[0], Next(s, es[0])); After(Next(s, es[0]), es[1..]))
  }

  /** What the run does to the flat array. */
  ghost function StoreAfter(s: State, es: seq<Event>, a: Store): (r: Store)
    requires Base(s) && IsRun(s, es) && WellFormed(a, |a.latest|)
    ensures WellFormed(r, |a.latest|)
    decreases |es|
  {
    if es == [] then a
    else
      StepKeepsBase(s, es[0], Next(s, es[0]));
      StoreAfter(Next(s, es[0]), es[1..], DoAll(a, Actions(s, es[0])))
  }

  /** No flush of the run empties the log before every pending buffer is home. */
  ghost predicate NeverEarly(s: State, es: seq<Event>)
    requires Base(s) && IsRun(s, es)
    decreases |es|
  {
    es == [] ||
    (!Early(s, es[0]) && (StepKeepsBase(s, es[0], Next(s, es[0])); NeverEarly(Next(s, es[0]), es[1..])))
  }

  /** At every point of the run recovery would give the durable contents of the flat array. */
  ghost predicate AlwaysRecovers(s: State, es: seq<Event>, a: Store)
    requires Base(s) && IsRun(s, es) && WellFormed(a, |a.latest|)
    decreases |es|
  {
    && SameHome(Recovered(s.cache.disk), a.durable, s.cache.jsize)
    && (es == [] || (StepKeepsBase(s, es[0], Next(s, es[0]));
                     AlwaysRecovers(Next(s, es[0]), es[1..], DoAll(a, Actions(s, es[0])))))
  }

  lemma GoodRecovers(s: State, a: Store)
    requires Good(s) && Refines(s, a)
    ensures SameHome(Recovered(s.cache.disk), a.durable, s.cache.jsize)
  {
    RecoveryInstallsLog(s.cache.disk, s.cache.jsize, s.log);
    DurableHome(s, a);
  }

  /** Once a flush has been early, recovery lacks something committed. */
  lemma EarlyLoses(s: State, r: State, a: Store)
    requires Good(s) && Refines(s, a) && Early(s, FlushEnd) && Enabled(s, FlushEnd) && r == Next(s, FlushEnd)
    ensures Base(r) && !SameHome(Recovered(r.cache.disk), a.durable, r.cache.jsize)
  {
    FlushEndIff(s, r);
    FlushEndRefines(s, r, a);
    DurableHome(r, a);
    RecoverFindsLog(r.cache.disk, r.cache.jsize, []);
    assert Apply(r.cache.disk, Flat(r.log)) == Recovered(r.cache.disk) == r.cache.disk;
    Runs.SameHomeChain(r.cache.disk, r.cache.disk, r.durable, a.durable, r.cache.jsize);
  }

  lemma {:induction false} RunRefines(s: State, es: seq<Event>, a: Store)
    requires Good(s) && IsRun(s, es) && Refines(s, a)
    ensures AlwaysRecovers(s, es, a) <==> NeverEarly(s, es)
    ensures NeverEarly(s, es) ==> Good(After(s, es)) && Refines(After(s, es), StoreAfter(s, es, a))
    decreases |es|
  {
    GoodRecovers(s, a);
    if es != [] {
      var r := Next(s, es[0]);
      StepKeepsBase(s, es[0], r);
      if Early(s, es[0]) {
        EarlyLoses(s, r, a);
      } else {
        StepRefines(s, es[0], r, a);
        RunRefines(r, es[1..], DoAll(a, Actions(s, es[0])));
      }
    }
  }

  /** A fresh image, booted. */
  ghost function Boot(d: Disk, jsize: nat, n: nat, blank: Block): (s: State)
    requires LOG < |d|
  {
    State(Cache.Boot(d, jsize, n, blank), LOG, d[LOG], [], d)
  }

  function Fresh(d: Disk): (a: Store)
    ensures WellFormed(a, |d|)
  {
    Store(d, d, seq(|d|, _ => None))
  }

  lemma BootGood(d: Disk, jsize: nat, n: nat, blank: Block)
    requires LOG < |d| <= TWO32 && Logged(d, jsize, [])
    ensures Good(Boot(d, jsize, n, blank)) && Refines(Boot(d, jsize, n, blank), Fresh(d))
  {
    Cache.BootInv(d, jsize, n, blank);
  }

  /**
   Cache and journal together are a flat array of blocks with transactions, in
   every run of any number of processes, with the power failing at any sector write
   and any number of times.  Recovery always brings back exactly what was committed
   iff no flush empties the log while a committed buffer is not home; and then every
   block a process has from bread holds what was last written to its sector, or,
   after a crash, what was last committed.
   */
  lemma CrashSafeStore(d: Disk, jsize: nat, n: nat, blank: Block, es: seq<Event>, s: State, a: Store)
    requires LOG < |d| <= TWO32 && Logged(d, jsize, [])
    requires (BootGood(d, jsize, n, blank); IsRun(Boot(d, jsize, n, blank), es))
    requires s == After(Boot(d, jsize, n, blank), es) && a == StoreAfter(Boot(d, jsize, n, blank), es, Fresh(d))
    ensures AlwaysRecovers(Boot(d, jsize, n, blank), es, Fresh(d)) <==> NeverEarly(Boot(d, jsize, n, blank), es)
    ensures NeverEarly(Boot(d, jsize, n, blank), es) ==>
      && SameHome(Recovered(s.cache.disk), a.durable, s.cache.jsize)
      && forall p: nat, b: nat :: Cache.HasBuf(s.cache, p, b, true) && !InJournal(s.cache.bufs[b].sector, s.cache.jsize)
           ==> s.cache.bufs[b].sector < |a.latest| && s.cache.bufs[b].data == a.latest[s.cache.bufs[b].sector]
  {
    BootGood(d, jsize, n, blank);
    RunRefines(Boot(d, jsize, n, blank), es, Fresh(d));
    if NeverEarly(Boot(d, jsize, n, blank), es) {
      GoodRecovers(s, a);
      forall p: nat, b: nat | Cache.HasBuf(s.cache, p, b, true) && !InJournal(s.cache.bufs[b].sector, s.cache.jsize)
        ensures s.cache.bufs[b].sector < |a.latest| && s.cache.bufs[b].data == a.latest[s.cache.bufs[b].sector]
      {
        ReadsLatest(s, a, b);
      }
    }
  }

  lemma ReadsLatest(s: State, a: Store, b: nat)
    requires Base(s) && Refines(s, a) && b < |s.cache.bufs| && s.cache.bufs[b].valid
    requires !InJournal(s.cache.bufs[b].sector, s.cache.jsize)
    ensures s.cache.bufs[b].sector < |a.latest| && s.cache.bufs[b].data == a.latest[s.cache.bufs[b].sector]
  {
    var c := s.cache;
    assert Cache.Flags(c.bufs[b], c.held[b], c.place[b], |c.disk|, c.jsize);
    assert Cache.Fresh(c.bufs[b], c.disk, c.store, c.jsize);
    assert RefinesAt(c, s.durable, a, c.bufs[b].sector);
  }
}
