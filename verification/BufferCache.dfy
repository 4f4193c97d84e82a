/**
 The buffer cache as a machine: getting, filling, writing and releasing buffers,
 committing and flushing transactions.  Every run of it reads like a flat array
 of blocks.
 */
module BufferCache {
  import opened Blocks
  import opened JournalLog

  datatype Buf = Buf(busy: bool, valid: bool, dirty: bool, sector: nat, data: Block)

  predicate Live(b: Buf) {
    b.busy || b.valid
  }

  // ---- bget ---------------------------------------------------------------

  /** The first place from i on, most recently used first, that holds the sector; or |ring|. */
  function FindFrom(bufs: seq<Buf>, ring: seq<nat>, s: nat, i: nat): (k: nat)
    requires i <= |ring| && forall j :: 0 <= j < |ring| ==> ring[j] < |bufs|
    ensures i <= k <= |ring|
    ensures k < |ring| ==> Live(bufs[ring[k]]) && bufs[ring[k]].sector == s
    ensures forall j :: i <= j < k ==> !(Live(bufs[ring[j]]) && bufs[ring[j]].sector == s)
    decreases |ring| - i
  {
    if i == |ring| || (Live(bufs[ring[i]]) && bufs[ring[i]].sector == s) then i else FindFrom(bufs, ring, s, i + 1)
  }

  /** The last place before i that is not busy; or -1. */
  function VictimBelow(bufs: seq<Buf>, ring: seq<nat>, i: nat): (k: int)
    requires i <= |ring| && forall j :: 0 <= j < |ring| ==> ring[j] < |bufs|
    ensures -1 <= k < i && (k >= 0 ==> !bufs[ring[k]].busy)
    ensures forall j :: k < j < i ==> bufs[ring[j]].busy
  {
    if i == 0 then -1 else if !bufs[ring[i - 1]].busy then i - 1 else VictimBelow(bufs, ring, i - 1)
  }

  /** No live buffer has the sector. */
  ghost predicate NotCached(bufs: seq<Buf>, s: nat) {
    forall b :: 0 <= b < |bufs| && Live(bufs[b]) ==> bufs[b].sector != s
  }

  /** Buffer b is the last on the ring that is not busy. */
  ghost predicate LastFree(bufs: seq<Buf>, ring: seq<nat>, b: nat) {
    exists v :: 0 <= v < |ring| && ring[v] == b < |bufs| && !bufs[b].busy && BusyBehind(bufs, ring, v)
  }

  ghost predicate BusyBehind(bufs: seq<Buf>, ring: seq<nat>, v: nat) {
    forall j :: v < j < |ring| && ring[j] < |bufs| ==> bufs[ring[j]].busy
  }

  /** A locked buffer, a wait for a busy one, or no buffer at all. */
  datatype Get = Got(b: nat) | Waits | NoBuffers

  function BgetResult(bufs: seq<Buf>, ring: seq<nat>, s: nat): (g: Get)
    requires forall j :: 0 <= j < |ring| ==> ring[j] < |bufs|
    ensures g.Got? ==>
      && g.b < |bufs| && !bufs[g.b].busy
      && ((bufs[g.b].valid && bufs[g.b].sector == s)
          || forall j :: 0 <= j < |ring| ==> !(Live(bufs[ring[j]]) && bufs[ring[j]].sector == s))
    ensures g == Waits ==> exists j :: 0 <= j < |ring| && bufs[ring[j]].busy && bufs[ring[j]].sector == s
    ensures g == NoBuffers ==> forall j :: 0 <= j < |ring| ==> bufs[ring[j]].busy && bufs[ring[j]].sector != s
    ensures g.Got? && NotCached(bufs, s) ==> LastFree(bufs, ring, g.b)
  {
    var k := FindFrom(bufs, ring, s, 0);
    if k < |ring| then
      if bufs[ring[k]].busy then Waits else Got(ring[k])
    else
      var v := VictimBelow(bufs, ring, |ring|);
      assert v >= 0 ==> BusyBehind(bufs, ring, v);
      if v < 0 then NoBuffers else Got(ring[v])
  }

  /** The buffer as bget hands it out: kept if it held the sector, emptied if not. */
  function Locked(b: Buf, s: nat): (r: Buf) {
    if b.valid && b.sector == s then b.(busy := true) else Buf(true, false, false, s, b.data)
  }

  // ---- the ring -----------------------------------------------------------

  /** Place k taken out. */
  function Without<T>(ring: seq<T>, k: nat): (r: seq<T>)
    requires k < |ring|
  {
    ring[..k] + ring[k + 1..]
  }

  /** Buffer b released: moved to the front. */
  function Released(ring: seq<nat>, b: nat): (r: seq<nat>)
    requires b in ring
  {
    [b] + Without(ring, Place(ring, b, 0))
  }

  function Place(ring: seq<nat>, b: nat, i: nat): (k: nat)
    requires i <= |ring| && b in ring[i..]
    ensures i <= k < |ring| && ring[k] == b
    decreases |ring| - i
  {
    if ring[i] == b then i else Place(ring, b, i + 1)
  }

  /** Every buffer once. */
  ghost predicate IsRing(ring: seq<nat>, n: nat) {
    && (forall i :: 0 <= i < |ring| ==> ring[i] < n)
    && (forall i, j :: 0 <= i < j < |ring| ==> ring[i] != ring[j])
    && (forall b :: 0 <= b < n ==> b in ring)
  }

  /** Later released buffers come first. */
  ghost predicate InReleaseOrder(ring: seq<nat>, stamp: seq<int>) {
    && (forall i :: 0 <= i < |ring| ==> ring[i] < |stamp|)
    && (forall i, j :: 0 <= i < j < |ring| ==> stamp[ring[i]] > stamp[ring[j]])
  }

  /** What stands where once b has been released. */
  lemma ReleasedAt(ring: seq<nat>, n: nat, b: nat, i: nat)
    requires IsRing(ring, n) && b in ring && 0 < i < |ring|
    ensures |Released(ring, b)| == |ring|
    ensures var k := Place(ring, b, 0);
      Released(ring, b)[i] == (if i <= k then ring[i - 1] else ring[i]) && Released(ring, b)[i] != b
  {
  }

  lemma ReleasedHas(ring: seq<nat>, n: nat, b: nat, x: nat)
    requires IsRing(ring, n) && b in ring && x in ring
    ensures x in Released(ring, b)
  {
    var k, r := Place(ring, b, 0), Released(ring, b);
    var j :| 0 <= j < |ring| && ring[j] == x;
    assert r[if j < k then j + 1 else if j == k then 0 else j] == x;
  }

  lemma ReleasedIsRing(ring: seq<nat>, n: nat, b: nat)
    requires IsRing(ring, n) && b in ring
    ensures IsRing(Released(ring, b), n)
  {
    var r := Released(ring, b);
    forall x | 0 <= x < n ensures x in r { ReleasedHas(ring, n, b, x); }
    forall i, j | 0 <= i < j < |r| ensures r[i] != r[j] {
      ReleasedAt(ring, n, b, j);
      if i > 0 { ReleasedAt(ring, n, b, i); }
    }
  }

  lemma ReleasedInOrder(ring: seq<nat>, n: nat, b: nat, stamp: seq<int>, now: int)
    requires IsRing(ring, n) && b in ring && |stamp| == n && InReleaseOrder(ring, stamp)
    requires forall i :: 0 <= i < |stamp| ==> stamp[i] < now
    ensures InReleaseOrder(Released(ring, b), stamp[b := now])
  {
    var r, after := Released(ring, b), stamp[b := now];
    ReleasedIsRing(ring, n, b);
    forall i, j | 0 <= i < j < |r| ensures after[r[i]] > after[r[j]] {
      ReleasedAt(ring, n, b, j);
      if i > 0 { ReleasedAt(ring, n, b, i); }
    }
  }

  /** For a block that is not cached bget takes the buffer released longest ago among those not busy. */
  lemma VictimIsOldest(bufs: seq<Buf>, ring: seq<nat>, stamp: seq<int>, s: nat, c: nat)
    requires IsRing(ring, |bufs|) && |stamp| == |bufs| && InReleaseOrder(ring, stamp) && NotCached(bufs, s)
    requires c < |bufs| && !bufs[c].busy
    ensures BgetResult(bufs, ring, s).Got? && stamp[BgetResult(bufs, ring, s).b] <= stamp[c]
  {
    assert c in ring;
    var j :| 0 <= j < |ring| && ring[j] == c;
    var b := BgetResult(bufs, ring, s).b;
    assert LastFree(bufs, ring, b);
    var v :| 0 <= v < |ring| && ring[v] == b < |bufs| && !bufs[b].busy && BusyBehind(bufs, ring, v);
  }

  /** Which answer bget gives: the cached buffer if it is free, a wait if it is not, a victim if there is one. */
  lemma BgetAnswers(bufs: seq<Buf>, ring: seq<nat>, s: nat, c: nat)
    requires IsRing(ring, |bufs|) && Unique(bufs) && c < |bufs|
    ensures Live(bufs[c]) && bufs[c].sector == s ==>
      BgetResult(bufs, ring, s) == if bufs[c].busy then Waits else Got(c)
    ensures NotCached(bufs, s) ==> (BgetResult(bufs, ring, s) == NoBuffers <==> AllBusy(bufs))
  {
    assert c in ring;
    var j :| 0 <= j < |ring| && ring[j] == c;
    var g := BgetResult(bufs, ring, s);
    forall a | 0 <= a < |bufs| && g == NoBuffers ensures bufs[a].busy { assert a in ring; }
  }

  ghost predicate AllBusy(bufs: seq<Buf>) {
    forall b :: 0 <= b < |bufs| ==> bufs[b].busy
  }

  // ---- the machine --------------------------------------------------------

  /** Who has a busy buffer: a process, or a transaction it was given up to. */
  datatype Holder = Nobody | By(p: nat) | Given

  /** Which list a dirty buffer is on. */
  datatype Where = Clean | InTrans(p: nat) | Pending

  /**
   The buffers and their ring, the disk, each process's transaction, the buffers of
   the committed transactions not yet flushed; and beside them who holds which
   buffer, which list each is on, what was logged for the pending ones, the flat
   array of blocks, the time of each buffer's last release, and the steps so far.
   */
  datatype System = System(
    bufs: seq<Buf>, ring: seq<nat>, disk: Disk, jsize: nat, trans: map<nat, seq<nat>>, pending: seq<nat>,
    held: seq<Holder>, place: seq<Where>, logged: Trans, store: Disk, stamp: seq<int>, now: int)

  datatype Event =
    | Bget(p: nat, sector: nat) | Fill(p: nat, b: nat) | Bwrite(p: nat, b: nat, data: Block) | Brelse(p: nat, b: nat)
    | Commit(p: nat, disk: Disk) | FlushOne(i: nat) | FlushEnd(disk: Disk)

  function TransOf(trans: map<nat, seq<nat>>, p: nat): (bs: seq<nat>) {
    if p in trans then trans[p] else []
  }

  /** p has buffer b from bget; filled says whether bread has returned it. */
  predicate HasBuf(s: System, p: nat, b: nat, filled: bool) {
    b < |s.bufs| && |s.held| == |s.bufs| && s.held[b] == By(p) && s.bufs[b].valid == filled
  }

  ghost predicate Enabled(s: System, e: Event) {
    match e
    case Bget(p, sector) =>
      && sector < |s.disk| && (forall j :: 0 <= j < |s.ring| ==> s.ring[j] < |s.bufs|)
      && BgetResult(s.bufs, s.ring, sector).Got?
    case Fill(p, b) => HasBuf(s, p, b, false)
    case Bwrite(p, b, _) => HasBuf(s, p, b, true) && !s.bufs[b].dirty && !InJournal(s.bufs[b].sector, s.jsize)
    case Brelse(p, b) => HasBuf(s, p, b, true)
    case Commit(p, disk) =>
      && 0 < |TransOf(s.trans, p)| <= NBPT && |s.held| == |s.bufs| && SameHome(s.disk, disk, s.jsize)
      && (forall i :: 0 <= i < |TransOf(s.trans, p)| ==>
           TransOf(s.trans, p)[i] < |s.bufs| && s.held[TransOf(s.trans, p)[i]] == Given)
    case FlushOne(i) => i < |s.pending|
    case FlushEnd(disk) => SameHome(s.disk, disk, s.jsize)
  }

  /** The sectors and data of a list of buffers. */
  function Contents(bufs: seq<Buf>, bs: seq<nat>): (tx: Trans)
    requires forall i :: 0 <= i < |bs| ==> bs[i] < |bufs|
    ensures |tx| == |bs| && forall i :: 0 <= i < |bs| ==> tx[i] == Write(bufs[bs[i]].sector, bufs[bs[i]].data)
  {
    seq(|bs|, i requires 0 <= i < |bs| => Write(bufs[bs[i]].sector, bufs[bs[i]].data))
  }

  /** Every place on one list moves to the pending one. */
  function NowPending(place: seq<Where>, p: nat): (r: seq<Where>)
    ensures |r| == |place| && forall b :: 0 <= b < |place| ==>
      r[b] == if place[b] == InTrans(p) then Pending else place[b]
  {
    seq(|place|, b requires 0 <= b < |place| => if place[b] == InTrans(p) then Pending else place[b])
  }

  // ---- what every state keeps ---------------------------------------------

  /** One buffer's flags agree with who holds it and which list it is on. */
  predicate Flags(b: Buf, h: Holder, w: Where, sectors: nat, jsize: nat) {
    && (b.busy <==> h != Nobody) && (b.dirty <==> w != Clean)
    && (Live(b) ==> b.sector < sectors)
    && (b.dirty ==> b.busy && b.valid && !InJournal(b.sector, jsize))
    && (h == Given ==> b.dirty)
    && (w.InTrans? ==> h == By(w.p) || h == Given) && (w == Pending ==> h == Given)
  }

  ghost predicate Shape(s: System) {
    && |s.held| == |s.bufs| && |s.place| == |s.bufs| && |s.store| == |s.disk|
    && IsRing(s.ring, |s.bufs|)
    && forall b :: 0 <= b < |s.bufs| ==> Flags(s.bufs[b], s.held[b], s.place[b], |s.disk|, s.jsize)
  }

  ghost predicate Ordered(s: System) {
    && |s.stamp| == |s.bufs| && InReleaseOrder(s.ring, s.stamp)
    && forall b :: 0 <= b < |s.stamp| ==> s.stamp[b] < s.now
  }

  /** No two live buffers name the same sector. */
  ghost predicate Unique(bufs: seq<Buf>) {
    forall a, b :: 0 <= a < b < |bufs| && Live(bufs[a]) && Live(bufs[b]) ==> bufs[a].sector != bufs[b].sector
  }

  /** A list holds exactly the buffers placed on it, each once. */
  ghost predicate ListIs(bs: seq<nat>, place: seq<Where>, w: Where) {
    && (forall i :: 0 <= i < |bs| ==> bs[i] < |place| && place[bs[i]] == w)
    && (forall i, j :: 0 <= i < j < |bs| ==> bs[i] != bs[j])
    && (forall b :: 0 <= b < |place| && place[b] == w ==> b in bs)
  }

  ghost predicate Lists(s: System) {
    ListIs(s.pending, s.place, Pending) && forall p: nat :: ListIs(TransOf(s.trans, p), s.place, InTrans(p))
  }

  /** A home sector that a valid buffer holds is there with its latest contents. */
  predicate Fresh(b: Buf, disk: Disk, store: Disk, jsize: nat) {
    b.valid && b.sector < |disk| && b.sector < |store| && !InJournal(b.sector, jsize) ==>
      b.data == store[b.sector] && (!b.dirty ==> b.data == disk[b.sector])
  }

  ghost predicate DirtyFor(bufs: seq<Buf>, sector: nat) {
    exists b :: 0 <= b < |bufs| && bufs[b].dirty && bufs[b].sector == sector
  }

  /** The cache and the disk together are the flat array of blocks. */
  ghost predicate Coherent(bufs: seq<Buf>, disk: Disk, store: Disk, jsize: nat)
    requires |store| == |disk|
  {
    && (forall b :: 0 <= b < |bufs| ==> Fresh(bufs[b], disk, store, jsize))
    && (forall x :: 0 <= x < |disk| && !InJournal(x, jsize) && disk[x] != store[x] ==> DirtyFor(bufs, x))
  }

  /** The pending buffers still hold what was logged for them. */
  ghost predicate AsLogged(s: System) {
    && (forall i :: 0 <= i < |s.pending| ==> s.pending[i] < |s.bufs|)
    && s.logged == Contents(s.bufs, s.pending)
  }

  ghost predicate Inv(s: System) {
    Shape(s) && Ordered(s) && Unique(s.bufs) && Lists(s) && Coherent(s.bufs, s.disk, s.store, s.jsize) && AsLogged(s)
  }

  // ---- steps --------------------------------------------------------------

  /** Buffer b leaves its holder and goes to the front. */
  ghost function Release(s: System, b: nat): (r: System)
    requires b < |s.bufs| && b < |s.held| && b in s.ring && b < |s.stamp|
  {
    s.(bufs := s.bufs[b := s.bufs[b].(busy := false)], held := s.held[b := Nobody],
       ring := Released(s.ring, b), stamp := s.stamp[b := s.now], now := s.now + 1)
  }

  ghost function Next(s: System, e: Event): (r: System)
    requires Inv(s) && Enabled(s, e)
  {
    match e
    case Bget(p, sector) =>
      var b := BgetResult(s.bufs, s.ring, sector).b;
      s.(bufs := s.bufs[b := Locked(s.bufs[b], sector)], held := s.held[b := By(p)], now := s.now + 1)
    case Fill(p, b) =>
      s.(bufs := s.bufs[b := s.bufs[b].(data := s.disk[s.bufs[b].sector], valid := true)], now := s.now + 1)
    case Bwrite(p, b, data) =>
      s.(bufs := s.bufs[b := s.bufs[b].(data := data, dirty := true)], place := s.place[b := InTrans(p)],
         trans := s.trans[p := [b] + TransOf(s.trans, p)], store := s.store[s.bufs[b].sector := data],
         now := s.now + 1)
    case Brelse(p, b) =>
      if |TransOf(s.trans, p)| == 0 || !s.bufs[b].dirty then Release(s, b)
      else s.(held := s.held[b := Given], now := s.now + 1)
    case Commit(p, disk) =>
      var bs := TransOf(s.trans, p);
      s.(disk := disk, pending := s.pending + bs, trans := s.trans[p := []], place := NowPending(s.place, p),
         logged := s.logged + Contents(s.bufs, bs), now := s.now + 1)
    case FlushOne(i) =>
      var b := s.pending[i];
      var written := s.(disk := s.disk[s.bufs[b].sector := s.bufs[b].data],
                        bufs := s.bufs[b := s.bufs[b].(dirty := false)], place := s.place[b := Clean],
                        pending := Without(s.pending, i), logged := Without(s.logged, i));
      Release(written, b)
    case FlushEnd(disk) => s.(disk := disk, now := s.now + 1)
  }

  // ---- every step keeps the invariant -------------------------------------

  /** A change of buffer b that takes no other live buffer's sector. */
  lemma UniqueOne(bufs: seq<Buf>, b: nat, nb: Buf)
    requires Unique(bufs) && b < |bufs|
    requires Live(nb) ==> forall a :: 0 <= a < |bufs| && a != b && Live(bufs[a]) ==> bufs[a].sector != nb.sector
    ensures Unique(bufs[b := nb])
  {
  }

  /** A change of a buffer that is not pending. */
  lemma LoggedOne(bufs: seq<Buf>, b: nat, nb: Buf, pending: seq<nat>, logged: Trans)
    requires (forall i :: 0 <= i < |pending| ==> pending[i] < |bufs|) && logged == Contents(bufs, pending)
    requires b < |bufs| && b !in pending
    ensures logged == Contents(bufs[b := nb], pending)
  {
  }

  /** A change of a clean buffer to one that is fresh. */
  lemma CoherentOne(bufs: seq<Buf>, b: nat, nb: Buf, disk: Disk, store: Disk, jsize: nat)
    requires |store| == |disk| && Coherent(bufs, disk, store, jsize) && b < |bufs| && !bufs[b].dirty
    requires Fresh(nb, disk, store, jsize)
    ensures Coherent(bufs[b := nb], disk, store, jsize)
  {
    var after := bufs[b := nb];
    forall x | 0 <= x < |disk| && !InJournal(x, jsize) && disk[x] != store[x] ensures DirtyFor(after, x) {
      assert DirtyFor(bufs, x);
      var a :| 0 <= a < |bufs| && bufs[a].dirty && bufs[a].sector == x;
      assert after[a].dirty && after[a].sector == x;
    }
  }

  lemma NoneLive(bufs: seq<Buf>, ring: seq<nat>, sector: nat, a: nat)
    requires IsRing(ring, |bufs|) && FindFrom(bufs, ring, sector, 0) == |ring| && a < |bufs|
    ensures !(Live(bufs[a]) && bufs[a].sector == sector)
  {
    assert a in ring;
    var j :| 0 <= j < |ring| && ring[j] == a;
  }

  /** No other live buffer has the sector of the one bget returns. */
  lemma GotAlone(bufs: seq<Buf>, ring: seq<nat>, sector: nat, a: nat)
    requires IsRing(ring, |bufs|) && Unique(bufs) && BgetResult(bufs, ring, sector).Got? && a < |bufs|
    requires a != BgetResult(bufs, ring, sector).b && Live(bufs[a])
    ensures bufs[a].sector != sector
  {
    if FindFrom(bufs, ring, sector, 0) == |ring| { NoneLive(bufs, ring, sector, a); }
  }

  lemma GotUnique(bufs: seq<Buf>, ring: seq<nat>, sector: nat, b: nat)
    requires IsRing(ring, |bufs|) && Unique(bufs) && BgetResult(bufs, ring, sector).Got?
      && b == BgetResult(bufs, ring, sector).b
    ensures Unique(bufs[b := Locked(bufs[b], sector)])
  {
    forall a | 0 <= a < |bufs| && a != b && Live(bufs[a]) ensures bufs[a].sector != sector {
      GotAlone(bufs, ring, sector, a);
    }
    UniqueOne(bufs, b, Locked(bufs[b], sector));
  }

  /** The buffers and holders other than b's are as before, and so are disk and transactions. */
  ghost predicate OnlyBuf(s: System, b: nat, r: System) {
    && |r.bufs| == |s.bufs| && |r.held| == |s.held| == |s.bufs| && b < |s.bufs|
    && (forall a :: 0 <= a < |s.bufs| && a != b ==> r.bufs[a] == s.bufs[a] && r.held[a] == s.held[a])
  }

  /** A cached block is handed out as it is; a buffer taken for another block is neither valid nor dirty. */
  predicate HandedOut(was: Buf, s: nat, b: Buf) {
    && b.busy && b.sector == s && (was.valid && was.sector == s ==> b == was.(busy := true))
    && (!was.valid || was.sector != s ==> !b.valid && !b.dirty)
  }

  /** bget gives one free buffer to the caller: the cached one if there is one, without a disk read. */
  lemma BgetStep(s: System, p: nat, sector: nat, r: System)
    requires Inv(s) && Enabled(s, Bget(p, sector)) && r == Next(s, Bget(p, sector))
    ensures Inv(r)
    ensures var b := BgetResult(s.bufs, s.ring, sector).b;
      && OnlyBuf(s, b, r) && s.held[b] == Nobody && r.held[b] == By(p)
      && HandedOut(s.bufs[b], sector, r.bufs[b]) && r.disk == s.disk && r.ring == s.ring
  {
    var b := BgetResult(s.bufs, s.ring, sector).b;
    var nb := Locked(s.bufs[b], sector);
    GotUnique(s.bufs, s.ring, sector, b);
    assert Fresh(s.bufs[b], s.disk, s.store, s.jsize);
    CoherentOne(s.bufs, b, nb, s.disk, s.store, s.jsize);
    LoggedOne(s.bufs, b, nb, s.pending, s.logged);
  }

  /** A buffer being filled finds the latest contents on the disk. */
  lemma DiskIsLatest(bufs: seq<Buf>, disk: Disk, store: Disk, jsize: nat, b: nat)
    requires |store| == |disk| && Coherent(bufs, disk, store, jsize) && Unique(bufs)
    requires forall a :: 0 <= a < |bufs| && bufs[a].dirty ==> Live(bufs[a])
    requires b < |bufs| && Live(bufs[b]) && !bufs[b].dirty && bufs[b].sector < |disk|
      && !InJournal(bufs[b].sector, jsize)
    ensures disk[bufs[b].sector] == store[bufs[b].sector]
  {
    assert !DirtyFor(bufs, bufs[b].sector);
  }

  /** bread's disk read: the caller then has the sector's block. */
  lemma FillStep(s: System, p: nat, b: nat, r: System)
    requires Inv(s) && Enabled(s, Fill(p, b)) && r == Next(s, Fill(p, b))
    ensures Inv(r)
    ensures OnlyBuf(s, b, r) && HasBuf(r, p, b, true) && r.bufs[b].sector == s.bufs[b].sector && r.disk == s.disk
  {
    var nb := r.bufs[b];
    assert Flags(s.bufs[b], s.held[b], s.place[b], |s.disk|, s.jsize);
    UniqueOne(s.bufs, b, nb);
    if !InJournal(nb.sector, s.jsize) { DiskIsLatest(s.bufs, s.disk, s.store, s.jsize, b); }
    CoherentOne(s.bufs, b, nb, s.disk, s.store, s.jsize);
    LoggedOne(s.bufs, b, nb, s.pending, s.logged);
  }

  lemma OwnList(bs: seq<nat>, place: seq<Where>, w: Where, b: nat)
    requires ListIs(bs, place, w) && b < |place| && place[b] == Clean && w != Clean
    ensures ListIs([b] + bs, place[b := w], w)
  {
    assert b !in bs;
  }

  lemma OtherList(bs: seq<nat>, place: seq<Where>, w: Where, b: nat, v: Where)
    requires ListIs(bs, place, w) && b < |place| && place[b] != w && v != w
    ensures ListIs(bs, place[b := v], w)
  {
  }

  lemma WriteLists(place: seq<Where>, trans: map<nat, seq<nat>>, pending: seq<nat>, p: nat, b: nat,
                   after: seq<Where>, trans': map<nat, seq<nat>>)
    requires b < |place| && place[b] == Clean && ListIs(pending, place, Pending)
    requires forall q: nat :: ListIs(TransOf(trans, q), place, InTrans(q))
    requires after == place[b := InTrans(p)] && trans' == trans[p := [b] + TransOf(trans, p)]
    ensures ListIs(pending, after, Pending) && forall q: nat :: ListIs(TransOf(trans', q), after, InTrans(q))
  {
    OtherList(pending, place, Pending, b, InTrans(p));
    forall q: nat ensures ListIs(TransOf(trans', q), after, InTrans(q)) {
      assert ListIs(TransOf(trans, q), place, InTrans(q));
      if q == p {
        OwnList(TransOf(trans, p), place, InTrans(p), b);
      } else {
        OtherList(TransOf(trans, q), place, InTrans(q), b, InTrans(p));
      }
    }
  }

  lemma WriteCoherent(bufs: seq<Buf>, b: nat, data: Block, disk: Disk, store: Disk, jsize: nat)
    requires |store| == |disk| && Coherent(bufs, disk, store, jsize) && Unique(bufs)
    requires b < |bufs| && bufs[b].valid && !bufs[b].dirty && bufs[b].sector < |disk|
    ensures Coherent(bufs[b := bufs[b].(data := data, dirty := true)], disk, store[bufs[b].sector := data], jsize)
  {
    var after, store' := bufs[b := bufs[b].(data := data, dirty := true)], store[bufs[b].sector := data];
    forall a | 0 <= a < |after| ensures Fresh(after[a], disk, store', jsize) {
      assert Fresh(bufs[a], disk, store, jsize);
    }
    forall x | 0 <= x < |disk| && !InJournal(x, jsize) && disk[x] != store'[x] ensures DirtyFor(after, x) {
      if x == bufs[b].sector {
        assert after[b].dirty && after[b].sector == x;
      } else {
        assert DirtyFor(bufs, x);
        var a :| 0 <= a < |bufs| && bufs[a].dirty && bufs[a].sector == x;
        assert after[a].dirty && after[a].sector == x;
      }
    }
  }

  /** A write changes the flat array at that sector only, and nothing on the disk. */
  lemma BwriteStep(s: System, p: nat, b: nat, data: Block, r: System)
    requires Inv(s) && Enabled(s, Bwrite(p, b, data)) && r == Next(s, Bwrite(p, b, data))
    ensures Inv(r) && r.disk == s.disk
    ensures s.bufs[b].sector < |s.store| && r.store == s.store[s.bufs[b].sector := data]
  {
    assert Flags(s.bufs[b], s.held[b], s.place[b], |s.disk|, s.jsize);
    UniqueOne(s.bufs, b, r.bufs[b]);
    WriteLists(s.place, s.trans, s.pending, p, b, r.place, r.trans);
    WriteCoherent(s.bufs, b, data, s.disk, s.store, s.jsize);
    LoggedOne(s.bufs, b, r.bufs[b], s.pending, s.logged);
  }

  /** Releasing a clean buffer. */
  lemma ReleaseKeeps(s: System, b: nat, r: System)
    requires Inv(s) && b < |s.bufs| && s.bufs[b].valid && !s.bufs[b].dirty && b in s.ring && r == Release(s, b)
    ensures Inv(r)
  {
    var nb := r.bufs[b];
    assert Flags(s.bufs[b], s.held[b], s.place[b], |s.disk|, s.jsize);
    ReleasedIsRing(s.ring, |s.bufs|, b);
    ReleasedInOrder(s.ring, |s.bufs|, b, s.stamp, s.now);
    UniqueOne(s.bufs, b, nb);
    assert Fresh(s.bufs[b], s.disk, s.store, s.jsize);
    CoherentOne(s.bufs, b, nb, s.disk, s.store, s.jsize);
    LoggedOne(s.bufs, b, nb, s.pending, s.logged);
  }

  /** A clean buffer is free and at the front after brelse; a dirty one stays locked for its transaction. */
  lemma BrelseStep(s: System, p: nat, b: nat, r: System)
    requires Inv(s) && Enabled(s, Brelse(p, b)) && r == Next(s, Brelse(p, b))
    ensures Inv(r) && OnlyBuf(s, b, r)
    ensures !s.bufs[b].dirty ==> r.bufs[b] == s.bufs[b].(busy := false) && r.held[b] == Nobody && r.ring[..1] == [b]
    ensures s.bufs[b].dirty ==> r.bufs == s.bufs && r.held[b] == Given && r.ring == s.ring
  {
    assert Flags(s.bufs[b], s.held[b], s.place[b], |s.disk|, s.jsize);
    assert b in s.ring;
    assert ListIs(TransOf(s.trans, p), s.place, InTrans(p));
    if !s.bufs[b].dirty { ReleaseKeeps(s, b, r); }
  }

  /** The list of a process is appended to the pending one. */
  lemma CommitLists(place: seq<Where>, trans: map<nat, seq<nat>>, pending: seq<nat>, p: nat)
    requires ListIs(pending, place, Pending) && forall q: nat :: ListIs(TransOf(trans, q), place, InTrans(q))
    ensures ListIs(pending + TransOf(trans, p), NowPending(place, p), Pending)
    ensures forall q: nat :: ListIs(TransOf(trans[p := []], q), NowPending(place, p), InTrans(q))
  {
    assert ListIs(TransOf(trans, p), place, InTrans(p));
    forall q: nat ensures ListIs(TransOf(trans[p := []], q), NowPending(place, p), InTrans(q)) {
      assert ListIs(TransOf(trans, q), place, InTrans(q));
    }
  }

  lemma ContentsConcat(bufs: seq<Buf>, a: seq<nat>, b: seq<nat>)
    requires (forall i :: 0 <= i < |a| ==> a[i] < |bufs|) && (forall i :: 0 <= i < |b| ==> b[i] < |bufs|)
    ensures (forall i :: 0 <= i < |a + b| ==> (a + b)[i] < |bufs|)
    ensures Contents(bufs, a + b) == Contents(bufs, a) + Contents(bufs, b)
  {
  }

  lemma CommitShape(s: System, p: nat, disk: Disk, r: System)
    requires Inv(s) && Enabled(s, Commit(p, disk)) && r == Next(s, Commit(p, disk))
    ensures Shape(r)
  {
    assert ListIs(TransOf(s.trans, p), s.place, InTrans(p));
    forall b | 0 <= b < |r.bufs| ensures Flags(r.bufs[b], r.held[b], r.place[b], |r.disk|, r.jsize) {
      assert Flags(s.bufs[b], s.held[b], s.place[b], |s.disk|, s.jsize);
    }
  }

  /** Journal writes keep cache and disk coherent. */
  lemma CoherentHome(bufs: seq<Buf>, disk: Disk, after: Disk, store: Disk, jsize: nat)
    requires |store| == |disk| && Coherent(bufs, disk, store, jsize) && SameHome(disk, after, jsize)
    ensures Coherent(bufs, after, store, jsize)
  {
    forall b | 0 <= b < |bufs| ensures Fresh(bufs[b], after, store, jsize) {
      assert Fresh(bufs[b], disk, store, jsize);
    }
  }

  lemma CommitStep(s: System, p: nat, disk: Disk, r: System)
    requires Inv(s) && Enabled(s, Commit(p, disk)) && r == Next(s, Commit(p, disk))
    ensures Inv(r)
  {
    CommitLists(s.place, s.trans, s.pending, p);
    CommitShape(s, p, disk, r);
    CoherentHome(s.bufs, s.disk, disk, s.store, s.jsize);
    ContentsConcat(s.bufs, s.pending, TransOf(s.trans, p));
  }

  // ---- flush --------------------------------------------------------------

  lemma WithoutList(bs: seq<nat>, place: seq<Where>, w: Where, i: nat)
    requires ListIs(bs, place, w) && i < |bs| && w != Clean
    ensures ListIs(Without(bs, i), place[bs[i] := Clean], w)
  {
    var b, rest := bs[i], Without(bs, i);
    var after := place[b := Clean];
    forall a | 0 <= a < |after| && after[a] == w ensures a in rest {
      var j :| 0 <= j < |bs| && bs[j] == a;
      assert rest[if j < i then j else j - 1] == a;
    }
  }

  lemma FlushLists(place: seq<Where>, trans: map<nat, seq<nat>>, pending: seq<nat>, i: nat)
    requires i < |pending| && ListIs(pending, place, Pending)
    requires forall q: nat :: ListIs(TransOf(trans, q), place, InTrans(q))
    ensures var after := place[pending[i] := Clean];
      ListIs(Without(pending, i), after, Pending) && forall q: nat :: ListIs(TransOf(trans, q), after, InTrans(q))
  {
    var b := pending[i];
    WithoutList(pending, place, Pending, i);
    forall q: nat ensures ListIs(TransOf(trans, q), place[b := Clean], InTrans(q)) {
      assert ListIs(TransOf(trans, q), place, InTrans(q));
      OtherList(TransOf(trans, q), place, InTrans(q), b, Clean);
    }
  }

  /** Writing a dirty buffer home. */
  lemma FlushCoherent(bufs: seq<Buf>, b: nat, disk: Disk, store: Disk, jsize: nat)
    requires |store| == |disk| && Coherent(bufs, disk, store, jsize) && Unique(bufs)
    requires b < |bufs| && bufs[b].valid && bufs[b].sector < |disk| && !InJournal(bufs[b].sector, jsize)
    ensures Coherent(bufs[b := bufs[b].(dirty := false)], disk[bufs[b].sector := bufs[b].data], store, jsize)
  {
    var after, disk' := bufs[b := bufs[b].(dirty := false)], disk[bufs[b].sector := bufs[b].data];
    assert Fresh(bufs[b], disk, store, jsize);
    forall a | 0 <= a < |after| ensures Fresh(after[a], disk', store, jsize) {
      assert Fresh(bufs[a], disk, store, jsize);
    }
    forall x | 0 <= x < |disk| && !InJournal(x, jsize) && disk'[x] != store[x] ensures DirtyFor(after, x) {
      assert DirtyFor(bufs, x);
      var a :| 0 <= a < |bufs| && bufs[a].dirty && bufs[a].sector == x;
      assert a != b && after[a].dirty;
    }
  }

  lemma FlushLogged(bufs: seq<Buf>, pending: seq<nat>, logged: Trans, i: nat, nb: Buf)
    requires i < |pending| && (forall j :: 0 <= j < |pending| ==> pending[j] < |bufs|)
      && logged == Contents(bufs, pending)
    requires forall j, k :: 0 <= j < k < |pending| ==> pending[j] != pending[k]
    ensures Without(logged, i) == Contents(bufs[pending[i] := nb], Without(pending, i))
  {
  }

  /** Pending buffer i written home and off the list, in the flusher's hands. */
  ghost function Installed(s: System, i: nat): (r: System)
    requires i < |s.pending| && i < |s.logged|
      && var b := s.pending[i]; b < |s.bufs| && b < |s.held| && b < |s.place| && s.bufs[b].sector < |s.disk|
  {
    var b := s.pending[i];
    s.(disk := s.disk[s.bufs[b].sector := s.bufs[b].data], bufs := s.bufs[b := s.bufs[b].(dirty := false)],
       place := s.place[b := Clean], held := s.held[b := By(0)], pending := Without(s.pending, i),
       logged := Without(s.logged, i))
  }

  lemma InstallKeeps(s: System, i: nat, b: nat, r: System)
    requires Inv(s) && i < |s.pending| && b == s.pending[i] && b < |s.bufs| && s.bufs[b].sector < |s.disk|
    requires i < |s.logged| && r == Installed(s, i)
    ensures Inv(r)
  {
    var nb := s.bufs[b].(dirty := false);
    assert Flags(s.bufs[b], s.held[b], s.place[b], |s.disk|, s.jsize);
    UniqueOne(s.bufs, b, nb);
    FlushLists(s.place, s.trans, s.pending, i);
    FlushCoherent(s.bufs, b, s.disk, s.store, s.jsize);
    FlushLogged(s.bufs, s.pending, s.logged, i, nb);
    InstallShape(s, i, b, r);
  }

  lemma InstallShape(s: System, i: nat, b: nat, r: System)
    requires Shape(s) && Ordered(s) && i < |s.pending| && b == s.pending[i]
    requires b < |s.bufs| && s.place[b] == Pending && s.bufs[b].sector < |s.disk|
    requires i < |s.logged| && r == Installed(s, i)
    ensures Shape(r) && Ordered(r)
  {
    forall a | 0 <= a < |r.bufs| ensures Flags(r.bufs[a], r.held[a], r.place[a], |r.disk|, r.jsize) {
      assert Flags(s.bufs[a], s.held[a], s.place[a], |s.disk|, s.jsize);
    }
  }

  /** A flushed buffer is clean, free and at the front, and on no list. */
  lemma FlushStep(s: System, i: nat, r: System)
    requires Inv(s) && Enabled(s, FlushOne(i)) && r == Next(s, FlushOne(i))
    ensures Inv(r)
    ensures var b := s.pending[i];
      && OnlyBuf(s, b, r) && r.bufs[b] == s.bufs[b].(busy := false, dirty := false) && r.held[b] == Nobody
      && r.ring[..1] == [b] && r.place[b] == Clean
  {
    var b := s.pending[i];
    assert Flags(s.bufs[b], s.held[b], s.place[b], |s.disk|, s.jsize);
    assert b in s.ring;
    InstallKeeps(s, i, b, Installed(s, i));
    ReleaseKeeps(Installed(s, i), b, r);
  }

  /** The superblock write that ends a flush. */
  lemma FlushEndStep(s: System, disk: Disk, r: System)
    requires Inv(s) && Enabled(s, FlushEnd(disk)) && r == Next(s, FlushEnd(disk))
    ensures Inv(r)
  {
    CoherentHome(s.bufs, s.disk, disk, s.store, s.jsize);
  }

  /** Flushing writes exactly what was logged, though other processes ran in between. */
  lemma FlushWritesLogged(s: System, i: nat, r: System)
    requires Inv(s) && Enabled(s, FlushOne(i)) && r == Next(s, FlushOne(i))
    ensures r.disk == Put(s.disk, s.logged[i]) && r.logged == Without(s.logged, i)
  {
    var b := s.pending[i];
    assert Flags(s.bufs[b], s.held[b], s.place[b], |s.disk|, s.jsize);
  }

  // ---- all runs -----------------------------------------------------------

  lemma StepKeepsInv(s: System, e: Event, r: System)
    requires Inv(s) && Enabled(s, e) && r == Next(s, e)
    ensures Inv(r)
  {
    match e
    case Bget(p, sector) => BgetStep(s, p, sector, r);
    case Fill(p, b) => FillStep(s, p, b, r);
    case Bwrite(p, b, data) => BwriteStep(s, p, b, data, r);
    case Brelse(p, b) => BrelseStep(s, p, b, r);
    case Commit(p, disk) => CommitStep(s, p, disk, r);
    case FlushOne(i) => FlushStep(s, i, r);
    case FlushEnd(disk) => FlushEndStep(s, disk, r);
  }

  ghost predicate IsRun(s: System, es: seq<Event>)
    requires Inv(s)
    decreases |es|
  {
    es == [] || (Enabled(s, es[0]) && (StepKeepsInv(s, es[0], Next(s, es[0])); IsRun(Next(s, es[0]), es[1..])))
  }

  ghost function After(s: System, es: seq<Event>): (r: System)
    requires Inv(s) && IsRun(s, es)
    decreases |es|
  {
    if es == [] then s else (StepKeepsInv(s, es[0], Next(s, es[0])); After(Next(s, es[0]), es[1..]))
  }

  /** The step gives buffer b up: a brelse while it is clean, or its flush. */
  ghost predicate Releases(s: System, e: Event, b: nat)
    requires Inv(s) && Enabled(s, e)
  {
    (e.Brelse? && e.b == b && !s.bufs[b].dirty) || (e.FlushOne? && s.pending[e.i] == b)
  }

  /** When a run last gave buffer b up, in steps since boot. */
  ghost function LastRelease(s: System, es: seq<Event>, b: nat, before: int): (t: int)
    requires Inv(s) && IsRun(s, es)
    decreases |es|
  {
    if es == [] then before
    else
      var t := if Releases(s, es[0], b) then s.now else before;
      StepKeepsInv(s, es[0], Next(s, es[0]));
      LastRelease(Next(s, es[0]), es[1..], b, t)
  }

  lemma StampStep(s: System, e: Event, r: System, b: nat)
    requires Inv(s) && Enabled(s, e) && r == Next(s, e) && b < |s.stamp|
    ensures |r.stamp| == |s.stamp| && r.stamp[b] == (if Releases(s, e, b) then s.now else s.stamp[b])
    ensures r.now == s.now + 1
  {
    if e.Brelse? { BrelseStep(s, e.p, e.b, r); }
  }

  /** The stamps are the times of the last releases. */
  lemma {:induction false} StampsAreReleases(s: System, es: seq<Event>, b: nat)
    requires Inv(s) && IsRun(s, es) && b < |s.stamp|
    ensures b < |After(s, es).stamp| && After(s, es).stamp[b] == LastRelease(s, es, b, s.stamp[b])
    decreases |es|
  {
    if es != [] {
      var r := Next(s, es[0]);
      StepKeepsInv(s, es[0], r);
      StampStep(s, es[0], r, b);
      StampsAreReleases(r, es[1..], b);
    }
  }

  /** The last value a run writes to sector x, or what was there before. */
  ghost function LastWritten(s: System, es: seq<Event>, x: nat, before: Block): (data: Block)
    requires Inv(s) && IsRun(s, es)
    decreases |es|
  {
    if es == [] then before
    else
      var written := if es[0].Bwrite? && s.bufs[es[0].b].sector == x then es[0].data else before;
      StepKeepsInv(s, es[0], Next(s, es[0]));
      LastWritten(Next(s, es[0]), es[1..], x, written)
  }

  lemma {:induction false} RunKeepsInv(s: System, es: seq<Event>)
    requires Inv(s) && IsRun(s, es)
    ensures Inv(After(s, es)) && After(s, es).jsize == s.jsize && |After(s, es).disk| == |s.disk|
    ensures |After(s, es).bufs| == |s.bufs|
    decreases |es|
  {
    if es != [] {
      var r := Next(s, es[0]);
      StepKeepsInv(s, es[0], r);
      RunKeepsInv(r, es[1..]);
    }
  }

  /** The flat array holds the last value written. */
  lemma {:induction false} StoreIsLastWritten(s: System, es: seq<Event>, x: nat)
    requires Inv(s) && IsRun(s, es) && x < |s.store|
    ensures x < |After(s, es).store| && After(s, es).store[x] == LastWritten(s, es, x, s.store[x])
    decreases |es|
  {
    if es != [] {
      var r := Next(s, es[0]);
      StepKeepsInv(s, es[0], r);
      StoreIsLastWritten(r, es[1..], x);
    }
  }

  /** n - 1, ..., 1, 0. */
  function Backwards(n: nat): (r: seq<nat>)
    ensures |r| == n && forall i :: 0 <= i < n ==> r[i] == n - 1 - i
  {
    if n == 0 then [] else [n - 1] + Backwards(n - 1)
  }

  lemma BackwardsIsRing(n: nat)
    ensures IsRing(Backwards(n), n)
  {
    var r := Backwards(n);
    forall b | 0 <= b < n ensures b in r { assert r[n - 1 - b] == b; }
  }

  /** binit: n empty buffers, the last one first. */
  ghost function Boot(disk: Disk, jsize: nat, n: nat, blank: Block): (s: System) {
    System(seq(n, b => Buf(false, false, false, 0, blank)), Backwards(n), disk, jsize,
           map[], [], seq(n, b => Nobody), seq(n, b => Clean), [], disk, seq(n, b => b - n), 0)
  }

  lemma BootInv(disk: Disk, jsize: nat, n: nat, blank: Block)
    ensures Inv(Boot(disk, jsize, n, blank))
  {
    BackwardsIsRing(n);
  }

  /** b was given up no later than c. */
  ghost predicate NoLater(s0: System, es: seq<Event>, b: nat, c: nat)
    requires Inv(s0) && IsRun(s0, es) && b < |s0.stamp| && c < |s0.stamp|
  {
    LastRelease(s0, es, b, s0.stamp[b]) <= LastRelease(s0, es, c, s0.stamp[c])
  }

  /** After every run, a block that is not cached gets the free buffer given up longest ago. */
  lemma RecyclesOldest(s0: System, es: seq<Event>, s: System, sector: nat, c: nat)
    requires Inv(s0) && IsRun(s0, es) && s == After(s0, es)
    requires NotCached(s.bufs, sector) && c < |s.bufs| && !s.bufs[c].busy
    ensures |s.bufs| == |s0.stamp| && IsRing(s.ring, |s.bufs|) && BgetResult(s.bufs, s.ring, sector).Got?
    ensures NoLater(s0, es, BgetResult(s.bufs, s.ring, sector).b, c)
  {
    RunKeepsInv(s0, es);
    VictimIsOldest(s.bufs, s.ring, s.stamp, sector, c);
    StampsAreReleases(s0, es, BgetResult(s.bufs, s.ring, sector).b);
    StampsAreReleases(s0, es, c);
  }

  /**
   In every run from boot: no two live buffers name the same sector; every dirty
   buffer is busy, so bget never empties one; the ring holds every buffer once, the
   last released first; every home block a process has from bread holds what was
   last written to its sector; and a block that is not cached gets the free buffer
   given up longest ago.
   */
  lemma CacheRun(disk: Disk, jsize: nat, n: nat, blank: Block, es: seq<Event>, s: System)
    requires (BootInv(disk, jsize, n, blank); IsRun(Boot(disk, jsize, n, blank), es))
    requires s == After(Boot(disk, jsize, n, blank), es)
    ensures Unique(s.bufs) && IsRing(s.ring, |s.bufs|) && InReleaseOrder(s.ring, s.stamp)
    ensures forall b :: 0 <= b < |s.bufs| && s.bufs[b].dirty ==> s.bufs[b].busy
    ensures forall p: nat, b: nat :: HasBuf(s, p, b, true) && !InJournal(s.bufs[b].sector, jsize) ==>
      var x := s.bufs[b].sector;
      x < |disk| && s.bufs[b].data == LastWritten(Boot(disk, jsize, n, blank), es, x, disk[x])
    ensures forall x: nat, c: nat :: NotCached(s.bufs, x) && c < |s.bufs| && !s.bufs[c].busy ==>
      && |s.bufs| == n && BgetResult(s.bufs, s.ring, x).Got?
      && NoLater(Boot(disk, jsize, n, blank), es, BgetResult(s.bufs, s.ring, x).b, c)
  {
    var s0 := Boot(disk, jsize, n, blank);
    BootInv(disk, jsize, n, blank);
    RunKeepsInv(s0, es);
    assert forall b :: 0 <= b < |s.bufs| ==> Flags(s.bufs[b], s.held[b], s.place[b], |s.disk|, s.jsize);
    forall p: nat, b: nat | HasBuf(s, p, b, true) && !InJournal(s.bufs[b].sector, jsize)
      ensures var x := s.bufs[b].sector; x < |disk| && s.bufs[b].data == LastWritten(s0, es, x, disk[x])
    {
      assert Fresh(s.bufs[b], s.disk, s.store, s.jsize);
      StoreIsLastWritten(s0, es, s.bufs[b].sector);
    }
    forall x: nat, c: nat | NotCached(s.bufs, x) && c < |s.bufs| && !s.bufs[c].busy
      ensures BgetResult(s.bufs, s.ring, x).Got? && NoLater(s0, es, BgetResult(s.bufs, s.ring, x).b, c)
    {
      RecyclesOldest(s0, es, s, x, c);
    }
  }
}
