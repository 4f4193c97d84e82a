/**
 The on-disk format of the write-ahead journal, and what recovery makes of it.

 A disk is a sequence of sectors.  Every operation of the journal is given as
 the list of single-sector writes it issues; a crash after any sector write is
 a prefix of that list.
 */
module JournalLog {
  import opened Basics
  import opened Blocks

  const NBPT := 20         // most data blocks in one transaction
  const SUPER := 2         // sector of the journal superblock
  const LOG := 3           // first sector of the log
  const CHECKSUM := 106    // 'j'

  datatype Write = Write(sector: nat, data: Block)

  /** A transaction: home sectors and their new contents, in `bufs` list order. */
  type Trans = seq<Write>
  type Disk = seq<Block>

  // ---- sector writes ------------------------------------------------------

  function Put(d: Disk, w: Write): (r: Disk)
    ensures |r| == |d|
  {
    if w.sector < |d| then d[w.sector := w.data] else d
  }

  function Apply(d: Disk, ws: seq<Write>): (r: Disk)
    ensures |r| == |d|
  {
    if ws == [] then d else Put(Apply(d, ws[..|ws| - 1]), ws[|ws| - 1])
  }

  ghost predicate Touches(ws: seq<Write>, s: nat) {
    exists i :: 0 <= i < |ws| && ws[i].sector == s
  }

  lemma {:induction false} ApplyConcat(d: Disk, a: seq<Write>, b: seq<Write>)
    ensures Apply(d, a + b) == Apply(Apply(d, a), b)
  {
    if b == [] {
      assert a + b == a;
    } else {
      ApplyConcat(d, a, b[..|b| - 1]);
      assert (a + b)[..|a + b| - 1] == a + b[..|b| - 1];
    }
  }

  /** The first write of a list comes first. */
  lemma ApplyCons(d: Disk, w: Write, ws: seq<Write>)
    ensures Apply(d, [w] + ws) == Apply(Put(d, w), ws)
  {
    ApplyConcat(d, [w], ws);
    ApplyOne(d, w);
  }

  lemma ApplyOne(d: Disk, w: Write)
    ensures Apply(d, [w]) == Put(d, w)
  {
    assert [w][..0] == [];
  }

  /** A sector no write names keeps its contents. */
  lemma {:induction false} ApplyFrame(d: Disk, ws: seq<Write>, s: nat)
    requires s < |d| && !Touches(ws, s)
    ensures Apply(d, ws)[s] == d[s]
  {
    if ws != [] {
      var init := ws[..|ws| - 1];
      forall i | 0 <= i < |init| ensures init[i].sector != s { assert ws[i].sector != s; }
      ApplyFrame(d, init, s);
      assert ws[|ws| - 1].sector != s;
    }
  }

  /** What a sector holds after ws depends on the old disk only where ws does not write. */
  lemma {:induction false} ApplyAgree(d: Disk, e: Disk, ws: seq<Write>, s: nat)
    requires |d| == |e| && s < |d|
    requires d[s] == e[s] || Touches(ws, s)
    ensures Apply(d, ws)[s] == Apply(e, ws)[s]
  {
    if ws != [] {
      var init := ws[..|ws| - 1];
      if ws[|ws| - 1].sector != s {
        assert Touches(ws, s) ==> Touches(init, s) by {
          if Touches(ws, s) {
            var i :| 0 <= i < |ws| && ws[i].sector == s;
            assert init[i].sector == s;
          }
        }
        ApplyAgree(d, e, init, s);
      }
    }
  }

  /** Redo: replaying all of ws over a disk that already took any prefix of ws. */
  lemma RedoAbsorbsPrefix(d: Disk, ws: seq<Write>, k: nat)
    requires k <= |ws|
    ensures Apply(Apply(d, ws[..k]), ws) == Apply(d, ws)
  {
    var e := Apply(d, ws[..k]);
    forall s | 0 <= s < |d|
      ensures Apply(e, ws)[s] == Apply(d, ws)[s]
    {
      if Touches(ws[..k], s) {
        var i :| 0 <= i < k && ws[..k][i].sector == s;
        assert ws[i].sector == s;
      } else {
        ApplyFrame(d, ws[..k], s);
      }
      ApplyAgree(e, d, ws, s);
    }
  }

  // ---- the format ---------------------------------------------------------

  function JSize(sb: Block): nat { GetWord(sb, 0) }
  function JHead(sb: Block): nat { GetWord(sb, 1) }
  function JTail(sb: Block): nat { GetWord(sb, 2) }

  /** The superblock end_trans writes: a new tail, the rest of it kept. */
  function WithTail(sb: Block, tail: nat): (r: Block) {
    PutWord(PutWord(sb, 2, tail), 3, 0)
  }

  /** The superblock jfull_flush writes: an empty log. */
  function Emptied(sb: Block): (r: Block) {
    PutWord(PutWord(PutWord(sb, 1, LOG), 2, LOG), 3, 0)
  }

  lemma SuperFields(sb: Block, tail: nat)
    requires tail < TWO32
    ensures JSize(WithTail(sb, tail)) == JSize(sb) == JSize(Emptied(sb))
    ensures JHead(WithTail(sb, tail)) == JHead(sb)
    ensures JTail(WithTail(sb, tail)) == tail
    ensures JHead(Emptied(sb)) == JTail(Emptied(sb)) == LOG
  {
    PutGet(sb, 2, tail);
    PutGet(PutWord(sb, 2, tail), 3, 0);
    PutGet(sb, 1, LOG);
    PutGet(PutWord(sb, 1, LOG), 2, LOG);
    PutGet(PutWord(PutWord(sb, 1, LOG), 2, LOG), 3, 0);
  }

  /** The header buffer after the first k entries of the block list are filled in. */
  function HeaderUpTo(hdr: Block, tx: Trans, k: nat): (r: Block)
    requires k <= |tx| && k <= NBPT
  {
    if k == 0 then PutWord(PutWord(hdr, 0, CHECKSUM), 1, |tx|)
    else PutWord(HeaderUpTo(hdr, tx, k - 1), 2 + (k - 1), tx[k - 1].sector)
  }

  function Header(hdr: Block, tx: Trans): (r: Block)
    requires |tx| <= NBPT
  {
    HeaderUpTo(hdr, tx, |tx|)
  }

  /** Word j of the header, once k entries are filled in. */
  lemma {:induction false} HeaderWord(hdr: Block, tx: Trans, k: nat, j: nat)
    requires k <= |tx| <= NBPT && j < 2 + k && (2 <= j ==> tx[j - 2].sector < TWO32)
    ensures GetWord(HeaderUpTo(hdr, tx, k), j) == if j == 0 then CHECKSUM else if j == 1 then |tx| else tx[j - 2].sector
  {
    if k == 0 {
      PutGet(hdr, 0, CHECKSUM);
      PutGet(PutWord(hdr, 0, CHECKSUM), 1, |tx|);
    } else {
      var h := HeaderUpTo(hdr, tx, k - 1);
      PutGet(h, 2 + (k - 1), tx[k - 1].sector);
      if j < 2 + (k - 1) {
        HeaderWord(hdr, tx, k - 1, j);
        assert GetWord(PutWord(h, 2 + (k - 1), tx[k - 1].sector), j) == GetWord(h, j);
      }
    }
  }

  lemma HeaderFields(hdr: Block, tx: Trans)
    requires |tx| <= NBPT && forall i :: 0 <= i < |tx| ==> tx[i].sector < TWO32
    ensures GetWord(Header(hdr, tx), 0) == CHECKSUM
    ensures GetWord(Header(hdr, tx), 1) == |tx|
    ensures forall i :: 0 <= i < |tx| ==> GetWord(Header(hdr, tx), 2 + i) == tx[i].sector
  {
    HeaderWord(hdr, tx, |tx|, 0);
    HeaderWord(hdr, tx, |tx|, 1);
    forall i | 0 <= i < |tx| ensures GetWord(Header(hdr, tx), 2 + i) == tx[i].sector {
      HeaderWord(hdr, tx, |tx|, 2 + i);
    }
  }

  // ---- recovery -----------------------------------------------------------

  datatype Log =
    | Parsed(txs: seq<Trans>)
    | BadChecksum              // recovery stops and installs nothing
    | OutOfBounds              // a header that leads outside the journal or its block list

  /** One logged transaction: a header at sector h and n data sectors after it. */
  function ReadTrans(d: Disk, h: nat, n: nat): (tx: Trans)
    requires n <= NBPT && h + n < |d|
    ensures |tx| == n
  {
    seq(n, i requires 0 <= i < n => Write(GetWord(d[h], 2 + i), d[h + 1 + i]))
  }

  /** The parsing loop: a transaction header at h, the log in use up to tail, the journal up to end. */
  function ParseLog(d: Disk, h: nat, tail: nat, end: nat): (r: Log)
    requires end <= |d|
    decreases if h < tail then tail - h else 0
  {
    if tail <= h then Parsed([])
    else if end <= h then OutOfBounds
    else
      var n := GetWord(d[h], 1);
      var m := if n == 0 then 1 else n;   // the first data block is always taken
      if NBPT < m || end <= h + m then OutOfBounds
      else if GetWord(d[h], 0) != CHECKSUM then BadChecksum
      else
        match ParseLog(d, h + n + 1, tail, end)
        case Parsed(rest) => Parsed([ReadTrans(d, h, m)] + rest)
        case bad => bad
  }

  function RecoverLog(d: Disk): (r: Log)
    requires SUPER < |d|
  {
    var sb := d[SUPER];
    if JTail(sb) <= JHead(sb) then Parsed([])
    else if JHead(sb) < LOG || |d| < LOG + JSize(sb) then OutOfBounds
    else ParseLog(d, JHead(sb), JTail(sb), LOG + JSize(sb))
  }

  /** All home writes of a list of transactions, in order. */
  function Flat(txs: seq<Trans>): (ws: seq<Write>) {
    if txs == [] then [] else txs[0] + Flat(txs[1..])
  }

  lemma {:induction false} FlatAppend(txs: seq<Trans>, tx: Trans)
    ensures Flat(txs + [tx]) == Flat(txs) + tx
  {
    if txs == [] {
      assert txs + [tx] == [tx];
      assert Flat([tx]) == tx + Flat([]) == tx;
    } else {
      FlatAppend(txs[1..], tx);
      assert (txs + [tx])[1..] == txs[1..] + [tx];
      assert txs[0] + (Flat(txs[1..]) + tx) == (txs[0] + Flat(txs[1..])) + tx;
    }
  }

  // ---- the sector writes of each operation --------------------------------

  /** The log copies of tx's data blocks, in the sectors after the header at h. */
  function DataWrites(h: nat, tx: Trans): (ws: seq<Write>)
    ensures |ws| == |tx|
  {
    seq(|tx|, i requires 0 <= i < |tx| => Write(h + 1 + i, tx[i].data))
  }

  /** end_trans: header, data blocks, then the superblock. */
  function CommitWrites(sb: Block, hdr: Block, jtail: nat, tx: Trans): (ws: seq<Write>)
    requires |tx| <= NBPT
  {
    [Write(jtail, Header(hdr, tx))] + DataWrites(jtail, tx)
      + [Write(SUPER, WithTail(sb, jtail + |tx|))]
  }

  /** jfull_flush: the home blocks, then the superblock. */
  function FlushWrites(sb: Block, txs: seq<Trans>): (ws: seq<Write>) {
    Flat(txs) + [Write(SUPER, Emptied(sb))]
  }

  function RecoverWrites(d: Disk): (ws: seq<Write>)
    requires SUPER < |d|
  {
    match RecoverLog(d)
    case Parsed(txs) => if txs == [] then [] else FlushWrites(d[SUPER], txs)
    case _ => []
  }

  function Recovered(d: Disk): (r: Disk)
    requires SUPER < |d|
    ensures |r| == |d|
  {
    Apply(d, RecoverWrites(d))
  }

  // ---- the journal invariant ----------------------------------------------

  /** s is a sector of the journal (superblock included). */
  predicate InJournal(s: nat, size: nat) {
    SUPER <= s < LOG + size
  }

  ghost predicate SameHome(d: Disk, e: Disk, size: nat) {
    && |d| == |e|
    && forall s :: 0 <= s < |d| && !InJournal(s, size) ==> d[s] == e[s]
  }

  /** Home writes stay off the journal and on the disk. */
  predicate HomeWrites(ws: seq<Write>, size: nat, n: nat) {
    forall i :: 0 <= i < |ws| ==> ws[i].sector < n && ws[i].sector < TWO32 && !InJournal(ws[i].sector, size)
  }

  /** A transaction end_trans can log. */
  predicate Loggable(tx: Trans, size: nat, n: nat) {
    0 < |tx| <= NBPT && HomeWrites(tx, size, n)
  }

  predicate HoldsTrans(d: Disk, h: nat, tx: Trans) {
    && 0 < |tx| <= NBPT && h + |tx| < |d|
    && GetWord(d[h], 0) == CHECKSUM && GetWord(d[h], 1) == |tx|
    && (forall i :: 0 <= i < |tx| ==> GetWord(d[h], 2 + i) == tx[i].sector)
    && (forall i :: 0 <= i < |tx| ==> d[h + 1 + i] == tx[i].data)
  }

  /** The sectors from h on hold txs, one transaction after another. */
  predicate Holds(d: Disk, h: nat, txs: seq<Trans>)
    decreases |txs|
  {
    txs == [] || (HoldsTrans(d, h, txs[0]) && Holds(d, h + |txs[0]| + 1, txs[1..]))
  }

  /** The sector after the last one used by txs. */
  function LogEnd(h: nat, txs: seq<Trans>): (e: nat)
    ensures h <= e
    ensures txs != [] ==> h < e
    decreases |txs|
  {
    if txs == [] then h else LogEnd(h + |txs[0]| + 1, txs[1..])
  }

  /** The disk carries a journal of the given size in which exactly txs are logged. */
  ghost predicate Logged(d: Disk, size: nat, txs: seq<Trans>) {
    && LOG + size <= |d| && LOG + size < TWO32
    && JSize(d[SUPER]) == size
    && JHead(d[SUPER]) == LOG
    && JTail(d[SUPER]) == (if txs == [] then LOG else LogEnd(LOG, txs) - 1)
    && Holds(d, LOG, txs)
    && LogEnd(LOG, txs) <= LOG + size
    && (forall i :: 0 <= i < |txs| ==> Loggable(txs[i], size, |d|))
  }

  lemma {:induction false} HoldsFrame(d: Disk, e: Disk, h: nat, txs: seq<Trans>)
    requires |d| == |e| && Holds(d, h, txs)
    requires forall s :: h <= s < LogEnd(h, txs) && s < |d| ==> d[s] == e[s]
    ensures Holds(e, h, txs)
    decreases |txs|
  {
    if txs != [] {
      HoldsFrame(d, e, h + |txs[0]| + 1, txs[1..]);
      assert HoldsTrans(e, h, txs[0]);
    }
  }

  lemma {:induction false} HoldsAppend(d: Disk, h: nat, txs: seq<Trans>, tx: Trans)
    requires Holds(d, h, txs) && HoldsTrans(d, LogEnd(h, txs), tx)
    ensures Holds(d, h, txs + [tx])
    ensures LogEnd(h, txs + [tx]) == LogEnd(h, txs) + |tx| + 1
    decreases |txs|
  {
    if txs == [] {
      assert txs + [tx] == [tx];
      assert [tx][1..] == [];
    } else {
      HoldsAppend(d, h + |txs[0]| + 1, txs[1..], tx);
      assert (txs + [tx])[1..] == txs[1..] + [tx];
    }
  }

  /** Round trip: parsing a log that holds txs gives back txs, sectors, data and order. */
  lemma {:induction false} ParseRoundTrip(d: Disk, h: nat, txs: seq<Trans>, tail: nat, end: nat)
    requires Holds(d, h, txs) && LogEnd(h, txs) <= end <= |d|
    requires tail + 1 == LogEnd(h, txs)
    ensures ParseLog(d, h, tail, end) == Parsed(txs)
    decreases |txs|
  {
    if txs != [] {
      var tx := txs[0];
      assert LogEnd(h, txs) == LogEnd(h + |tx| + 1, txs[1..]);
      ParseRoundTrip(d, h + |tx| + 1, txs[1..], tail, end);
      assert ReadTrans(d, h, |tx|) == tx;
      assert [tx] + txs[1..] == txs;
    }
  }

  lemma RecoverFindsLog(d: Disk, size: nat, txs: seq<Trans>)
    requires Logged(d, size, txs)
    ensures RecoverLog(d) == Parsed(txs)
  {
    if txs != [] {
      assert LOG < JTail(d[SUPER]) by { assert LogEnd(LOG, txs) == LogEnd(LOG + |txs[0]| + 1, txs[1..]); }
      ParseRoundTrip(d, LOG, txs, JTail(d[SUPER]), LOG + size);
    }
  }
}
