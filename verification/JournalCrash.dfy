/**
 Crash safety of the journal: what recovery yields after a crash at any sector
 write of a commit, a flush or a recovery, and over whole runs.
 */
module JournalCrash {
  import opened Basics
  import opened Blocks
  import opened JournalLog

  // ---- small facts --------------------------------------------------------

  lemma {:induction false} FlatHome(txs: seq<Trans>, size: nat, n: nat)
    requires forall i :: 0 <= i < |txs| ==> Loggable(txs[i], size, n)
    ensures HomeWrites(Flat(txs), size, n)
  {
    if txs != [] {
      FlatHome(txs[1..], size, n);
      var ws := Flat(txs);
      forall i | 0 <= i < |ws|
        ensures ws[i].sector < n && ws[i].sector < TWO32 && !InJournal(ws[i].sector, size)
      {
        if i < |txs[0]| { assert ws[i] == txs[0][i]; } else { assert ws[i] == Flat(txs[1..])[i - |txs[0]|]; }
      }
    }
  }

  /** Home writes leave every journal sector alone. */
  lemma HomeWritesKeepJournal(d: Disk, ws: seq<Write>, size: nat, s: nat)
    requires HomeWrites(ws, size, |d|) && s < |d| && InJournal(s, size)
    ensures Apply(d, ws)[s] == d[s]
  {
    ApplyFrame(d, ws, s);
  }

  lemma HomeWritesKeepLog(d: Disk, ws: seq<Write>, size: nat, txs: seq<Trans>)
    requires Logged(d, size, txs) && HomeWrites(ws, size, |d|)
    ensures Logged(Apply(d, ws), size, txs)
  {
    var e := Apply(d, ws);
    forall s | 0 <= s < |d| && InJournal(s, size) ensures e[s] == d[s] {
      HomeWritesKeepJournal(d, ws, size, s);
    }
    HoldsFrame(d, e, LOG, txs);
  }

  /** Journal writes leave every home sector alone. */
  lemma JournalWritesKeepHome(d: Disk, ws: seq<Write>, size: nat)
    requires forall i :: 0 <= i < |ws| ==> InJournal(ws[i].sector, size)
    ensures SameHome(Apply(d, ws), d, size)
  {
    forall s | 0 <= s < |d| && !InJournal(s, size) ensures Apply(d, ws)[s] == d[s] {
      ApplyFrame(d, ws, s);
    }
  }

  /** The same home writes keep two disks equal at home. */
  lemma ApplySameHome(d: Disk, e: Disk, ws: seq<Write>, size: nat)
    requires SameHome(d, e, size)
    ensures SameHome(Apply(d, ws), Apply(e, ws), size)
  {
    forall s | 0 <= s < |d| && !InJournal(s, size) ensures Apply(d, ws)[s] == Apply(e, ws)[s] {
      ApplyAgree(d, e, ws, s);
    }
  }

  // ---- the meaning of a disk ----------------------------------------------

  /**
   What recovery does to a disk that carries a log: the logged transactions are
   installed at home in commit order, and the log is empty afterwards.
   */
  lemma RecoveryInstallsLog(d: Disk, size: nat, txs: seq<Trans>)
    requires Logged(d, size, txs)
    ensures SameHome(Recovered(d), Apply(d, Flat(txs)), size)
    ensures Logged(Recovered(d), size, [])
  {
    RecoverFindsLog(d, size, txs);
    if txs != [] {
      FlushInstalls(d, size, txs);
    }
  }

  /** Writing home any transactions and then emptying the superblock. */
  lemma FlushInstalls(d: Disk, size: nat, txs: seq<Trans>)
    requires LOG + size <= |d| && LOG + size < TWO32 && JSize(d[SUPER]) == size
    requires forall i :: 0 <= i < |txs| ==> Loggable(txs[i], size, |d|)
    ensures var r := Apply(d, FlushWrites(d[SUPER], txs));
      SameHome(r, Apply(d, Flat(txs)), size) && Logged(r, size, [])
  {
    FlatHome(txs, size, |d|);
    var e := Apply(d, Flat(txs));
    var last := Write(SUPER, Emptied(d[SUPER]));
    ApplyConcat(d, Flat(txs), [last]);
    assert Apply(e, [last]) == Put(Apply(e, []), last);
    HomeWritesKeepJournal(d, Flat(txs), size, SUPER);
    SuperFields(d[SUPER], 0);
  }

  // ---- crash during a commit ----------------------------------------------

  /** The journal has room for one more transaction. */
  predicate Fits(jtail: nat, tx: Trans, size: nat) {
    jtail + |tx| + 1 <= LOG + size
  }

  /** The first k sector writes of a commit stay inside the journal. */
  predicate Stays(jtail: nat, tx: Trans, k: nat, size: nat) {
    Fits(jtail, tx, size) || jtail + k <= LOG + size
  }

  lemma CommitWritesShape(sb: Block, hdr: Block, jtail: nat, tx: Trans)
    requires |tx| <= NBPT
    ensures var ws := CommitWrites(sb, hdr, jtail, tx);
      && |ws| == |tx| + 2
      && (forall i :: 0 <= i < |tx| + 1 ==> ws[i].sector == jtail + i)
      && ws[|tx| + 1] == Write(SUPER, WithTail(sb, jtail + |tx|))
  {
  }

  /** A commit that stays inside the journal changes no home block. */
  lemma CommitKeepsHome(d: Disk, hdr: Block, size: nat, jtail: nat, tx: Trans, k: nat)
    requires SUPER < |d| && |tx| <= NBPT && LOG <= jtail && Stays(jtail, tx, k, size)
    requires k <= |CommitWrites(d[SUPER], hdr, jtail, tx)|
    ensures SameHome(Apply(d, CommitWrites(d[SUPER], hdr, jtail, tx)[..k]), d, size)
  {
    CommitWritesShape(d[SUPER], hdr, jtail, tx);
    JournalWritesKeepHome(d, CommitWrites(d[SUPER], hdr, jtail, tx)[..k], size);
  }

  /** Until the superblock is written the log still says what it said before. */
  lemma CommitPrefixKeepsLog(d: Disk, hdr: Block, size: nat, txs: seq<Trans>, tx: Trans, k: nat)
    requires Logged(d, size, txs) && |tx| <= NBPT && Stays(LogEnd(LOG, txs), tx, k, size)
    requires k <= |tx| + 1
    ensures var ws := CommitWrites(d[SUPER], hdr, LogEnd(LOG, txs), tx);
      k <= |ws| && Logged(Apply(d, ws[..k]), size, txs)
  {
    var jtail := LogEnd(LOG, txs);
    var ws := CommitWrites(d[SUPER], hdr, jtail, tx);
    CommitWritesShape(d[SUPER], hdr, jtail, tx);
    var e := Apply(d, ws[..k]);
    forall s | 0 <= s < jtail ensures e[s] == d[s] {
      ApplyFrame(d, ws[..k], s);
    }
    HoldsFrame(d, e, LOG, txs);
  }

  /** DataWrites stores the blocks one after another. */
  lemma {:induction false} DataWritesLand(d: Disk, h: nat, tx: Trans, k: nat)
    requires k <= |tx| && h + |tx| < |d|
    ensures forall i :: 0 <= i < k ==> Apply(d, DataWrites(h, tx)[..k])[h + 1 + i] == tx[i].data
  {
    if k > 0 {
      var ws := DataWrites(h, tx);
      DataWritesLand(d, h, tx, k - 1);
      assert ws[..k][..k - 1] == ws[..k - 1];
      assert Apply(d, ws[..k]) == Put(Apply(d, ws[..k - 1]), ws[k - 1]);
    }
  }

  /** The header and the data blocks land where recovery will look for them. */
  lemma CommitStoresTrans(d: Disk, hb: Block, jtail: nat, tx: Trans)
    requires 0 < |tx| <= NBPT && jtail + |tx| < |d|
    requires GetWord(hb, 0) == CHECKSUM && GetWord(hb, 1) == |tx|
    requires forall i :: 0 <= i < |tx| ==> GetWord(hb, 2 + i) == tx[i].sector
    ensures HoldsTrans(Apply(d, [Write(jtail, hb)] + DataWrites(jtail, tx)), jtail, tx)
  {
    var head, data := Write(jtail, hb), DataWrites(jtail, tx);
    var d1 := Put(d, head);
    var d2 := Apply(d1, data);
    assert d2[jtail] == hb by { ApplyFrame(d1, data, jtail); }
    assert forall i :: 0 <= i < |tx| ==> d2[jtail + 1 + i] == tx[i].data by {
      assert data[..|tx|] == data;
      DataWritesLand(d1, jtail, tx, |tx|);
    }
    ApplyCons(d, head, data);
  }

  /** Writing the superblock makes the stored transaction part of the log. */
  lemma TailPublishes(d: Disk, size: nat, txs: seq<Trans>, tx: Trans, tail: nat, e: Disk)
    requires Logged(d, size, txs) && Loggable(tx, size, |d|) && Fits(LogEnd(LOG, txs), tx, size)
    requires HoldsTrans(d, LogEnd(LOG, txs), tx)
    requires tail == LogEnd(LOG, txs) + |tx| && e == d[SUPER := WithTail(d[SUPER], tail)]
    ensures Logged(e, size, txs + [tx])
  {
    HoldsAppend(d, LOG, txs, tx);
    SuperFields(d[SUPER], tail);
    HoldsFrame(d, e, LOG, txs + [tx]);
  }

  /** Just before the superblock write: the old log, and the new transaction stored behind it. */
  lemma CommitBeforeSuper(d: Disk, hdr: Block, size: nat, txs: seq<Trans>, tx: Trans, ws: seq<Write>)
    requires Logged(d, size, txs) && Loggable(tx, size, |d|) && Fits(LogEnd(LOG, txs), tx, size)
    requires ws == CommitWrites(d[SUPER], hdr, LogEnd(LOG, txs), tx)
    ensures |ws| == |tx| + 2
    ensures HoldsTrans(Apply(d, ws[..|tx| + 1]), LogEnd(LOG, txs), tx)
    ensures Apply(d, ws[..|tx| + 1])[SUPER] == d[SUPER]
    ensures ws[|tx| + 1] == Write(SUPER, WithTail(d[SUPER], LogEnd(LOG, txs) + |tx|))
  {
    var jtail, n := LogEnd(LOG, txs), |tx| + 1;
    assert ws[..n] == [Write(jtail, Header(hdr, tx))] + DataWrites(jtail, tx);
    HeaderFields(hdr, tx);
    CommitStoresTrans(d, Header(hdr, tx), jtail, tx);
    CommitWritesShape(d[SUPER], hdr, jtail, tx);
    ApplyFrame(d, ws[..n], SUPER);
  }

  /** Once the superblock is written the transaction is the last one in the log. */
  lemma CommitExtendsLog(d: Disk, hdr: Block, size: nat, txs: seq<Trans>, tx: Trans, ws: seq<Write>)
    requires Logged(d, size, txs) && Loggable(tx, size, |d|) && Fits(LogEnd(LOG, txs), tx, size)
    requires ws == CommitWrites(d[SUPER], hdr, LogEnd(LOG, txs), tx)
    ensures Logged(Apply(d, ws), size, txs + [tx])
  {
    var e := Apply(d, ws[..|tx| + 1]);
    CommitPrefixKeepsLog(d, hdr, size, txs, tx, |tx| + 1);
    CommitBeforeSuper(d, hdr, size, txs, tx, ws);
    TailPublishes(e, size, txs, tx, LogEnd(LOG, txs) + |tx|, Apply(d, ws));
  }

  /**
   Crash atomicity of end_trans: crash after its first k sector writes, then
   recover.  The home blocks hold tx as well iff the superblock write landed,
   and exactly the earlier committed state otherwise.
   */
  lemma CommitIsAtomic(d: Disk, hdr: Block, size: nat, txs: seq<Trans>, tx: Trans, k: nat)
    requires Logged(d, size, txs) && Loggable(tx, size, |d|) && Stays(LogEnd(LOG, txs), tx, k, size)
    requires k <= |CommitWrites(d[SUPER], hdr, LogEnd(LOG, txs), tx)|
    ensures var ws := CommitWrites(d[SUPER], hdr, LogEnd(LOG, txs), tx);
      var survivors := if k == |ws| then txs + [tx] else txs;
      && Logged(Apply(d, ws[..k]), size, survivors)
      && SameHome(Recovered(Apply(d, ws[..k])), Apply(d, Flat(survivors)), size)
  {
    var ws := CommitWrites(d[SUPER], hdr, LogEnd(LOG, txs), tx);
    CommitWritesShape(d[SUPER], hdr, LogEnd(LOG, txs), tx);
    var survivors := if k == |ws| then txs + [tx] else txs;
    var e := Apply(d, ws[..k]);
    if k == |ws| {
      assert ws[..k] == ws;
      CommitExtendsLog(d, hdr, size, txs, tx, ws);
    } else {
      CommitPrefixKeepsLog(d, hdr, size, txs, tx, k);
    }
    RecoveryInstallsLog(e, size, survivors);
    CommitKeepsHome(d, hdr, size, LogEnd(LOG, txs), tx, k);
    ApplySameHome(e, d, Flat(survivors), size);
  }

  // ---- crash during a flush or a recovery ---------------------------------

  /** Installing everything that is logged, up to a point before the superblock. */
  lemma FlushPart(d: Disk, size: nat, txs: seq<Trans>, k: nat, e: Disk)
    requires Logged(d, size, txs) && txs != [] && k <= |Flat(txs)| && e == Apply(d, Flat(txs)[..k])
    ensures Logged(e, size, txs) && SameHome(Recovered(e), Apply(d, Flat(txs)), size)
  {
    FlatHome(txs, size, |d|);
    HomeWritesKeepLog(d, Flat(txs)[..k], size, txs);
    RecoveryInstallsLog(e, size, txs);
    RedoAbsorbsPrefix(d, Flat(txs), k);
  }

  /** Installing everything that is logged, interrupted after k sector writes. */
  lemma FlushPrefix(d: Disk, size: nat, txs: seq<Trans>, k: nat)
    requires Logged(d, size, txs) && txs != []
    requires k <= |FlushWrites(d[SUPER], txs)|
    ensures var ws := FlushWrites(d[SUPER], txs);
      var e := Apply(d, ws[..k]);
      && Logged(e, size, if k == |ws| then [] else txs)
      && SameHome(Recovered(e), Apply(d, Flat(txs)), size)
  {
    var ws := FlushWrites(d[SUPER], txs);
    var e := Apply(d, ws[..k]);
    if k == |ws| {
      assert ws[..k] == ws;
      FlushInstalls(d, size, txs);
      RecoverFindsLog(e, size, []);
    } else {
      assert ws[..k] == Flat(txs)[..k];
      FlushPart(d, size, txs, k, e);
    }
  }

  /**
   Crash atomicity of jfull_flush with exactly one unflushed transaction:
   wherever it stops, recovery yields the state with the transaction installed.
   */
  lemma FlushIsAtomic(d: Disk, size: nat, tx: Trans, k: nat)
    requires Logged(d, size, [tx]) && k <= |FlushWrites(d[SUPER], [tx])|
    ensures SameHome(Recovered(Apply(d, FlushWrites(d[SUPER], [tx])[..k])), Apply(d, tx), size)
  {
    FlushPrefix(d, size, [tx], k);
    assert Flat([tx]) == tx + Flat([tx][1..]) == tx;
  }

  /** A recovery that is cut short after each of the given numbers of sector writes, again and again. */
  function Interrupted(d: Disk, cuts: seq<nat>): (r: Disk)
    requires SUPER < |d|
    ensures |r| == |d|
    decreases |cuts|
  {
    if cuts == [] then d
    else
      var ws := RecoverWrites(d);
      var k := if cuts[0] < |ws| then cuts[0] else |ws|;
      Interrupted(Apply(d, ws[..k]), cuts[1..])
  }

  /**
   Replay is idempotent: however often recovery is interrupted and restarted,
   the recovery that completes leaves the logged transactions applied in order.
   */
  lemma {:induction false} RecoveryIsIdempotent(d: Disk, size: nat, txs: seq<Trans>, cuts: seq<nat>)
    requires Logged(d, size, txs)
    ensures SameHome(Recovered(Interrupted(d, cuts)), Apply(d, Flat(txs)), size)
    ensures Logged(Recovered(Interrupted(d, cuts)), size, [])
    decreases |cuts|
  {
    RecoverFindsLog(d, size, txs);
    if cuts == [] {
      RecoveryInstallsLog(d, size, txs);
    } else {
      var ws := RecoverWrites(d);
      var k := if cuts[0] < |ws| then cuts[0] else |ws|;
      var e := Apply(d, ws[..k]);
      if txs == [] {
        RecoveryIsIdempotent(e, size, [], cuts[1..]);
      } else {
        FlushPrefix(d, size, txs, k);
        var rest := if k == |ws| then [] else txs;
        RecoveryInstallsLog(e, size, rest);
        RecoveryIsIdempotent(e, size, rest, cuts[1..]);
      }
    }
  }
}
