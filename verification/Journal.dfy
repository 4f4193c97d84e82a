/**
 The journal code of the buffer cache: end_trans, jbwrite, jfull_flush and
 pbjFSck, as updates of the disk, the journal's globals and the linked list of
 unflushed transactions.  `issued` records every sector write in order, so the
 disk after a crash is `Apply` of a prefix of what a method issued.
 */
module Journal {
  import opened Basics
  import opened Blocks
  import opened JournalLog
  import opened JournalCrash
  import opened JournalRuns

  /** A node of the list of unflushed transactions. */
  class TransNode {
    var trans: Trans
    var next: TransNode?

    constructor (trans: Trans)
      ensures this.trans == trans && next == null
    {
      this.trans := trans;
      next := null;
    }
  }

  lemma ApplySnoc(d: Disk, ws: seq<Write>, w: Write)
    ensures Apply(d, ws + [w]) == Put(Apply(d, ws), w)
  {
    assert (ws + [w])[..|ws + [w]| - 1] == ws;
  }

  /** One more write of a list. */
  lemma ApplyTake(d: Disk, ws: seq<Write>, n: nat)
    requires n < |ws|
    ensures Apply(d, ws[..n + 1]) == Put(Apply(d, ws[..n]), ws[n])
    ensures ws[..n + 1] == ws[..n] + [ws[n]]
  {
    assert ws[..n + 1] == ws[..n] + [ws[n]];
    ApplySnoc(d, ws[..n], ws[n]);
  }

  /** Header and data writes are the beginning of a commit, which lacks only the superblock's. */
  lemma CommitBegins(sb: Block, hdr: Block, jtail: nat, ct: Trans, ws: seq<Write>)
    requires |ct| <= NBPT && ws <= [Write(jtail, Header(hdr, ct))] + DataWrites(jtail, ct)
    ensures ws <= CommitWrites(sb, hdr, jtail, ct)
    ensures |ws| == |ct| + 1 ==> ws + [Write(SUPER, WithTail(sb, jtail + |ct|))] == CommitWrites(sb, hdr, jtail, ct)
  {
  }

  lemma CommitPart(sb: Block, hdr: Block, jtail: nat, ct: Trans, ws: seq<Write>)
    requires |ct| <= NBPT && ws <= CommitWrites(sb, hdr, jtail, ct)
    ensures ws == CommitWrites(sb, hdr, jtail, ct)[..|ws|]
    ensures |ws| == |ct| + 2 ==> ws == CommitWrites(sb, hdr, jtail, ct)
  {
  }

  /** One more transaction of a list. */
  lemma FlatTake(d: Disk, issued: seq<Write>, txs: seq<Trans>, n: nat)
    requires n < |txs|
    ensures issued + Flat(txs[..n + 1]) == issued + Flat(txs[..n]) + txs[n]
    ensures Apply(d, Flat(txs[..n + 1])) == Apply(Apply(d, Flat(txs[..n])), txs[n])
  {
    assert txs[..n + 1] == txs[..n] + [txs[n]];
    FlatAppend(txs[..n], txs[n]);
    ApplyConcat(d, Flat(txs[..n]), txs[n]);
  }

  /** Node i carries the i-th transaction and leads to the next node, the last one nowhere. */
  ghost predicate NodeAt(nodes: seq<TransNode>, list: seq<Trans>, i: nat)
    requires i < |nodes| == |list|
    reads nodes
  {
    nodes[i].trans == list[i] && nodes[i].next == if i + 1 < |nodes| then nodes[i + 1] else null
  }

  ghost predicate Differ(nodes: seq<TransNode>, i: nat, j: nat)
    requires i < |nodes| && j < |nodes|
  {
    nodes[i] != nodes[j]
  }

  /** The nodes are linked in order, are all different, and carry the list. */
  ghost predicate Chain(nodes: seq<TransNode>, list: seq<Trans>)
    reads nodes
  {
    && |list| == |nodes|
    && (forall i :: 0 <= i < |nodes| ==> NodeAt(nodes, list, i))
    && (forall i, j :: 0 <= i < j < |nodes| ==> Differ(nodes, i, j))
  }

  lemma ChainDrop(nodes: seq<TransNode>, list: seq<Trans>, n: nat)
    requires Chain(nodes, list) && n <= |nodes|
    ensures Chain(nodes[n..], list[n..])
  {
    var rest := nodes[n..];
    forall i | 0 <= i < |rest| ensures NodeAt(rest, list[n..], i) { assert NodeAt(nodes, list, n + i); }
    forall i, j | 0 <= i < j < |rest| ensures Differ(rest, i, j) { assert Differ(nodes, n + i, n + j); }
  }

  /** Where the tail pointer stands: in the list, at a node that leads to the head, or at one that leads elsewhere. */
  ghost predicate TailStands(nodes: seq<TransNode>, tailAt: int, head: TransNode?, tail: TransNode?)
    reads tail
  {
    && LOST <= tailAt < |nodes|
    && (if tailAt >= 0 then tail == nodes[tailAt]
        else if tailAt == BEHIND then tail !in nodes && (if tail == null then head == null else tail.next == head)
        else tail != null && tail !in nodes)
  }

  /** The linked list from head on is nodes, carrying the list of m, and the tail pointer stands where m says. */
  ghost predicate Represents(nodes: seq<TransNode>, m: Mtn, head: TransNode?, tail: TransNode?)
    reads nodes, tail
  {
    && Chain(nodes, m.list) && head == (if nodes == [] then null else nodes[0])
    && TailStands(nodes, m.tailAt, head, tail)
  }

  /** As NodeAt, but nothing is said of where node x leads. */
  ghost predicate NodeAtBut(nodes: seq<TransNode>, list: seq<Trans>, i: nat, x: TransNode)
    requires i < |nodes| == |list|
    reads nodes
  {
    nodes[i].trans == list[i] && (nodes[i] != x ==> nodes[i].next == if i + 1 < |nodes| then nodes[i + 1] else null)
  }

  ghost predicate ChainBut(nodes: seq<TransNode>, list: seq<Trans>, x: TransNode)
    reads nodes
  {
    && |list| == |nodes|
    && (forall i :: 0 <= i < |nodes| ==> NodeAtBut(nodes, list, i, x))
    && (forall i, j :: 0 <= i < j < |nodes| ==> Differ(nodes, i, j))
  }

  /** With the tail in the list, setting its next drops what followed it. */
  lemma LinkInList(nodes: seq<TransNode>, list: seq<Trans>, k: nat, tail: TransNode, node: TransNode)
    requires ChainBut(nodes, list, tail) && k < |nodes| && nodes[k] == tail
    requires node !in nodes && node.next == null && tail.next == node
    ensures Chain(nodes[..k + 1] + [node], list[..k + 1] + [node.trans])
  {
    var all, txs := nodes[..k + 1] + [node], list[..k + 1] + [node.trans];
    forall i | 0 <= i < |all| ensures NodeAt(all, txs, i) {
      if i <= k { assert NodeAtBut(nodes, list, i, tail); }
      if i < k { assert Differ(nodes, i, k); }
    }
    forall i, j | 0 <= i < j < |all| ensures Differ(all, i, j) {
      if j <= k { assert Differ(nodes, i, j); }
    }
  }

  /** With the tail outside the list, setting its next leaves the list alone. */
  lemma LinkOutside(nodes: seq<TransNode>, list: seq<Trans>, tail: TransNode)
    requires ChainBut(nodes, list, tail) && tail !in nodes
    ensures Chain(nodes, list)
  {
    forall i | 0 <= i < |nodes| ensures NodeAt(nodes, list, i) { assert NodeAtBut(nodes, list, i, tail); }
  }

  /** Walking from head one meets the nodes, carrying txs, and then stop, for the first time. */
  ghost predicate Walk(nodes: seq<TransNode>, txs: seq<Trans>, head: TransNode?, stop: TransNode?)
    reads nodes
  {
    && |txs| == |nodes| && head == (if nodes == [] then stop else nodes[0])
    && forall i :: 0 <= i < |nodes| ==> WalkAt(nodes, txs, stop, i)
  }

  ghost predicate WalkAt(nodes: seq<TransNode>, txs: seq<Trans>, stop: TransNode?, i: nat)
    requires i < |nodes| == |txs|
    reads nodes
  {
    nodes[i] != stop && nodes[i].trans == txs[i] && nodes[i].next == if i + 1 < |nodes| then nodes[i + 1] else stop
  }

  lemma RepresentsWalk(nodes: seq<TransNode>, m: Mtn, head: TransNode?, tail: TransNode?)
    requires Represents(nodes, m, head, tail) && head != null && m.tailAt != LOST
    ensures tail != null && Walk(nodes[..m.tailAt + 1], FlushSet(m), head, tail.next)
  {
    var k := m.tailAt;
    var some := nodes[..k + 1];
    if k >= 0 { assert NodeAt(nodes, m.list, k); }
    forall i | 0 <= i < |some| ensures WalkAt(some, FlushSet(m), tail.next, i) {
      assert NodeAt(nodes, m.list, i);
      if k + 1 < |nodes| { assert Differ(nodes, i, k + 1); }
    }
  }

  /** Once the nodes up to the tail are flushed, what follows the tail is the list. */
  lemma DropRepresents(nodes: seq<TransNode>, m: Mtn, head: TransNode?, tail: TransNode?)
    requires Represents(nodes, m, head, tail) && head != null && m.tailAt != LOST
    ensures tail != null && Represents(nodes[m.tailAt + 1..], AfterFlush(m), tail.next, tail)
  {
    var k := m.tailAt;
    if k == BEHIND {
      assert nodes[0..] == nodes && m.list[0..] == m.list;
    } else {
      assert NodeAt(nodes, m.list, k);
      ChainDrop(nodes, m.list, k + 1);
      forall i | k < i < |nodes| ensures nodes[i] != tail { assert Differ(nodes, k, i); }
    }
  }

  /** The log of d, given that txs are read and the header of the next transaction is at h. */
  ghost predicate ParsedSoFar(d: Disk, txs: seq<Trans>, h: nat)
    requires SUPER < |d| && LOG + JSize(d[SUPER]) <= |d|
  {
    match ParseLog(d, h, JTail(d[SUPER]), LOG + JSize(d[SUPER]))
    case Parsed(rest) => RecoverLog(d) == Parsed(txs + rest)
    case bad => RecoverLog(d) == bad
  }

  /** One turn of the parsing loop. */
  lemma ParseStep(d: Disk, txs: seq<Trans>, h: nat)
    requires SUPER < |d| && LOG + JSize(d[SUPER]) <= |d|
    requires ParsedSoFar(d, txs, h) && h < JTail(d[SUPER]) && RecoverLog(d) != OutOfBounds
    ensures h + 1 < |d| && GetWord(d[h], 1) <= NBPT && h + GetWord(d[h], 1) < |d|
    ensures GetWord(d[h], 0) != CHECKSUM ==> RecoverLog(d) == BadChecksum
    ensures GetWord(d[h], 0) == CHECKSUM ==>
      var n := GetWord(d[h], 1);
      ParsedSoFar(d, txs + [ReadTrans(d, h, if n == 0 then 1 else n)], h + n + 1)
  {
    var n := GetWord(d[h], 1);
    var rest := ParseLog(d, h + n + 1, JTail(d[SUPER]), LOG + JSize(d[SUPER]));
    if rest.Parsed? && NBPT >= n && h + n < |d| && h + 1 < |d| {
      var tx := ReadTrans(d, h, if n == 0 then 1 else n);
      assert txs + ([tx] + rest.txs) == (txs + [tx]) + rest.txs;
    }
  }

  class Journal {
    var disk: Disk
    var sb: Block               // jsb, the superblock in memory
    var hdr: Block              // jt, the header buffer
    var jtail: nat              // jtail_bnum
    var mtnHead: TransNode?
    var mtnTail: TransNode?
    ghost var issued: seq<Write>
    ghost var nodes: seq<TransNode>   // the list from mtnHead on
    ghost var mtn: Mtn                // what it means

    /** The linked list is the list mtn. */
    ghost predicate Listed()
      reads this, nodes, mtnTail
    {
      Represents(nodes, mtn, mtnHead, mtnTail)
    }

    /** The journal as a state of its runs. */
    ghost function Abs(): (s: System)
      reads this
    {
      Up(disk, jtail, hdr, mtn)
    }

    ghost predicate Valid()
      reads this
    {
      && LOG < |disk| && disk[SUPER] == sb
      && LOG + JSize(sb) <= |disk| && LOG + JSize(sb) < TWO32
    }

    /** Power on: the globals have their initial values. */
    constructor (disk: Disk)
      requires LOG < |disk|
      requires LOG + JSize(disk[SUPER]) <= |disk| && LOG + JSize(disk[SUPER]) < TWO32
      ensures Valid() && this.disk == disk && jtail == LOG
      ensures mtnHead == null && mtnTail == null && issued == [] && Listed() && mtn == Mtn([], BEHIND)
    {
      this.disk := disk;
      sb := disk[SUPER];
      hdr := ZeroBlock();
      jtail := LOG;
      mtnHead, mtnTail := null, null;
      issued := [];
      nodes, mtn := [], Mtn([], BEHIND);
    }

    /** ide_rw on a dirty buffer: one sector write. */
    method WriteSector(sector: nat, data: Block)
      modifies `disk, `issued
      ensures disk == Put(old(disk), Write(sector, data))
      ensures issued == old(issued) + [Write(sector, data)]
    {
      if sector < |disk| {
        disk := disk[sector := data];
      }
      issued := issued + [Write(sector, data)];
    }

    /**
     jbwrite: the next sector of the log.  After the journal's last sector it calls
     jfull_flush, which returns at once if nothing is pending, and otherwise waits
     for good for the lock that end_trans holds.
     */
    method JbWrite(data: Block) returns (hangs: bool)
      requires Valid() && LOG <= jtail < LOG + JSize(sb)
      modifies `disk, `jtail, `issued
      ensures Valid() && jtail == old(jtail) + 1
      ensures disk == Put(old(disk), Write(old(jtail), data))
      ensures issued == old(issued) + [Write(old(jtail), data)]
      ensures hangs <==> mtnHead != null && jtail == LOG + JSize(sb)
    {
      WriteSector(jtail, data);
      jtail := jtail + 1;
      hangs := jtail > JSize(sb) + 2 && mtnHead != null;
    }

    /** end_trans, first loop: the header of ct in the header buffer. */
    method FillHeader(ct: Trans)
      requires |ct| <= NBPT
      modifies `hdr
      ensures hdr == Header(old(hdr), ct)
    {
      ghost var hdr0 := hdr;
      hdr := PutWord(PutWord(hdr, 0, CHECKSUM), 1, |ct|);
      var i := 0;
      while i < |ct|
        invariant 0 <= i <= |ct| && hdr == HeaderUpTo(hdr0, ct, i)
      {
        hdr := PutWord(hdr, 2 + i, ct[i].sector);
        i := i + 1;
      }
    }

    /** The sector writes since the disk was d0 and the record issued0. */
    ghost predicate Wrote(d0: Disk, issued0: seq<Write>, ws: seq<Write>)
      reads this
    {
      disk == Apply(d0, ws) && issued == issued0 + ws
    }

    /** end_trans, second loop: the data blocks go to the log, after the header at h. */
    method LogData(h: nat, ct: Trans) returns (hangs: bool, ghost ws: seq<Write>)
      requires Valid() && LOG <= h && jtail == h + 1 <= LOG + JSize(sb)
      requires if mtnHead == null then Fits(h, ct, JSize(sb)) else jtail < LOG + JSize(sb)
      modifies `disk, `jtail, `issued
      ensures Valid() && (hangs <==> mtnHead != null && LOG + JSize(sb) <= h + |ct| + 1)
      ensures jtail == if hangs then LOG + JSize(sb) else h + |ct| + 1
      ensures ws <= DataWrites(h, ct) && jtail == h + 1 + |ws| && Wrote(old(disk), old(issued), ws)
    {
      var i := 0;
      ws := [];
      while i < |ct|
        invariant 0 <= i <= |ct| && Valid() && jtail == h + 1 + i
        invariant mtnHead != null ==> jtail < LOG + JSize(sb)
        invariant |ws| == i && ws <= DataWrites(h, ct) && Wrote(old(disk), old(issued), ws)
      {
        hangs := JbWrite(ct[i].data);
        ApplySnoc(old(disk), ws, Write(h + 1 + i, ct[i].data));
        ws := ws + [Write(h + 1 + i, ct[i].data)];
        i := i + 1;
        if hangs {
          return;
        }
      }
      hangs := false;
    }

    /** end_trans: the header buffer and the data blocks go to the log. */
    method LogBlocks(ct: Trans) returns (hangs: bool, ghost ws: seq<Write>)
      requires Valid() && LOG <= jtail < LOG + JSize(sb) && (mtnHead == null ==> Fits(jtail, ct, JSize(sb)))
      modifies `disk, `jtail, `issued
      ensures Valid() && (hangs <==> mtnHead != null && LOG + JSize(sb) <= old(jtail) + |ct| + 1)
      ensures jtail == if hangs then LOG + JSize(sb) else old(jtail) + |ct| + 1
      ensures ws <= [Write(old(jtail), hdr)] + DataWrites(old(jtail), ct) && |ws| == jtail - old(jtail)
      ensures Wrote(old(disk), old(issued), ws)
    {
      ghost var head := Write(jtail, hdr);
      var h := jtail;
      hangs := JbWrite(hdr);
      ghost var data := [];
      if !hangs {
        hangs, data := LogData(h, ct);
      }
      ApplyCons(old(disk), head, data);
      ws := [head] + data;
    }

    /** end_trans: the superblock with the new tail. */
    method PublishTail(ghost d0: Disk, ghost issued0: seq<Write>, ghost ws: seq<Write>, ghost tail: nat)
      requires Valid() && tail < TWO32 && jtail == tail + 1 && Wrote(d0, issued0, ws)
      modifies `disk, `sb, `issued
      ensures Valid() && sb == WithTail(old(sb), tail)
      ensures Wrote(d0, issued0, ws + [Write(SUPER, sb)])
    {
      SuperFields(sb, jtail - 1);
      sb := WithTail(sb, jtail - 1);
      ApplySnoc(d0, ws, Write(SUPER, sb));
      WriteSector(SUPER, sb);
    }

    /** end_trans, the disk side: the transaction goes to the log and becomes part of it. */
    method LogTrans(ct: Trans) returns (hangs: bool, ghost ws: seq<Write>)
      requires Valid() && LOG <= jtail < LOG + JSize(sb) && |ct| <= NBPT
      requires mtnHead == null ==> Fits(jtail, ct, JSize(sb))
      modifies `disk, `jtail, `issued, `sb, `hdr
      ensures Valid() && hdr == Header(old(hdr), ct)
      ensures hangs <==> mtnHead != null && LOG + JSize(old(sb)) <= old(jtail) + |ct| + 1
      ensures jtail == if hangs then LOG + JSize(old(sb)) else old(jtail) + |ct| + 1
      ensures ws <= CommitWrites(old(sb), old(hdr), old(jtail), ct)
      ensures |ws| == if hangs then jtail - old(jtail) else |ct| + 2
      ensures Wrote(old(disk), old(issued), ws)
    {
      FillHeader(ct);
      hangs, ws := LogBlocks(ct);
      CommitBegins(sb, old(hdr), old(jtail), ct, ws);
      if !hangs {
        PublishTail(old(disk), old(issued), ws, old(jtail) + |ct|);
        ws := ws + [Write(SUPER, sb)];
      }
    }

    /** end_trans, the list side: only the tail's next is set unless the list is empty. */
    method AppendTrans(ct: Trans)
      requires Listed()
      modifies `mtnHead, `mtnTail, `nodes, `mtn, mtnTail
      ensures Listed() && mtn == Append(old(mtn), ct)
      ensures old(mtnHead) != null ==> mtnHead == old(mtnHead) && mtnTail == old(mtnTail)
      ensures old(mtnHead) == null ==> mtnTail != null && fresh(mtnTail)
    {
      var node := new TransNode(ct);
      if mtnHead == null {
        mtnTail := node;
        mtnHead := node;
        nodes, mtn := [node], Append(mtn, ct);
        assert NodeAt(nodes, mtn.list, 0);
      } else {
        mtnTail.next := node;
        ghost var k := mtn.tailAt;
        nodes, mtn := if k >= 0 then nodes[..k + 1] + [node] else nodes, Append(mtn, ct);
        ghost var was, list := old(nodes), old(mtn).list;
        forall i | 0 <= i < |was| ensures NodeAtBut(was, list, i, mtnTail) { assert old(NodeAt(was, list, i)); }
        assert ChainBut(was, list, mtnTail);
        if k >= 0 {
          LinkInList(was, list, k, mtnTail, node);
        } else {
          LinkOutside(was, list, mtnTail);
        }
      }
    }

    /** end_trans of a transaction that is not empty. */
    method EndSome(ct: Trans) returns (hangs: bool)
      requires Valid() && 0 < |ct| <= NBPT && Listed()
      requires LOG <= jtail < LOG + JSize(sb) && (mtnHead == null ==> Fits(jtail, ct, JSize(sb)))
      modifies this, mtnTail
      ensures Valid() && Listed()
      ensures hangs <==> old(mtn).list != [] && LOG + JSize(old(sb)) <= old(jtail) + |ct| + 1
      ensures !hangs ==>
        && Wrote(old(disk), old(issued), CommitWrites(old(sb), old(hdr), old(jtail), ct))
        && hdr == Header(old(hdr), ct) && jtail == old(jtail) + |ct| + 1 && mtn == Append(old(mtn), ct)
        && (old(mtnHead) == null ==> mtnTail != null && fresh(mtnTail))
      ensures hangs ==>
        && Wrote(old(disk), old(issued),
                 CommitWrites(old(sb), old(hdr), old(jtail), ct)[..LOG + JSize(old(sb)) - old(jtail)])
        && mtn == old(mtn)
    {
      ghost var ws;
      hangs, ws := LogTrans(ct);
      CommitPart(old(sb), old(hdr), old(jtail), ct, ws);
      if !hangs {
        AppendTrans(ct);
      }
    }

    /**
     end_trans for the current process's transaction ct.  It hangs iff other
     transactions are pending and this one reaches the journal's last sector; what it
     has written by then is a beginning of the commit without its superblock.
     */
    method EndTrans(ct: Trans) returns (hangs: bool)
      requires Valid() && |ct| <= NBPT && Listed()
      requires ct != [] ==> LOG <= jtail < LOG + JSize(sb) && (mtnHead == null ==> Fits(jtail, ct, JSize(sb)))
      modifies this, mtnTail
      ensures Valid() && Listed()
      ensures hangs <==> Hangs(old(Abs()), ct, JSize(old(sb)))
      ensures ct == [] ==> unchanged(this) && (mtnTail != null ==> unchanged(mtnTail))
      ensures !hangs ==> Abs() == CommitState(old(Abs()), ct)
      ensures !hangs && ct != [] && old(mtnHead) == null ==> mtnTail != null && fresh(mtnTail)
      ensures !hangs && ct != [] ==> issued == old(issued) + CommitWrites(old(sb), old(hdr), old(jtail), ct)
      ensures hangs ==>
        var ws := CommitWrites(old(sb), old(hdr), old(jtail), ct)[..LOG + JSize(old(sb)) - old(jtail)];
        issued == old(issued) + ws && disk == Apply(old(disk), ws) && mtn == old(mtn)
    {
      hangs := false;
      if |ct| > 0 {
        hangs := EndSome(ct);
      }
    }

    /** jfull_flush, inner loop: the home writes of one transaction. */
    method InstallTrans(tx: Trans)
      modifies `disk, `issued
      ensures Wrote(old(disk), old(issued), tx)
    {
      ghost var d0, issued0 := disk, issued;
      var i := 0;
      while i < |tx|
        invariant 0 <= i <= |tx|
        invariant Wrote(d0, issued0, tx[..i])
      {
        WriteSector(tx[i].sector, tx[i].data);
        ApplyTake(d0, tx, i);
        i := i + 1;
      }
      assert tx[..|tx|] == tx;
    }

    /** jfull_flush, outer loop: the transactions from mtn_head to mtn_tail, in list order. */
    method InstallList(ghost walk: seq<TransNode>, ghost txs: seq<Trans>)
      requires mtnTail != null && Walk(walk, txs, mtnHead, mtnTail.next)
      modifies `disk, `issued
      ensures Wrote(old(disk), old(issued), Flat(txs))
    {
      var curr := mtnHead;
      ghost var n := 0;
      while curr != mtnTail.next
        invariant 0 <= n <= |txs|
        invariant curr == if n < |txs| then walk[n] else mtnTail.next
        invariant n < |txs| ==> WalkAt(walk, txs, mtnTail.next, n)
        invariant Wrote(old(disk), old(issued), Flat(txs[..n]))
        decreases |txs| - n
      {
        InstallTrans(curr.trans);
        FlatTake(old(disk), old(issued), txs, n);
        curr := curr.next;
        n := n + 1;
      }
      assert txs[..n] == txs;
    }

    /** jfull_flush: the superblock of an empty log. */
    method EmptySuper()
      requires LOG < |disk| && LOG + JSize(sb) <= |disk| && LOG + JSize(sb) < TWO32
      modifies `disk, `sb, `issued
      ensures Valid() && sb == Emptied(old(sb))
      ensures disk == Put(old(disk), Write(SUPER, sb)) && issued == old(issued) + [Write(SUPER, sb)]
    {
      SuperFields(sb, 0);
      sb := Emptied(sb);
      WriteSector(SUPER, sb);
    }

    /** jfull_flush, the disk side. */
    method FlushList(ghost walk: seq<TransNode>, ghost txs: seq<Trans>)
      requires Valid() && mtnTail != null && Walk(walk, txs, mtnHead, mtnTail.next)
      modifies `disk, `sb, `issued
      ensures Valid()
      ensures issued == old(issued) + FlushWrites(old(sb), txs)
      ensures disk == Apply(old(disk), FlushWrites(old(sb), txs))
    {
      ghost var last := Write(SUPER, Emptied(sb));
      InstallList(walk, txs);
      EmptySuper();
      ApplySnoc(old(disk), Flat(txs), last);
      assert FlushWrites(old(sb), txs) == Flat(txs) + [last];
    }

    /** jfull_flush of a list that is not empty. */
    method FlushSome()
      requires Valid() && Listed() && mtnHead != null && mtn.tailAt != LOST
      modifies this
      ensures Valid() && Listed() && mtnTail == old(mtnTail) && hdr == old(hdr) && jtail == LOG
      ensures issued == old(issued) + FlushWrites(old(sb), FlushSet(old(mtn)))
      ensures disk == Apply(old(disk), FlushWrites(old(sb), FlushSet(old(mtn)))) && mtn == AfterFlush(old(mtn))
    {
      RepresentsWalk(nodes, mtn, mtnHead, mtnTail);
      FlushList(nodes[..mtn.tailAt + 1], FlushSet(mtn));
      DropFlushed();
    }

    /**
     jfull_flush: installs the transactions from mtn_head to mtn_tail, empties
     the log, and leaves whatever followed the tail as the list.
     */
    method JFullFlush()
      requires Valid() && Listed() && (mtnHead != null ==> mtn.tailAt != LOST)
      modifies this
      ensures Valid() && Listed() && mtnTail == old(mtnTail)
      ensures issued == old(issued) + if old(mtn).list == [] then [] else FlushWrites(old(sb), FlushSet(old(mtn)))
      ensures Abs() == FlushState(old(Abs()))
    {
      if mtnHead != null {
        FlushSome();
      }
      assert old(issued) + [] == old(issued);
    }

    /** jfull_flush, the list side. */
    method DropFlushed()
      requires Listed() && mtnHead != null && mtn.tailAt != LOST
      modifies `mtnHead, `jtail, `nodes, `mtn
      ensures Listed() && mtn == AfterFlush(old(mtn)) && jtail == LOG
    {
      DropRepresents(nodes, mtn, mtnHead, mtnTail);
      mtnHead := mtnTail.next;
      jtail := LOG;
      nodes, mtn := nodes[mtn.tailAt + 1..], AfterFlush(mtn);
    }

    /** pbjFSck, inner loop: the data blocks of the transaction whose header is at h. */
    method ParseTrans(h: nat) returns (tx: Trans)
      requires var n := if h < |disk| then GetWord(disk[h], 1) else 0;
        n <= NBPT && h + n < |disk| && h + 1 < |disk|
      ensures var n := GetWord(disk[h], 1);
        tx == ReadTrans(disk, h, if n == 0 then 1 else n)
    {
      var n := GetWord(disk[h], 1);
      ghost var all := ReadTrans(disk, h, if n == 0 then 1 else n);
      tx := [Write(GetWord(disk[h], 2), disk[h + 1])];
      var blk := h + 2;
      while blk <= h + n
        invariant h + 2 <= blk <= h + 1 + |all|
        invariant tx == all[..blk - h - 1]
      {
        tx := tx + [Write(GetWord(disk[h], 2 + (blk - h - 1)), disk[blk])];
        blk := blk + 1;
      }
    }

    /** pbjFSck's append: unlike end_trans it advances the tail. */
    method AppendParsed(tx: Trans)
      requires Gathered()
      modifies `mtnHead, `mtnTail, `nodes, `mtn, mtnTail
      ensures Gathered() && mtn == Mtn(old(mtn).list + [tx], |old(mtn).list|)
      ensures mtnTail != null && fresh(mtnTail) && nodes == old(nodes) + [mtnTail]
    {
      var node := new TransNode(tx);
      if mtnTail == null {
        mtnTail := node;
        mtnHead := node;
      } else {
        mtnTail.next := node;
        mtnTail := node;
      }
      nodes, mtn := nodes + [node], Mtn(mtn.list + [tx], |mtn.list|);
      forall i | 0 <= i < |nodes| ensures NodeAt(nodes, mtn.list, i) {
        if i < |old(nodes)| { assert old(NodeAt(nodes, mtn.list, i)); }
        if i + 1 < |old(nodes)| { assert Differ(old(nodes), i, |old(nodes)| - 1); }
      }
      forall i, j | 0 <= i < j < |nodes| ensures Differ(nodes, i, j) {
        if j < |old(nodes)| { assert Differ(old(nodes), i, j); }
      }
    }

    /** The list so far is what recovery has appended, each node behind the last. */
    ghost predicate Gathered()
      reads this, nodes, mtnTail
    {
      Listed() && mtn.tailAt == |mtn.list| - 1 && (mtnTail == null <==> nodes == [])
    }

    /** pbjFSck, outer loop body: the transaction whose header is at h, unless its checksum is wrong. */
    method ParseNext(h: nat) returns (ok: bool, next: nat)
      requires Valid() && Gathered() && RecoverLog(disk) != OutOfBounds
      requires ParsedSoFar(disk, mtn.list, h) && h < JTail(sb)
      modifies `mtnHead, `mtnTail, `nodes, `mtn, mtnTail
      ensures !ok ==> RecoverLog(disk) == BadChecksum && nodes == old(nodes) && Listed()
      ensures ok ==> Gathered() && ParsedSoFar(disk, mtn.list, next) && h < next
      ensures ok ==> mtnTail != null && fresh(mtnTail) && nodes == old(nodes) + [mtnTail]
    {
      ParseStep(disk, mtn.list, h);
      var tx := ParseTrans(h);
      ok, next := GetWord(disk[h], 0) == CHECKSUM, h + GetWord(disk[h], 1) + 1;
      if ok {
        AppendParsed(tx);
      }
    }

    /** pbjFSck, outer loop: the list of logged transactions, unless a checksum is wrong. */
    method ParseAll() returns (ok: bool)
      requires Valid() && Listed() && mtnHead == null && mtnTail == null
      requires RecoverLog(disk) != OutOfBounds && JHead(sb) < JTail(sb)
      modifies `mtnHead, `mtnTail, `nodes, `mtn
      ensures fresh(nodes) && Listed()
      ensures ok <==> RecoverLog(disk) != BadChecksum
      ensures ok ==> RecoverLog(disk) == Parsed(mtn.list) && mtn.list != [] && mtn.tailAt == |mtn.list| - 1
    {
      var h := JHead(sb);
      while h < JTail(sb)
        invariant fresh(nodes) && Gathered() && (mtnTail != null ==> mtnTail in nodes)
        invariant nodes == [] ==> h == JHead(sb)
        invariant ParsedSoFar(disk, mtn.list, h)
        decreases JTail(sb) - h
      {
        ok, h := ParseNext(h);
        if !ok {
          return;
        }
      }
      assert mtn.list + [] == mtn.list;
      ok := true;
    }

    /** pbjFSck: parse the log, replay it, empty it. */
    method PbjFsck() returns (ok: bool)
      requires Valid() && Listed() && mtnHead == null && mtnTail == null && jtail == LOG
      requires RecoverLog(disk) != OutOfBounds
      modifies this
      ensures Valid() && Listed()
      ensures ok <==> RecoverLog(old(disk)) != BadChecksum
      ensures issued == old(issued) + RecoverWrites(old(disk))
      ensures disk == Recovered(old(disk))
      ensures ok ==> Abs() == BootState(old(disk))
    {
      ok := true;
      if JHead(sb) < JTail(sb) {
        ok := ParseAll();
        assert ok ==> FlushSet(mtn) == mtn.list;
      }
      if ok {
        JFullFlush();
        hdr := disk[LOG];
      }
    }
  }

  /** A journal of five blocks: the first transaction takes two, and the second, which would fill it, hangs. */
  method HangsAtEnd(disk: Disk, data: Block) returns (first: bool, second: bool)
    requires LOG + 5 <= |disk| && JSize(disk[SUPER]) == 5
    ensures !first && second
  {
    var j := new Journal(disk);
    first := j.EndTrans([Write(100, data)]);
    SuperFields(disk[SUPER], LOG + 1);
    second := j.EndTrans([Write(101, data), Write(102, data)]);
  }
}
