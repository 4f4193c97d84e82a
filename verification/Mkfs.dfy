/**
 mkfs: the second writer of the file format.  It numbers blocks from a counter
 instead of a bitmap, writes the bitmap last, and yet leaves an image on which
 the kernel's invariant holds.
 */
module Mkfs {
  import opened Basics
  import opened Blocks
  import opened FsLayout
  import opened FsSteps
  import opened FsWrites
  import opened FsSpace
  import opened FileSystem

  const NJB := 201          // journal blocks, superblock included
  const IPB := 8            // inodes per block
  const NINODES := 200
  const MAX_SIZE := 65534   // 32767 kilobytes

  /** The layout main computes for an image of the given number of blocks. */
  function MkLayout(size: nat): (lay: Layout) {
    var bmap := NINODES / IPB + 3 + NJB;
    Layout(size, bmap, bmap + size / BPB + 1)
  }

  /** i2b, and the kernel's IBLOCK: the block of inode i. */
  function InodeBlock(i: nat): (b: nat) {
    i / IPB + 2 + NJB
  }

  /** The kernel's BBLOCK: the bitmap block of block b. */
  function KernelBitmapBlock(b: nat): (bb: nat) {
    b / BPB + NINODES / IPB + 3 + NJB
  }

  /** Journal, inodes, bitmap and data do not overlap, and both programs find the bitmap in the same place. */
  lemma LayoutAgrees(size: nat, i: nat, b: nat)
    requires i < NINODES && b < size
    ensures var lay := MkLayout(size);
      && 2 + NJB <= InodeBlock(i) < lay.bmap <= BitmapBlockOf(lay, b) < lay.data
      && BitmapBlockOf(lay, b) == KernelBitmapBlock(b)
      && lay.bmap + BitmapBlocks(lay) <= lay.data
  {
  }

  // ---- the image and the bitmap still to be written -----------------------

  /** The two stores have the same data blocks, and the marks of view are those of the first used blocks. */
  ghost predicate Agrees(sectors: seq<Block>, view: seq<Block>, lay: Layout, used: nat) {
    && |view| == |sectors| && ValidLayout(view, lay) && lay.data <= used <= |view|
    && (forall c :: lay.data <= c < |view| ==> view[c] == sectors[c])
    && (forall c :: 0 <= c < |view| ==> (Marked(view, lay, c) <==> c < used))
  }

  /** view is the image, whose bitmap is still blank, with the bitmap that marks the first used blocks. */
  ghost predicate Mirrors(sectors: seq<Block>, view: seq<Block>, lay: Layout, used: nat) {
    && Agrees(sectors, view, lay, used)
    && forall c :: lay.bmap <= c < lay.data ==> sectors[c] == ZeroBlock()
  }

  lemma MirrorMark(sectors: seq<Block>, view: seq<Block>, lay: Layout, used: nat)
    requires Mirrors(sectors, view, lay, used) && used < |view|
    ensures Mirrors(sectors, WithMark(view, lay, used, true), lay, used + 1)
  {
    BitmapBlockInRange(view, lay, used);
    var view' := WithMark(view, lay, used, true);
    forall c | 0 <= c < |view| ensures Marked(view', lay, c) <==> c < used + 1 {
      BitmapBlockInRange(view, lay, c);
      MarkChangesOne(view, lay, used, true, c);
      assert Marked(view, lay, c) <==> c < used;
    }
    assert Agrees(sectors, view', lay, used + 1);
  }

  lemma MirrorWrite(sectors: seq<Block>, view: seq<Block>, lay: Layout, used: nat, x: nat, v: Block)
    requires Mirrors(sectors, view, lay, used) && lay.data <= x < |view|
    ensures Mirrors(sectors[x := v], view[x := v], lay, used)
  {
    DataChangeKeepsMarks(view, lay, x, v);
    var view' := view[x := v];
    forall c | 0 <= c < |view| ensures Marked(view', lay, c) <==> c < used {
      assert Marked(view', lay, c) == Marked(view, lay, c);
    }
  }

  /** The next block is marked and a data-area block is written. */
  lemma MirrorMarkWrite(sectors: seq<Block>, view: seq<Block>, lay: Layout, b: nat, x: nat, v: Block,
                        marked: seq<Block>)
    requires Mirrors(sectors, view, lay, b) && b < |view| && lay.data <= x < |view|
      && marked == WithMark(view, lay, b, true)
    ensures marked[x] == sectors[x] && Mirrors(sectors[x := v], marked[x := v], lay, b + 1)
  {
    MirrorMark(sectors, view, lay, b);
    MirrorWrite(sectors, marked, lay, b + 1, x, v);
  }

  /** Both show the same trees and the same bytes. */
  lemma MirrorAddr(sectors: seq<Block>, view: seq<Block>, inodes: seq<Inode>, lay: Layout, used: nat, owner: Owner,
                   i: nat, p: Pos)
    requires Agrees(sectors, view, lay, used) && Sound(view, inodes, lay, owner) && i < |inodes| && ValidPos(p)
    ensures Addr(sectors, inodes[i], p) == Addr(view, inodes[i], p)
    ensures Addr(view, inodes[i], p) != 0 ==> lay.data <= Addr(view, inodes[i], p) < |view|
  {
    if Addr(view, inodes[i], p) != 0 {
      assert OwnedBy(view, lay, owner, Addr(view, inodes[i], p), i, p);
    }
    if Addr(view, inodes[i], Root) != 0 {
      assert OwnedBy(view, lay, owner, Addr(view, inodes[i], Root), i, Root);
    }
    if p.Leaf? && Addr(view, inodes[i], Mid(p.l)) != 0 {
      assert OwnedBy(view, lay, owner, Addr(view, inodes[i], Mid(p.l)), i, Mid(p.l));
    }
    AddrFrame(view, sectors, inodes[i], p);
  }

  lemma MirrorContents(sectors: seq<Block>, view: seq<Block>, inodes: seq<Inode>, lay: Layout, used: nat,
                       owner: Owner, i: nat)
    requires Agrees(sectors, view, lay, used) && Sound(view, inodes, lay, owner) && i < |inodes|
    ensures SameFile(sectors, view, inodes[i])
    ensures Contents(sectors, inodes[i]) == Contents(view, inodes[i])
  {
    forall bn | 0 <= bn < MAXFILE ensures Addr(sectors, inodes[i], DataPos(bn)) == Addr(view, inodes[i], DataPos(bn)) {
      MirrorAddr(sectors, view, inodes, lay, used, owner, i, DataPos(bn));
    }
    forall k | 0 <= k < MAXBYTES ensures Raw(sectors, inodes[i], k) == Raw(view, inodes[i], k) {
      MirrorAddr(sectors, view, inodes, lay, used, owner, i, DataPos(k / BSIZE));
    }
  }

  /** The next block becomes address k of the inode. */
  lemma AddrStep(sectors: seq<Block>, s: Store, lay: Layout, i: nat, k: nat, b: nat, p: Pos, din: Inode)
    returns (t: Store)
    requires Mirrors(sectors, s.blocks, lay, b) && b < |s.blocks| && Sound(s.blocks, s.inodes, lay, s.owner)
    requires i < |s.inodes| && k < NADDRS && s.inodes[i].addrs[k] == 0
    requires ValidPos(p) && IsData(p) && (k < NDIRECT ==> p == Direct(k))
    requires din == s.inodes[i].(addrs := s.inodes[i].addrs[k := b])
    ensures Mirrors(sectors, t.blocks, lay, b + 1) && t.inodes == s.inodes[i := din]
    ensures Extends(s.blocks, s.inodes, t.blocks, t.inodes, lay, t.owner, i, p, {AddrPos(k)})
  {
    t := Store(WithMark(s.blocks, lay, b, true), s.inodes[i := din], s.owner[b := Place(i, AddrPos(k))]);
    MirrorMark(sectors, s.blocks, lay, b);
    AllocAddrStep(s.blocks, s.inodes, lay, s.owner, i, k, b, t.blocks, t.inodes, p);
  }

  /** The next block goes to entry l of the root block. */
  lemma MidStep(sectors: seq<Block>, s: Store, lay: Layout, i: nat, l: nat, b: nat, root: nat, p: Pos, v: Block)
    returns (t: Store)
    requires Mirrors(sectors, s.blocks, lay, b) && b < |s.blocks| && Sound(s.blocks, s.inodes, lay, s.owner)
    requires i < |s.inodes| && l < WORDS && root == s.inodes[i].addrs[INDIRECT] != 0 && root < |sectors|
    requires Addr(s.blocks, s.inodes[i], Mid(l)) == 0 && ValidPos(p) && IsData(p) && OneWord(sectors[root], v, l, b)
    ensures Mirrors(sectors[root := v], t.blocks, lay, b + 1) && t.inodes == s.inodes
    ensures Extends(s.blocks, s.inodes, t.blocks, t.inodes, lay, t.owner, i, p, {Mid(l)})
  {
    var marked := WithMark(s.blocks, lay, b, true);
    assert lay.data <= root by { MirrorAddr(sectors, s.blocks, s.inodes, lay, b, s.owner, i, Root); }
    MirrorMarkWrite(sectors, s.blocks, lay, b, root, v, marked);
    AllocMidStep(s.blocks, s.inodes, lay, s.owner, i, l, b, root, marked, v, p);
    t := Store(marked[root := v], s.inodes, s.owner[b := Place(i, Mid(l))]);
  }

  /** The next block goes to entry k of a second-level block. */
  lemma LeafStep(sectors: seq<Block>, s: Store, lay: Layout, i: nat, l: nat, k: nat, b: nat, mid: nat, v: Block)
    returns (t: Store)
    requires Mirrors(sectors, s.blocks, lay, b) && b < |s.blocks| && Sound(s.blocks, s.inodes, lay, s.owner)
    requires i < |s.inodes| && l < WORDS && k < WORDS && mid < |sectors| && OneWord(sectors[mid], v, k, b)
    requires mid == Addr(s.blocks, s.inodes[i], Mid(l)) != 0 && Addr(s.blocks, s.inodes[i], Leaf(l, k)) == 0
    ensures Mirrors(sectors[mid := v], t.blocks, lay, b + 1) && t.inodes == s.inodes
    ensures Extends(s.blocks, s.inodes, t.blocks, t.inodes, lay, t.owner, i, Leaf(l, k), {Leaf(l, k)})
  {
    var marked := WithMark(s.blocks, lay, b, true);
    assert lay.data <= mid by { MirrorAddr(sectors, s.blocks, s.inodes, lay, b, s.owner, i, Mid(l)); }
    MirrorMarkWrite(sectors, s.blocks, lay, b, mid, v, marked);
    AllocLeafStep(s.blocks, s.inodes, lay, s.owner, i, l, k, b, mid, marked, v);
    t := Store(marked[mid := v], s.inodes, s.owner[b := Place(i, Leaf(l, k))]);
  }

  // ---- room ---------------------------------------------------------------

  /** The blocks below size that are not taken; a block past them is not in the image and cannot be read back. */
  ghost function Room(blocks: seq<Block>, lay: Layout): (n: nat)
    requires ValidLayout(blocks, lay)
  {
    var used := |blocks| - Free(blocks, lay);
    if used < lay.size then lay.size - used else 0
  }

  lemma {:induction false} FirstMarked(view: seq<Block>, lay: Layout, used: nat, n: nat)
    requires ValidLayout(view, lay) && n <= |view|
    requires forall c :: 0 <= c < |view| ==> (Marked(view, lay, c) <==> c < used)
    ensures FreeBelow(view, lay, n) == if n <= used then 0 else n - used
  {
    if n > 0 { FirstMarked(view, lay, used, n - 1); }
  }

  /** The counter is the number of blocks taken. */
  lemma MirrorFree(sectors: seq<Block>, view: seq<Block>, lay: Layout, used: nat)
    requires Mirrors(sectors, view, lay, used)
    ensures Free(view, lay) == |view| - used
  {
    FirstMarked(view, lay, used, |view|);
  }

  lemma RoomLeft(s: Store, t: Store, lay: Layout, i: nat, ps: set<Pos>)
    requires Spent(s.blocks, s.inodes, t.blocks, t.inodes, lay, i, ps) && |t.blocks| == |s.blocks|
    requires Lacks(s, i, ps) <= Room(s.blocks, lay)
    ensures Room(t.blocks, lay) == Room(s.blocks, lay) - Lacks(s, i, ps)
  {
  }

  // ---- files --------------------------------------------------------------

  const ROOTINO := 1
  const T_DIR := 1
  const T_FILE := 2
  const FREE_INODE := Inode(0, 0, 0, 0, 0, [0, 0, 0, 0, 0, 0, 0, 0, 0, 0, 0, 0, 0])

  /** The contents of all files. */
  ghost function Image(blocks: seq<Block>, inodes: seq<Inode>): (files: seq<seq<Byte>>)
    requires ValidInodes(inodes)
    ensures |files| == |inodes|
  {
    seq(|inodes|, j requires 0 <= j < |inodes| => Contents(blocks, inodes[j]))
  }

  /** The data and index blocks of files of the given contents. */
  function Total(files: seq<seq<Byte>>): (n: nat)
    requires forall j :: 0 <= j < |files| ==> |files[j]| <= MAXBYTES
  {
    if files == [] then 0 else Total(files[..|files| - 1]) + Cost(|files[|files| - 1]|)
  }

  lemma {:induction false} TotalUpdate(files: seq<seq<Byte>>, i: nat, f: seq<Byte>, was: nat, now: nat)
    requires i < |files| && |files[i]| == was && |f| == now <= MAXBYTES && forall j :: 0 <= j < |files| ==>
      |files[j]| <= MAXBYTES
    ensures Total(files[i := f]) == Total(files) - Cost(was) + Cost(now)
  {
    var n := |files| - 1;
    if i == n {
      assert files[i := f][..n] == files[..n];
    } else {
      assert files[i := f][..n] == files[..n][i := f];
      TotalUpdate(files[..n], i, f, was, now);
    }
  }

  lemma {:induction false} TotalZero(files: seq<seq<Byte>>)
    requires forall j :: 0 <= j < |files| ==> files[j] == []
    ensures Total(files) == 0
  {
    if files != [] { TotalZero(files[..|files| - 1]); }
  }

  lemma AppendIsOverwrite(s: seq<Byte>, data: seq<Byte>)
    ensures Overwrite(s, |s|, data) == s + data
  {
  }

  /** Appending data to file i, as a change of the files. */
  lemma AppendImage(s: Store, u: Store, i: nat, data: seq<Byte>)
    requires ValidInodes(s.inodes) && ValidInodes(u.inodes) && i < |s.inodes|
    requires Written(s, u, i, s.inodes[i].size, data)
    ensures var files := Image(s.blocks, s.inodes); Image(u.blocks, u.inodes) == files[i := files[i] + data]
  {
    AppendIsOverwrite(Contents(s.blocks, s.inodes[i]), data);
  }

  ghost predicate AllExact(blocks: seq<Block>, inodes: seq<Inode>)
    requires ValidInodes(inodes)
  {
    forall j :: 0 <= j < |inodes| ==> Exact(blocks, inodes[j])
  }

  lemma AppendExact(s: Store, t: Store, u: Store, lay: Layout, i: nat, data: seq<Byte>)
    requires ValidInodes(s.inodes) && ValidInodes(u.inodes) && AllExact(s.blocks, s.inodes)
    requires i < |s.inodes| && Resized(s, t, u, i, s.inodes[i].size, |data|)
    requires Writes(s, t, lay, i, s.inodes[i].size, data, |data|)
    ensures AllExact(u.blocks, u.inodes)
  {
    ExactAfter(s.blocks, s.inodes[i], t.blocks, t.inodes[i], lay, |data|, u.inodes[i]);
    forall j | 0 <= j < |u.inodes| && j != i ensures Exact(u.blocks, u.inodes[j]) {
      assert Exact(s.blocks, s.inodes[j]);
      forall p | ValidPos(p) ensures Addr(u.blocks, u.inodes[j], p) == Addr(s.blocks, s.inodes[j], p) {
        assert Addr(t.blocks, t.inodes[j], p) == Addr(s.blocks, s.inodes[j], p);
      }
    }
  }

  /** The total grows by the blocks that appending n bytes takes. */
  lemma TotalAppend(blocks: seq<Block>, ip: Inode, n: nat, need: nat, files: seq<seq<Byte>>, i: nat, f: seq<Byte>)
    requires ValidInode(ip) && Exact(blocks, ip) && ip.size + n <= MAXBYTES && need == Need(blocks, ip, ip.size, n)
    requires i < |files| && |files[i]| == ip.size && |f| == ip.size + n
    requires forall j :: 0 <= j < |files| ==> |files[j]| <= MAXBYTES
    ensures Total(files[i := f]) == Total(files) + need
  {
    ExactNeed(blocks, ip, n, |f|, need);
    TotalGrows(files, i, f, ip.size, |f|, need);
  }

  lemma TotalGrows(files: seq<seq<Byte>>, i: nat, f: seq<Byte>, was: nat, now: nat, more: nat)
    requires i < |files| && |files[i]| == was && |f| == now <= MAXBYTES && forall j :: 0 <= j < |files| ==>
      |files[j]| <= MAXBYTES
    requires Cost(now) == Cost(was) + more
    ensures Total(files[i := f]) == Total(files) + more
  {
    TotalUpdate(files, i, f, was, now);
  }

  lemma ExactTight(blocks: seq<Block>, ip: Inode)
    requires ValidInode(ip) && Exact(blocks, ip)
    ensures Tight(blocks, ip)
  {
    forall bn | 0 <= bn < MAXFILE ensures Addr(blocks, ip, DataPos(bn)) != 0 <==> bn * BSIZE < ip.size {
      PathsIff(BlocksIn(ip.size), DataPos(bn));
    }
  }

  /** A blank store with the first n blocks marked. */
  lemma {:induction false} FirstMarks(blocks: seq<Block>, lay: Layout, n: nat) returns (view: seq<Block>)
    requires ValidLayout(blocks, lay) && n <= |blocks| && forall b :: 0 <= b < |blocks| ==> blocks[b] == ZeroBlock()
    ensures |view| == |blocks| && forall c :: 0 <= c < |view| ==> (Marked(view, lay, c) <==> c < n)
    ensures forall c :: lay.data <= c < |view| ==> view[c] == blocks[c]
  {
    if n == 0 {
      view := blocks;
      forall c | 0 <= c < |view| ensures !Marked(view, lay, c) { ZeroMark(view, lay, c); }
    } else {
      var v := FirstMarks(blocks, lay, n - 1);
      view := OneMoreMark(v, lay, n - 1);
    }
  }

  lemma OneMoreMark(v: seq<Block>, lay: Layout, n: nat) returns (view: seq<Block>)
    requires ValidLayout(v, lay) && n < |v| && forall c :: 0 <= c < |v| ==> (Marked(v, lay, c) <==> c < n)
    ensures |view| == |v| && forall c :: 0 <= c < |view| ==> (Marked(view, lay, c) <==> c < n + 1)
    ensures forall c :: lay.data <= c < |view| ==> view[c] == v[c]
  {
    BitmapBlockInRange(v, lay, n);
    view := WithMark(v, lay, n, true);
    forall c | 0 <= c < |view| ensures Marked(view, lay, c) <==> c < n + 1 { MarkNext(v, lay, n, c); }
  }

  lemma MarkNext(blocks: seq<Block>, lay: Layout, n: nat, c: nat)
    requires ValidLayout(blocks, lay) && n < |blocks| && c < |blocks| && (Marked(blocks, lay, c) <==> c < n)
    ensures Marked(WithMark(blocks, lay, n, true), lay, c) <==> c < n + 1
  {
    MarkChangesOne(blocks, lay, n, true, c);
  }

  lemma ZeroMark(blocks: seq<Block>, lay: Layout, c: nat)
    requires BitmapBlockOf(lay, c) < |blocks| && blocks[BitmapBlockOf(lay, c)] == ZeroBlock()
    ensures !Marked(blocks, lay, c)
  {
    ZeroBits(c % BPB % 8);
  }

  lemma {:induction false} ZeroBits(k: nat)
    ensures !Bit(0, k)
  {
    if k > 0 { ZeroBits(k - 1); }
  }

  lemma FreeInodes(blocks: seq<Block>, ip: Inode, p: Pos)
    requires |ip.addrs| == NADDRS && (forall e :: 0 <= e < NADDRS ==> ip.addrs[e] == 0) && ValidPos(p)
    ensures Addr(blocks, ip, p) == 0
  {
  }

  /** A blank image in which the first n blocks are taken. */
  lemma BlankSound(sectors: seq<Block>, inodes: seq<Inode>, lay: Layout, n: nat, view: seq<Block>)
    requires ValidLayout(sectors, lay) && lay.data <= n <= |sectors| == |view|
    requires forall b :: 0 <= b < |sectors| ==> sectors[b] == ZeroBlock()
    requires forall b :: lay.data <= b < |sectors| ==> view[b] == sectors[b]
    requires forall c :: 0 <= c < |view| ==> (Marked(view, lay, c) <==> c < n)
    requires forall i :: 0 <= i < |inodes| ==> inodes[i] == FREE_INODE
    ensures Mirrors(sectors, view, lay, n) && Sound(view, inodes, lay, map[])
  {
    forall i, p | 0 <= i < |inodes| && ValidPos(p) ensures Addr(view, inodes[i], p) == 0 {
      FreeInodes(view, inodes[i], p);
    }
  }

  lemma FreshImage(view: seq<Block>, inodes: seq<Inode>)
    requires forall i :: 0 <= i < |inodes| ==> inodes[i] == FREE_INODE
    ensures ValidInodes(inodes) && ZeroTails(view, inodes) && AllExact(view, inodes)
    ensures forall j :: 0 <= j < |inodes| ==> Image(view, inodes)[j] == []
  {
    forall i | 0 <= i < |inodes| ensures ZeroTail(view, inodes[i]) && Exact(view, inodes[i]) {
      EmptyInode(view, inodes[i]);
      forall p | ValidPos(p) ensures Addr(view, inodes[i], p) == 0 {
        FreeInodes(view, inodes[i], p);
      }
    }
  }

  /** Inodes with the same sizes and addresses have the same trees. */
  lemma RelabelSound(blocks: seq<Block>, inodes: seq<Inode>, inodes': seq<Inode>, lay: Layout, owner: Owner)
    requires Sound(blocks, inodes, lay, owner) && |inodes| == |inodes'|
    requires forall i :: 0 <= i < |inodes| ==> inodes'[i].size == inodes[i].size && inodes'[i].addrs == inodes[i].addrs
    ensures Sound(blocks, inodes', lay, owner)
    ensures forall i, p {:trigger Addr(blocks, inodes'[i], p)} :: 0 <= i < |inodes| && ValidPos(p) ==>
      Addr(blocks, inodes'[i], p) == Addr(blocks, inodes[i], p)
  {
    forall i, p | 0 <= i < |inodes| && ValidPos(p) ensures Addr(blocks, inodes'[i], p) == Addr(blocks, inodes[i], p) { }
    assert ValidInodes(inodes');
    forall i, p | 0 <= i < |inodes'| && ValidPos(p) && Addr(blocks, inodes'[i], p) != 0
      ensures OwnedBy(blocks, lay, owner, Addr(blocks, inodes'[i], p), i, p)
    {
      assert OwnedBy(blocks, lay, owner, Addr(blocks, inodes[i], p), i, p);
    }
  }

  /** They have the same files. */
  lemma RelabelFiles(blocks: seq<Block>, inodes: seq<Inode>, inodes': seq<Inode>, lay: Layout, owner: Owner)
    requires Sound(blocks, inodes, lay, owner) && |inodes| == |inodes'| && ZeroTails(blocks, inodes)
      && AllExact(blocks, inodes)
    requires forall i :: 0 <= i < |inodes| ==> inodes'[i].size == inodes[i].size && inodes'[i].addrs == inodes[i].addrs
    ensures Sound(blocks, inodes', lay, owner) && ZeroTails(blocks, inodes') && AllExact(blocks, inodes')
    ensures Image(blocks, inodes') == Image(blocks, inodes)
  {
    RelabelSound(blocks, inodes, inodes', lay, owner);
    forall i | 0 <= i < |inodes'| ensures ZeroTail(blocks, inodes'[i])
      && Contents(blocks, inodes'[i]) == Contents(blocks, inodes[i]) {
      forall k | 0 <= k < MAXBYTES ensures Raw(blocks, inodes'[i], k) == Raw(blocks, inodes[i], k) { }
    }
    forall i | 0 <= i < |inodes'| ensures Exact(blocks, inodes'[i]) {
      assert Exact(blocks, inodes[i]);
    }
  }

  lemma SetNextBit(buf: Block, i: nat)
    requires i < BPB && forall c :: 0 <= c < BPB ==> (BlockBit(buf, c) <==> c < i)
    ensures forall c :: 0 <= c < BPB ==> (BlockBit(WithBit(buf, i, true), c) <==> c < i + 1)
  {
    forall c | 0 <= c < BPB && c != i ensures BlockBit(WithBit(buf, i, true), c) == BlockBit(buf, c) {
      WithBitOthers(buf, i, true, c);
    }
  }

  /** With the bitmap block in place the image itself has the marks of the view. */
  lemma BitmapMarks(sectors: seq<Block>, view: seq<Block>, lay: Layout, used: nat, buf: Block, c: nat)
    requires Mirrors(sectors, view, lay, used) && used <= BPB && c < |sectors|
    requires forall c :: 0 <= c < BPB ==> (BlockBit(buf, c) <==> c < used)
    ensures ValidLayout(sectors, lay)
    ensures Marked(sectors[lay.bmap := buf], lay, c) <==> c < used
  {
    if c >= BPB {
      ZeroBits(c % BPB % 8);
    }
  }

  lemma BitmapAgrees(sectors: seq<Block>, view: seq<Block>, lay: Layout, used: nat, buf: Block)
    requires Mirrors(sectors, view, lay, used) && used <= BPB
    requires forall c :: 0 <= c < BPB ==> (BlockBit(buf, c) <==> c < used)
    ensures Agrees(sectors[lay.bmap := buf], view, lay, used)
    ensures forall c :: 0 <= c < |view| ==> Marked(sectors[lay.bmap := buf], lay, c) == Marked(view, lay, c)
  {
    forall c | 0 <= c < |view| ensures Marked(sectors[lay.bmap := buf], lay, c) == Marked(view, lay, c) {
      BitmapMarks(sectors, view, lay, used, buf, c);
    }
  }

  /** A store that agrees with a sound one, bitmap included, is sound. */
  lemma AgreesSound(image: seq<Block>, view: seq<Block>, inodes: seq<Inode>, lay: Layout, used: nat, owner: Owner)
    requires Agrees(image, view, lay, used) && Sound(view, inodes, lay, owner)
    requires forall c :: 0 <= c < |view| ==> Marked(image, lay, c) == Marked(view, lay, c)
    ensures Sound(image, inodes, lay, owner)
  {
    forall j, q | 0 <= j < |inodes| && ValidPos(q) ensures Addr(image, inodes[j], q) == Addr(view, inodes[j], q) {
      MirrorAddr(image, view, inodes, lay, used, owner, j, q);
    }
    SameTreesOwns(view, image, inodes, lay, owner);
  }

  lemma BitmapWritten(sectors: seq<Block>, view: seq<Block>, inodes: seq<Inode>, lay: Layout, used: nat, owner: Owner,
                      buf: Block, image: seq<Block>)
    requires Mirrors(sectors, view, lay, used) && used <= BPB && image == sectors[lay.bmap := buf]
    requires Sound(view, inodes, lay, owner) && ZeroTails(view, inodes)
    requires forall c :: 0 <= c < BPB ==> (BlockBit(buf, c) <==> c < used)
    ensures Sound(image, inodes, lay, owner) && ZeroTails(image, inodes)
    ensures forall c :: 0 <= c < |image| ==> (Marked(image, lay, c) <==> c < used)
    ensures Image(image, inodes) == Image(view, inodes)
    ensures forall j :: 0 <= j < |inodes| ==> (Tight(image, inodes[j]) <==> Tight(view, inodes[j]))
  {
    BitmapAgrees(sectors, view, lay, used, buf);
    AgreesSound(image, view, inodes, lay, used, owner);
    forall j | 0 <= j < |inodes|
      ensures ZeroTail(image, inodes[j]) && Contents(image, inodes[j]) == Contents(view, inodes[j])
      ensures Tight(image, inodes[j]) <==> Tight(view, inodes[j])
    {
      MirrorContents(image, view, inodes, lay, used, owner, j);
      KeptFile(view, image, inodes[j]);
    }
  }

  /** The size main gives the root directory. */
  function RootSize(size: nat): (n: nat)
    ensures size < n && (size < MAXBYTES ==> n <= MAXBYTES)
  {
    (size / BSIZE + 1) * BSIZE
  }

  /** s with zeros up to length n. */
  function Padded(s: seq<Byte>, n: nat): (r: seq<Byte>)
    requires |s| <= n
    ensures |r| == n
  {
    s + seq(n - |s|, _ => 0)
  }

  /**
   main rounds the root directory's size up to ((off / BSIZE) + 1) * BSIZE.  The
   directory stays gap free iff its entries do not end on a block boundary.
   */
  lemma RootRoundUp(blocks: seq<Block>, ip: Inode, ip': Inode)
    requires ValidInode(ip) && Tight(blocks, ip) && ip.size < MAXBYTES && ip' == ip.(size := RootSize(ip.size))
    ensures Tight(blocks, ip') <==> ip.size % BSIZE != 0
  {
    var bn := ip.size / BSIZE;
    forall n | 0 <= n < MAXFILE ensures Addr(blocks, ip', DataPos(n)) == Addr(blocks, ip, DataPos(n)) { }
    if ip.size % BSIZE == 0 {
      assert Addr(blocks, ip', DataPos(bn)) == 0;
    } else {
      forall n | 0 <= n < MAXFILE ensures n * BSIZE < ip'.size <==> n * BSIZE < ip.size { }
    }
  }

  /** The bytes it gains are zeros. */
  lemma RootPadded(blocks: seq<Block>, ip: Inode, n: nat)
    requires ValidInode(ip) && ZeroTail(blocks, ip) && ip.size <= n <= MAXBYTES
    ensures ZeroTail(blocks, ip.(size := n))
    ensures Contents(blocks, ip.(size := n)) == Padded(Contents(blocks, ip), n)
  {
    var ip' := ip.(size := n);
    forall k | 0 <= k < MAXBYTES ensures Raw(blocks, ip', k) == Raw(blocks, ip, k) { }
  }

  /** A sound store of these files, whose trees are no larger than they need be, with zeros past the ends. */
  ghost predicate Holds(s: Store, lay: Layout, files: seq<seq<Byte>>) {
    && Sound(s.blocks, s.inodes, lay, s.owner) && ZeroTails(s.blocks, s.inodes) && AllExact(s.blocks, s.inodes)
    && files == Image(s.blocks, s.inodes)
  }

  /** There is room for n more bytes at the end of file i. */
  ghost predicate Fits(s: Store, lay: Layout, i: nat, n: nat)
    requires i < |s.inodes| && ValidInodes(s.inodes) && ValidLayout(s.blocks, lay)
  {
    s.inodes[i].size + n <= MAXBYTES && Need(s.blocks, s.inodes[i], s.inodes[i].size, n) <= Room(s.blocks, lay)
  }

  /** The counter has moved by the blocks that appending took. */
  lemma CounterMoved(s: Store, t: Store, lay: Layout, i: nat, off: nat, data: seq<Byte>,
                     before: seq<Block>, used: nat, after: seq<Block>, used': nat)
    requires Mirrors(before, s.blocks, lay, used) && Mirrors(after, t.blocks, lay, used') && |t.blocks| == |s.blocks|
    requires Writes(s, t, lay, i, off, data, |data|)
    ensures used' == used + Need(s.blocks, s.inodes[i], off, |data|)
  {
    MirrorFree(before, s.blocks, lay, used);
    MirrorFree(after, t.blocks, lay, used');
  }

  /** The end of iappend: the store holds the longer file. */
  lemma Appended(s: Store, t: Store, u: Store, lay: Layout, i: nat, data: seq<Byte>, files: seq<seq<Byte>>)
    requires Holds(s, lay, files) && i < |s.inodes| && Resized(s, t, u, i, s.inodes[i].size, |data|)
    requires Writes(s, t, lay, i, s.inodes[i].size, data, |data|)
    ensures Holds(u, lay, files[i := files[i] + data])
  {
    WritesThenSize(s, t, u, lay, i, s.inodes[i].size, data);
    AppendImage(s, u, i, data);
    AppendExact(s, t, u, lay, i, data);
  }

  /** It changes no other inode. */
  lemma OneInode(s: Store, t: Store, u: Store, lay: Layout, i: nat, off: nat, data: seq<Byte>)
    requires i < |s.inodes| && Resized(s, t, u, i, off, |data|) && Writes(s, t, lay, i, off, data, |data|)
    ensures u.inodes == s.inodes[i := u.inodes[i]] && u.inodes[i].kind == s.inodes[i].kind
  {
  }

  class Mkfs {
    const lay: Layout
    var sectors: seq<Block>
    var inodes: seq<Inode>        // the inode sectors
    var freeblock: nat
    var usedblocks: nat
    var freeinode: nat
    ghost var store: Store        // the image with the bitmap to come, and the inodes with the one being appended to

    ghost predicate Safe()
      reads this
    {
      && Mirrors(sectors, store.blocks, lay, freeblock) && Sound(store.blocks, store.inodes, lay, store.owner)
      && usedblocks == freeblock && |store.inodes| == |inodes|
    }

    /** Nothing is being appended, and no file has anything but zeros past its end. */
    ghost predicate Settled()
      reads this
    {
      Safe() && store.inodes == inodes && ZeroTails(store.blocks, inodes)
    }

    /** The blocks taken are just those that the files need. */
    ghost predicate Valid()
      reads this
    {
      && Safe() && store.inodes == inodes && Holds(store, lay, Files())
      && 0 < freeinode <= |inodes| && forall j :: freeinode <= j < |inodes| ==> inodes[j] == FREE_INODE
    }

    ghost function Files(): (files: seq<seq<Byte>>)
      requires ValidInodes(inodes)
      reads this
    {
      Image(store.blocks, inodes)
    }

    /** `freeblock++` and `usedblocks++`; a block past the end of the image could not be read back. */
    method NextBlock() returns (ok: bool, b: nat)
      requires Safe()
      modifies `freeblock, `usedblocks
      ensures b == old(freeblock) && (ok <==> Room(store.blocks, lay) > 0)
      ensures ok ==> b < |sectors| && freeblock == b + 1 && usedblocks == b + 1
    {
      b := freeblock;
      ok := b < lay.size;
      MirrorFree(sectors, store.blocks, lay, freeblock);
      if ok {
        freeblock, usedblocks := freeblock + 1, usedblocks + 1;
      }
    }

    /** iappend's `din.addrs[k] = xint(freeblock++)` for an empty address. */
    method AllocAddr(i: nat, din: Inode, k: nat, ghost p: Pos) returns (ok: bool, din': Inode)
      requires Safe() && i < |inodes| && din == store.inodes[i] && k < NADDRS && din.addrs[k] == 0
      requires ValidPos(p) && IsData(p) && (k < NDIRECT ==> p == Direct(k))
      modifies `freeblock, `usedblocks, `store
      ensures ok <==> Room(old(store).blocks, lay) > 0
      ensures ok ==> Safe() && din' == store.inodes[i]
      ensures ok ==> Extends(old(store).blocks, old(store).inodes, store.blocks, store.inodes, lay, store.owner, i,
        p, {AddrPos(k)})
    {
      var b;
      ok, b := NextBlock();
      din' := din.(addrs := din.addrs[k := b]);
      if ok {
        store := AddrStep(sectors, store, lay, i, k, b, p, din');
      }
    }

    /** iappend's allocation of a second-level block, written back to the root's sector. */
    method AllocMid(i: nat, din: Inode, l: nat, ghost p: Pos) returns (ok: bool)
      requires Safe() && i < |inodes| && din == store.inodes[i] && l < WORDS && din.addrs[INDIRECT] != 0
      requires Addr(store.blocks, din, Mid(l)) == 0 && ValidPos(p) && IsData(p)
      modifies `sectors, `freeblock, `usedblocks, `store
      ensures ok <==> Room(old(store).blocks, lay) > 0
      ensures ok ==> Safe() && store.inodes == old(store).inodes
      ensures ok ==> Extends(old(store).blocks, old(store).inodes, store.blocks, store.inodes, lay, store.owner, i,
        p, {Mid(l)})
    {
      var root := din.addrs[INDIRECT];
      assert root < |sectors| by {
        MirrorAddr(sectors, store.blocks, store.inodes, lay, freeblock, store.owner, i, Root);
      }
      var b;
      ok, b := NextBlock();
      if ok {
        var v := PutEntry(sectors[root], l, b);
        store := MidStep(sectors, store, lay, i, l, b, root, p, v);
        sectors := sectors[root := v];
      }
    }

    /** iappend's allocation of a data block, written back to the second-level sector. */
    method AllocLeaf(i: nat, ghost l: nat, k: nat, mid: nat) returns (ok: bool)
      requires Safe() && i < |inodes| && l < WORDS && k < WORDS && mid < |sectors|
      requires mid == Addr(store.blocks, store.inodes[i], Mid(l)) != 0
        && Addr(store.blocks, store.inodes[i], Leaf(l, k)) == 0
      modifies `sectors, `freeblock, `usedblocks, `store
      ensures ok <==> Room(old(store).blocks, lay) > 0
      ensures ok ==> Safe() && store.inodes == old(store).inodes
      ensures ok ==> Extends(old(store).blocks, old(store).inodes, store.blocks, store.inodes, lay, store.owner, i,
                             Leaf(l, k), {Leaf(l, k)})
    {
      var b;
      ok, b := NextBlock();
      if ok {
        var v := PutEntry(sectors[mid], k, b);
        store := LeafStep(sectors, store, lay, i, l, k, b, mid, v);
        sectors := sectors[mid := v];
      }
    }

    /** The root block of the file. */
    method MapRoot(i: nat, din: Inode, ghost p: Pos) returns (r: Mapping, din': Inode)
      requires Safe() && i < |inodes| && din == store.inodes[i] && ValidPos(p) && p.Leaf?
      modifies `freeblock, `usedblocks, `store
      ensures Maps(old(store), store, lay, Room(old(store).blocks, lay), i, p, {Root}, Root, true, r)
      ensures r.Mapped? ==> Safe() && din' == store.inodes[i]
    {
      din' := din;
      if din.addrs[INDIRECT] != 0 {
        r := Mapped(din.addrs[INDIRECT]);
      } else {
        var ok;
        ok, din' := AllocAddr(i, din, INDIRECT, p);
        r := if ok then Mapped(din'.addrs[INDIRECT]) else MapPanic;
      }
      MapsOne(old(store), store, lay, Room(old(store).blocks, lay), i, p, Root, true, r);
    }

    /** The entry of an index block, read back from its sector. */
    method ReadEntry(i: nat, din: Inode, q: Pos) returns (addr: nat)
      requires Safe() && i < |inodes| && din == store.inodes[i] && ValidPos(q)
      ensures addr == Addr(store.blocks, din, q) && (addr != 0 ==> addr < |sectors|)
    {
      MirrorAddr(sectors, store.blocks, store.inodes, lay, freeblock, store.owner, i, q);
      addr := Addr(sectors, din, q);
    }

    /** The second-level block in entry l of the root. */
    method MapMid(i: nat, din: Inode, l: nat, ghost p: Pos) returns (r: Mapping)
      requires Safe() && i < |inodes| && din == store.inodes[i] && l < WORDS && din.addrs[INDIRECT] != 0
        && ValidPos(p) && p.Leaf?
      modifies `sectors, `freeblock, `usedblocks, `store
      ensures Maps(old(store), store, lay, Room(old(store).blocks, lay), i, p, {Mid(l)}, Mid(l), true, r)
      ensures r.Mapped? ==> Safe() && din == store.inodes[i] && r.addr < |sectors|
    {
      var addr := ReadEntry(i, din, Mid(l));
      var ok := true;
      if addr == 0 {
        ok := AllocMid(i, din, l, p);
        if ok {
          addr := ReadEntry(i, din, Mid(l));
        }
      }
      r := if ok then Mapped(addr) else MapPanic;
      MapsOne(old(store), store, lay, Room(old(store).blocks, lay), i, p, Mid(l), true, r);
    }

    /** The data block in entry k of the second-level block mid. */
    method MapLeaf(i: nat, din: Inode, l: nat, k: nat, mid: nat) returns (r: Mapping)
      requires Safe() && i < |inodes| && din == store.inodes[i] && l < WORDS && k < WORDS
      requires mid == Addr(store.blocks, din, Mid(l)) != 0 && mid < |sectors|
      modifies `sectors, `freeblock, `usedblocks, `store
      ensures Maps(old(store), store, lay, Room(old(store).blocks, lay), i, Leaf(l, k), {Leaf(l, k)}, Leaf(l, k),
        true, r)
      ensures r.Mapped? ==> Safe() && din == store.inodes[i]
    {
      var addr := ReadEntry(i, din, Leaf(l, k));
      var ok := true;
      if addr == 0 {
        ok := AllocLeaf(i, l, k, mid);
        if ok {
          addr := ReadEntry(i, din, Leaf(l, k));
        }
      }
      r := if ok then Mapped(addr) else MapPanic;
      MapsOne(old(store), store, lay, Room(old(store).blocks, lay), i, Leaf(l, k), Leaf(l, k), true, r);
    }

    /** Second-level block and data block. */
    method MapUnder(i: nat, din: Inode, l: nat, k: nat) returns (r: Mapping)
      requires Safe() && i < |inodes| && din == store.inodes[i] && l < WORDS && k < WORDS && din.addrs[INDIRECT] != 0
      modifies `sectors, `freeblock, `usedblocks, `store
      ensures Maps(old(store), store, lay, Room(old(store).blocks, lay), i, Leaf(l, k),
                   {Mid(l)} + {Leaf(l, k)}, Leaf(l, k), true, r)
      ensures r.Mapped? ==> Safe() && din == store.inodes[i]
    {
      ghost var p, s := Leaf(l, k), store;
      var m := MapMid(i, din, l, p);
      ghost var t := store;
      if !m.Mapped? {
        MapsNot(s, t, lay, Room(s.blocks, lay), i, p, {Mid(l)}, {p}, Mid(l), p, true, m);
        return m;
      }
      RoomLeft(s, t, lay, i, {Mid(l)});
      r := MapLeaf(i, din, l, k, m.addr);
      MapsThen(s, t, store, lay, Room(s.blocks, lay), Room(t.blocks, lay), i, p, {Mid(l)}, {p}, Mid(l), p, true, m, r);
    }

    /** iappend's path through the doubly-indirect tree to block (l, k). */
    method MapIndirect(i: nat, din: Inode, l: nat, k: nat) returns (r: Mapping, din': Inode)
      requires Safe() && i < |inodes| && din == store.inodes[i] && l < WORDS && k < WORDS
      modifies `sectors, `freeblock, `usedblocks, `store
      ensures Maps(old(store), store, lay, Room(old(store).blocks, lay), i, Leaf(l, k),
                   {Root} + ({Mid(l)} + {Leaf(l, k)}), Leaf(l, k), true, r)
      ensures r.Mapped? ==> Safe() && din' == store.inodes[i]
    {
      ghost var p, s, under := Leaf(l, k), store, {Mid(l)} + {Leaf(l, k)};
      var m;
      m, din' := MapRoot(i, din, p);
      ghost var t := store;
      if !m.Mapped? {
        MapsNot(s, t, lay, Room(s.blocks, lay), i, p, {Root}, under, Root, p, true, m);
        return m, din';
      }
      RoomLeft(s, t, lay, i, {Root});
      r := MapUnder(i, din', l, k);
      MapsThen(s, t, store, lay, Room(s.blocks, lay), Room(t.blocks, lay), i, p, {Root}, under, Root, p, true, m, r);
    }

    /** The block of one of the direct addresses. */
    method MapDirect(i: nat, din: Inode, fbn: nat) returns (r: Mapping, din': Inode)
      requires Safe() && i < |inodes| && din == store.inodes[i] && fbn < NDIRECT
      modifies `freeblock, `usedblocks, `store
      ensures Maps(old(store), store, lay, Room(old(store).blocks, lay), i, Direct(fbn), {Direct(fbn)}, Direct(fbn),
        true, r)
      ensures r.Mapped? ==> Safe() && din' == store.inodes[i]
    {
      din' := din;
      if din.addrs[fbn] != 0 {
        r := Mapped(din.addrs[fbn]);
      } else {
        var ok;
        ok, din' := AllocAddr(i, din, fbn, Direct(fbn));
        r := if ok then Mapped(din'.addrs[fbn]) else MapPanic;
      }
      MapsOne(old(store), store, lay, Room(old(store).blocks, lay), i, Direct(fbn), Direct(fbn), true, r);
    }

    /** The sector of block fbn of the file, taken from the counter if there is none. */
    method MapBlock(i: nat, din: Inode, fbn: nat) returns (r: Mapping, din': Inode)
      requires Safe() && i < |inodes| && din == store.inodes[i]
      modifies `sectors, `freeblock, `usedblocks, `store
      ensures MAXFILE <= fbn ==> r == MapPanic
      ensures fbn < MAXFILE ==>
        Maps(old(store), store, lay, Room(old(store).blocks, lay), i, DataPos(fbn), Path(fbn), DataPos(fbn), true, r)
      ensures r.Mapped? ==> Safe() && din' == store.inodes[i]
    {
      if fbn >= MAXFILE {
        return MapPanic, din;
      }
      if fbn < NDIRECT {
        r, din' := MapDirect(i, din, fbn);
      } else {
        var n := fbn - NDIRECT;
        assert DataPos(fbn) == Leaf(n / WORDS, n % WORDS);
        assert Path(fbn) == {Root} + ({Mid(n / WORDS)} + {Leaf(n / WORDS, n % WORDS)});
        r, din' := MapIndirect(i, din, n / WORDS, n % WORDS);
      }
    }

    /** New bytes for sector x, a data block of the file. */
    method WriteSector(i: nat, x: nat, v: Block, ghost bn: nat)
      requires Safe() && i < |inodes| && bn < MAXFILE && x == Addr(store.blocks, store.inodes[i], DataPos(bn)) != 0
      modifies `sectors, `store
      ensures x < |old(sectors)| == |old(store).blocks| && sectors == old(sectors)[x := v] && Safe()
      ensures store == old(store).(blocks := old(store).blocks[x := v])
    {
      MirrorAddr(sectors, store.blocks, store.inodes, lay, freeblock, store.owner, i, DataPos(bn));
      DataWrite(store.blocks, store.inodes, lay, store.owner, i, DataPos(bn), x, v);
      MirrorWrite(sectors, store.blocks, lay, freeblock, x, v);
      sectors := sectors[x := v];
      store := store.(blocks := store.blocks[x := v]);
    }

    /** iappend's loop body: the part of the data that falls in one block. */
    method AppendChunk(i: nat, din: Inode, data: seq<Byte>, off: nat, lo: nat, hi: nat, ghost bn: nat)
      returns (ok: bool, din': Inode)
      requires Safe() && i < |inodes| && din == store.inodes[i] && lo < hi <= |data|
      requires bn == (off + lo) / BSIZE && (off + lo) % BSIZE + (hi - lo) <= BSIZE
      modifies `sectors, `freeblock, `usedblocks, `store
      ensures ok <==> bn < MAXFILE && Lacks(old(store), i, Path(bn)) <= Room(old(store).blocks, lay)
      ensures ok ==> Safe() && din' == store.inodes[i]
      ensures ok ==> WritesChunk(old(store), store, lay, i, off, data, lo, hi, bn)
    {
      var r;
      r, din' := MapBlock(i, din, (off + lo) / BSIZE);
      if !r.Mapped? {
        return false, din';
      }
      var x := r.addr;
      ghost var s, t := old(store), store;
      MirrorAddr(sectors, t.blocks, t.inodes, lay, freeblock, t.owner, i, DataPos(bn));
      var v := Patch(sectors[x], (off + lo) % BSIZE, data, lo, hi);
      WriteSector(i, x, v, bn);
      ChunkWritten(s, t, lay, i, off, data, lo, hi, bn, x, v);
      ok := true;
    }

    /** One turn of iappend's loop, after tot bytes of data since the state s. */
    method AppendNext(i: nat, din: Inode, data: seq<Byte>, off: nat, tot: nat, ghost s: Store)
      returns (ok: bool, din': Inode, more: nat)
      requires Safe() && i < |inodes| && din == store.inodes[i] && tot < |data|
        && Writes(s, store, lay, i, off, data, tot)
      requires ValidLayout(s.blocks, lay) && Need(s.blocks, s.inodes[i], off, tot) <= Room(s.blocks, lay)
      modifies `sectors, `freeblock, `usedblocks, `store
      ensures tot < more <= |data|
      ensures ok ==> Safe() && din' == store.inodes[i] && Writes(s, store, lay, i, off, data, more)
      ensures ok ==> Need(s.blocks, s.inodes[i], off, more) <= Room(s.blocks, lay)
      ensures !ok && off + |data| <= MAXBYTES ==> Need(s.blocks, s.inodes[i], off, |data|) > Room(s.blocks, lay)
    {
      more := tot + Chunk(off + tot, |data| - tot);
      ghost var t, bn := store, (off + tot) / BSIZE;
      RoomLeft(s, t, lay, i, BytePaths(off, tot));
      ok, din' := AppendChunk(i, din, data, off, tot, more, bn);
      if ok {
        WritesMore(s, t, store, lay, i, off, data, tot, more, bn);
        BytePathsNext(off, tot, more, bn);
        LackingSplit(s.blocks, s.inodes[i], t.blocks, t.inodes[i], lay, BytePaths(off, tot), Path(bn));
      } else if off + |data| <= MAXBYTES {
        NoRoom(s.blocks, s.inodes[i], t.blocks, t.inodes[i], lay, off, tot, more, |data|, bn, Room(s.blocks, lay));
      }
    }

    /** iappend's loop: data goes to the blocks from offset off on. */
    method AppendAll(i: nat, data: seq<Byte>, off: nat) returns (ok: bool, din: Inode)
      requires Safe() && i < |inodes| && store.inodes == inodes && off == inodes[i].size
      modifies `sectors, `freeblock, `usedblocks, `store
      ensures ok <==> Fits(old(store), lay, i, |data|)
      ensures ok ==> Safe() && din == store.inodes[i] && Writes(old(store), store, lay, i, off, data, |data|)
      ensures ok ==> freeblock == old(freeblock) + Need(old(store).blocks, old(store).inodes[i], off, |data|)
    {
      din := inodes[i];
      var tot := 0;
      WritesNone(store, lay, i, off, data);
      assert Need(store.blocks, store.inodes[i], off, 0) == 0;
      while tot < |data|
        invariant 0 <= tot <= |data| && Safe() && din == store.inodes[i]
        invariant Writes(old(store), store, lay, i, off, data, tot)
        invariant Need(old(store).blocks, old(store).inodes[i], off, tot) <= Room(old(store).blocks, lay)
      {
        ok, din, tot := AppendNext(i, din, data, off, tot, old(store));
        if !ok {
          return;
        }
      }
      CounterMoved(old(store), store, lay, i, off, data, old(sectors), old(freeblock), sectors, freeblock);
      ok := true;
    }

    /** iappend's end: the inode with its new size goes to its sector. */
    method WriteInode(i: nat, din: Inode, data: seq<Byte>, ghost s: Store, ghost files: seq<seq<Byte>>)
      requires Safe() && i < |inodes| && din == store.inodes[i] && s.inodes == inodes
      requires Holds(s, lay, files) && Writes(s, store, lay, i, s.inodes[i].size, data, |data|)
      modifies `inodes, `store
      ensures Safe() && store.inodes == inodes && Holds(store, lay, files[i := files[i] + data])
      ensures |inodes| == |old(inodes)| && inodes[i].kind == old(inodes)[i].kind
      ensures forall j :: 0 <= j < |inodes| && j != i ==> inodes[j] == old(inodes)[j]
    {
      var din' := din.(size := NewSize(inodes[i].size, inodes[i].size, |data|));
      ghost var u := store.(inodes := store.inodes[i := din']);
      Appended(s, store, u, lay, i, data, files);
      OneInode(s, store, u, lay, i, inodes[i].size, data);
      store := u;
      inodes := inodes[i := din'];
    }

    /** iappend: data goes to the end of file i, iff there is room for the blocks it needs. */
    method Iappend(i: nat, data: seq<Byte>) returns (ok: bool)
      requires Valid() && i < freeinode
      modifies `sectors, `inodes, `freeblock, `usedblocks, `store
      ensures ok <==> Fits(old(store), lay, i, |data|)
      ensures ok ==> freeblock == old(freeblock) + Need(old(store).blocks, old(inodes)[i], old(inodes)[i].size, |data|)
      ensures ok ==> Valid() && |inodes| == |old(inodes)|
      ensures ok ==> Files() == old(Files())[i := old(Files())[i] + data]
      ensures ok ==> forall j :: 0 <= j < |inodes| ==> inodes[j].kind == old(inodes)[j].kind
    {
      var din;
      ghost var s := store;
      ok, din := AppendAll(i, data, inodes[i].size);
      if ok {
        WriteInode(i, din, data, s, old(Files()));
      }
    }

    /** main: all sectors zero, all inodes free, the counter at the first data block. */
    constructor (size: nat)
      requires 0 < size <= MAX_SIZE
      ensures Valid() && lay == MkLayout(size) && |inodes| == NINODES && freeinode == 1
      ensures freeblock == lay.data && Files() == seq(NINODES, _ => [])
      ensures forall j :: 0 <= j < |inodes| ==> inodes[j] == FREE_INODE
    {
      lay := MkLayout(size);
      sectors := seq(Covered(MkLayout(size)), _ => ZeroBlock());
      inodes := seq(NINODES, _ => FREE_INODE);
      freeblock := MkLayout(size).data;
      usedblocks := MkLayout(size).data;
      freeinode := 1;
      new;
      ghost var view := FirstMarks(sectors, lay, lay.data);
      store := Store(view, inodes, map[]);
      BlankSound(sectors, inodes, lay, lay.data, view);
      FreshImage(view, inodes);
    }

    /**
     ialloc: the next inode becomes an empty file of the given kind with one link.
     Its block is read first, which fails past the end of the image.
     */
    method Ialloc(kind: int) returns (ok: bool, inum: nat)
      requires Valid() && freeinode < |inodes|
      modifies `inodes, `store, `freeinode
      ensures inum == old(freeinode) && freeinode == inum + 1 && (ok <==> InodeBlock(inum) < lay.size)
      ensures ok ==> Valid() && Files() == old(Files())
      ensures ok ==> inodes == old(inodes)[inum := FREE_INODE.(kind := kind, nlink := 1)]
    {
      inum := freeinode;
      freeinode := freeinode + 1;
      ok := InodeBlock(inum) < lay.size;
      if !ok {
        return;
      }
      inodes := inodes[inum := FREE_INODE.(kind := kind, nlink := 1)];
      store := store.(inodes := inodes);
      RelabelFiles(store.blocks, old(inodes), inodes, lay, store.owner);
    }

    /** main's last change: the root directory's size is rounded up. */
    method FixRoot()
      requires Valid() && ROOTINO < freeinode && inodes[ROOTINO].size < MAXBYTES
      modifies `inodes, `store
      ensures Settled()
      ensures var root := old(inodes)[ROOTINO]; inodes == old(inodes)[ROOTINO := root.(size := RootSize(root.size))]
      ensures var root := old(Files())[ROOTINO]; Files() == old(Files())[ROOTINO := Padded(root, RootSize(|root|))]
      ensures forall j :: 0 <= j < |inodes| ==>
        (Tight(store.blocks, inodes[j]) <==> j != ROOTINO || old(inodes)[ROOTINO].size % BSIZE != 0)
    {
      var off := RootSize(inodes[ROOTINO].size);
      forall j | 0 <= j < |inodes| ensures Tight(store.blocks, inodes[j]) { ExactTight(store.blocks, inodes[j]); }
      RootRoundUp(store.blocks, inodes[ROOTINO], inodes[ROOTINO].(size := off));
      RootPadded(store.blocks, inodes[ROOTINO], off);
      ResizeSound(store.blocks, inodes, lay, store.owner, ROOTINO, off);
      inodes := inodes[ROOTINO := inodes[ROOTINO].(size := off)];
      store := store.(inodes := inodes);
      assert Files() == old(Files())[ROOTINO := Padded(old(Files())[ROOTINO], off)];
    }

    /** balloc: the bitmap block that marks the first usedblocks blocks. */
    method Balloc()
      requires Settled() && usedblocks <= BPB
      modifies `sectors
      ensures Sound(sectors, inodes, lay, store.owner) && ZeroTails(sectors, inodes)
      ensures forall c :: 0 <= c < |sectors| ==> (Marked(sectors, lay, c) <==> c < usedblocks)
      ensures Image(sectors, inodes) == Files()
      ensures forall j :: 0 <= j < |inodes| ==> (Tight(sectors, inodes[j]) <==> Tight(store.blocks, inodes[j]))
    {
      var buf := BitmapOf(usedblocks);
      BitmapWritten(sectors, store.blocks, inodes, lay, freeblock, store.owner, buf, sectors[lay.bmap := buf]);
      sectors := sectors[lay.bmap := buf];
    }
  }

  /** balloc's loop: a bitmap block with the first used bits set. */
  method BitmapOf(used: nat) returns (buf: Block)
    requires used <= BPB
    ensures forall c :: 0 <= c < BPB ==> (BlockBit(buf, c) <==> c < used)
  {
    buf := ZeroBlock();
    forall c: nat | c < BPB ensures !BlockBit(buf, c) {
      ZeroBits(c % 8);
    }
    var i := 0;
    while i < used
      invariant 0 <= i <= used
      invariant forall c :: 0 <= c < BPB ==> (BlockBit(buf, c) <==> c < i)
    {
      SetNextBit(buf, i);
      buf := WithBit(buf, i, true);
      i := i + 1;
    }
  }
}
