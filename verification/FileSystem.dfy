/**
 The kernel's file blocks: the bitmap allocator, bmap over direct and doubly
 indirect blocks, and readi/writei, updating the block store, the in-memory
 inodes and the inode blocks in place.
 */
module FileSystem {
  import opened Basics
  import opened Blocks
  import opened FsLayout
  import opened FsSteps
  import opened FsWrites
  import opened FsSpace

  /** What bmap returns: an address, -1, or nothing because the kernel panics. */
  datatype Mapping = Mapped(addr: nat) | Missing | MapPanic

  /** What readi and writei return: a count, -1, a device driver's answer, or nothing because the kernel panics. */
  datatype IoResult = Count(n: nat) | Error | Device | Panic

  /** bmap without allocation. */
  function Lookup(blocks: seq<Block>, ip: Inode, bn: nat): (r: Mapping)
    requires ValidInode(ip)
  {
    if MAXFILE <= bn then MapPanic
    else
      var a := Addr(blocks, ip, DataPos(bn));
      if a == 0 then Missing else Mapped(a)
  }

  /** The bytes of one block that a read of n more bytes at off takes. */
  function Chunk(off: nat, n: nat): (m: nat)
    ensures 0 < n ==> 0 < m
    ensures m <= n && off % BSIZE + m <= BSIZE
  {
    if n < BSIZE - off % BSIZE then n else BSIZE - off % BSIZE
  }

  /** `off + n < off` in 32 bits. */
  predicate Overflows(off: nat, n: nat)
    requires off < TWO32 && n < TWO32
    ensures Overflows(off, n) <==> off + n >= TWO32
  {
    (off + n) % TWO32 < off
  }

  /** The bytes readi copies of a file of the given size. */
  function ReadLength(size: nat, off: nat, n: nat): (m: nat)
    ensures m <= n && (m > 0 ==> off + m <= size)
  {
    if off > size then 0 else if off + n > size then size - off else n
  }

  /** The bytes writei copies, of n given ones. */
  function WriteLength(off: nat, n: nat): (m: nat)
    requires off <= MAXBYTES
    ensures m <= n && off + m <= MAXBYTES
  {
    if off + n > MAXBYTES then MAXBYTES - off else n
  }

  /**
   A step of mapping data block p of inode i: the store stays sound, no file's bytes
   and no other data address change, and the places ps are recorded.
   */
  ghost predicate Extends(b0: seq<Block>, i0: seq<Inode>, b1: seq<Block>, i1: seq<Inode>, lay: Layout, owner: Owner,
                          i: nat, p: Pos, ps: set<Pos>) {
    && ValidInodes(i0) && Sound(b1, i1, lay, owner) && Grew(b0, i0, b1, i1, i, p)
    && Spent(b0, i0, b1, i1, lay, i, ps)
  }

  lemma ExtendsTrans(b0: seq<Block>, i0: seq<Inode>, b1: seq<Block>, i1: seq<Inode>, b2: seq<Block>, i2: seq<Inode>,
                     lay: Layout, owner1: Owner, owner2: Owner, i: nat, p: Pos, ps: set<Pos>, qs: set<Pos>)
    requires Extends(b0, i0, b1, i1, lay, owner1, i, p, ps) && Extends(b1, i1, b2, i2, lay, owner2, i, p, qs)
    ensures Extends(b0, i0, b2, i2, lay, owner2, i, p, ps + qs)
  {
    GrewTrans(b0, i0, b1, i1, b2, i2, i, p);
    SpentTrans(b0, i0, b1, i1, b2, i2, lay, i, ps, qs);
  }

  /** Nothing is done for places that are recorded. */
  lemma ExtendsNone(b: seq<Block>, inodes: seq<Inode>, lay: Layout, owner: Owner, i: nat, p: Pos, ps: set<Pos>)
    requires Sound(b, inodes, lay, owner) && i < |inodes| && ValidPos(p)
    requires forall q :: q in ps ==> ValidPos(q) && Addr(b, inodes[i], q) != 0
    ensures Extends(b, inodes, b, inodes, lay, owner, i, p, ps)
  {
    TookNone(b, inodes[i], lay, ps);
  }

  /** The block store, the in-memory inodes and, beside them, the owner of each block. */
  datatype Store = Store(blocks: seq<Block>, inodes: seq<Inode>, owner: Owner)

  /** The number of the places ps of inode i where nothing is recorded. */
  ghost function Lacks(s: Store, i: nat, ps: set<Pos>): (n: nat)
    requires i < |s.inodes| && ValidInodes(s.inodes) && forall p :: p in ps ==> ValidPos(p)
  {
    |Lacking(s.blocks, s.inodes[i], ps)|
  }

  /**
   bmap, or a part of it, for the places ps of inode i on the way to data block p,
   with room for that many new blocks.  With nothing missing or without alloc
   nothing changes; -1 is returned iff something is missing and alloc is not set,
   and the kernel panics iff alloc is set and more is missing than there is room
   for; otherwise the address at the place `at` is returned with all the places
   recorded.
   */
  ghost predicate Maps(s: Store, t: Store, lay: Layout, room: int, i: nat, p: Pos, ps: set<Pos>, at: Pos,
                       alloc: bool, r: Mapping) {
    && i < |s.inodes| && ValidInodes(s.inodes) && ValidLayout(s.blocks, lay) && ValidPos(at)
    && (forall q :: q in ps ==> ValidPos(q))
    && (!alloc || Lacks(s, i, ps) == 0 ==> t == s)
    && (r == Missing <==> !alloc && Lacks(s, i, ps) > 0)
    && (r == MapPanic <==> alloc && Lacks(s, i, ps) > room)
    && (r.Mapped? ==>
         && Extends(s.blocks, s.inodes, t.blocks, t.inodes, lay, t.owner, i, p, ps)
         && r.addr == Addr(t.blocks, t.inodes[i], at) != 0)
  }

  /** A first part that succeeds and a second, which has the room that the first leaves. */
  lemma MapsThen(s: Store, t: Store, u: Store, lay: Layout, room: int, left: int, i: nat, p: Pos,
                 ps: set<Pos>, qs: set<Pos>, at: Pos, last: Pos, alloc: bool, r: Mapping, r': Mapping)
    requires Maps(s, t, lay, room, i, p, ps, at, alloc, r) && r.Mapped? && left == room - Lacks(s, i, ps)
    requires Maps(t, u, lay, left, i, p, qs, last, alloc, r')
    ensures Maps(s, u, lay, room, i, p, ps + qs, last, alloc, r')
  {
    LackingSplit(s.blocks, s.inodes[i], t.blocks, t.inodes[i], lay, ps, qs);
    if r'.Mapped? {
      ExtendsTrans(s.blocks, s.inodes, t.blocks, t.inodes, u.blocks, u.inodes, lay, t.owner, u.owner, i, p, ps, qs);
    }
  }

  /** A first part that does not succeed. */
  lemma MapsNot(s: Store, t: Store, lay: Layout, room: int, i: nat, p: Pos, ps: set<Pos>, qs: set<Pos>, at: Pos,
                last: Pos, alloc: bool, r: Mapping)
    requires Maps(s, t, lay, room, i, p, ps, at, alloc, r) && !r.Mapped?
    requires ValidPos(last) && forall q :: q in qs ==> ValidPos(q)
    ensures Maps(s, t, lay, room, i, p, ps + qs, last, alloc, r)
  {
    SubsetSize(Lacking(s.blocks, s.inodes[i], ps), Lacking(s.blocks, s.inodes[i], ps + qs));
  }

  /** One place, recorded already, or recorded now, or not. */
  lemma MapsOne(s: Store, t: Store, lay: Layout, room: int, i: nat, p: Pos, at: Pos, alloc: bool, r: Mapping)
    requires Sound(s.blocks, s.inodes, lay, s.owner) && i < |s.inodes| && ValidPos(p) && ValidPos(at) && room >= 0
    requires Addr(s.blocks, s.inodes[i], at) != 0 ==> t == s && r == Mapped(Addr(s.blocks, s.inodes[i], at))
    requires Addr(s.blocks, s.inodes[i], at) == 0 && !alloc ==> t == s && r == Missing
    requires Addr(s.blocks, s.inodes[i], at) == 0 && alloc && room == 0 ==> r == MapPanic
    requires Addr(s.blocks, s.inodes[i], at) == 0 && alloc && room > 0 ==>
      && Extends(s.blocks, s.inodes, t.blocks, t.inodes, lay, t.owner, i, p, {at})
      && r == Mapped(Addr(t.blocks, t.inodes[i], at))
    ensures Maps(s, t, lay, room, i, p, {at}, at, alloc, r)
  {
    if Addr(s.blocks, s.inodes[i], at) != 0 {
      assert Lacking(s.blocks, s.inodes[i], {at}) == {};
      ExtendsNone(s.blocks, s.inodes, lay, s.owner, i, p, {at});
    } else {
      assert Lacking(s.blocks, s.inodes[i], {at}) == {at};
    }
  }

  /** Nothing is missing on the way to a data block that is recorded. */
  lemma PathFull(blocks: seq<Block>, ip: Inode, bn: nat)
    requires |ip.addrs| == NADDRS && bn < MAXFILE && Addr(blocks, ip, DataPos(bn)) != 0
    ensures Lacking(blocks, ip, Path(bn)) == {}
  {
  }

  /** Marking a free block and recording it at position q, taken together. */
  lemma AllocGrew(b0: seq<Block>, b1: seq<Block>, inodes: seq<Inode>, b2: seq<Block>, inodes': seq<Inode>,
                  i: nat, q: Pos, b: nat, p: Pos)
    requires ValidInodes(inodes) && ValidInodes(inodes') && i < |inodes| && ValidPos(q)
    requires SameTrees(b0, b1, inodes) && SameData(b0, b1, inodes)
    requires Installed(b1, inodes, b2, inodes', i, q, b) && SameData(b1, b2, inodes)
    requires Addr(b0, inodes[i], q) == 0 && 0 < b < |b0| && (IsData(q) ==> b2[b] == ZeroBlock() && q == p)
    requires inodes' == inodes[i := inodes[i].(addrs := inodes'[i].addrs)]
    ensures Grew(b0, inodes, b2, inodes', i, p)
  {
    assert Addr(b1, inodes[i], q) == 0;
    InstalledSameBytes(b1, inodes, b2, inodes', i, q, b);
    forall j, k | 0 <= j < |inodes| && 0 <= k < MAXBYTES ensures Raw(b2, inodes'[j], k) == Raw(b0, inodes[j], k) {
      assert Raw(b2, inodes'[j], k) == Raw(b1, inodes[j], k);
      assert Addr(b1, inodes[j], DataPos(k / BSIZE)) == Addr(b0, inodes[j], DataPos(k / BSIZE));
    }
    forall j, t | 0 <= j < |inodes| && ValidPos(t) && IsData(t) && !(j == i && t == p)
      ensures Addr(b2, inodes'[j], t) == Addr(b0, inodes[j], t)
    {
      assert Addr(b1, inodes[j], t) == Addr(b0, inodes[j], t);
    }
  }

  /** The same step as a use of room: place q of inode i is recorded, and one free block paid for it. */
  lemma AllocSpent(b0: seq<Block>, b1: seq<Block>, inodes: seq<Inode>, b2: seq<Block>, inodes': seq<Inode>, lay: Layout,
                  i: nat, q: Pos, b: nat)
    requires ValidInodes(inodes) && ValidInodes(inodes') && i < |inodes| && ValidPos(q) && Addr(b0, inodes[i], q) == 0
    requires ValidLayout(b0, lay) && 0 < b && FirstFree(b0, lay, b) && b1 == WithMark(b0, lay, b, true)
    requires SameTrees(b0, b1, inodes) && Installed(b1, inodes, b2, inodes', i, q, b)
    requires ValidLayout(b2, lay) && |b2| == |b1| && forall c :: 0 <= c < |b1| ==>
      Marked(b2, lay, c) == Marked(b1, lay, c)
    ensures Spent(b0, inodes, b2, inodes', lay, i, {q})
  {
    forall c | 0 <= c < |b0| ensures Marked(b2, lay, c) <==> c == b || Marked(b0, lay, c) {
      MarkChangesOne(b0, lay, b, true, c);
    }
    forall p | ValidPos(p) ensures Addr(b2, inodes'[i], p) == if p == q then b else Addr(b0, inodes[i], p) {
      assert Addr(b1, inodes[i], p) == Addr(b0, inodes[i], p);
    }
    TookPlace(b0, inodes[i], b2, inodes'[i], lay, q, b);
    forall j, p | 0 <= j < |inodes| && j != i && ValidPos(p) ensures Addr(b2, inodes'[j], p) == Addr(b0, inodes[j], p) {
      assert Addr(b1, inodes[j], p) == Addr(b0, inodes[j], p);
    }
  }

  /** A scan by whole bitmap blocks ends where the bitmap does. */
  lemma ScannedAll(lay: Layout, b: nat)
    requires b % BPB == 0 && lay.size <= b <= Covered(lay)
    ensures b == Covered(lay)
  {
  }

  /** In a sound store balloc panics iff no block is free. */
  lemma BallocSucceedsIff(blocks: seq<Block>, inodes: seq<Inode>, lay: Layout, owner: Owner)
    requires Sound(blocks, inodes, lay, owner)
    ensures !FirstFree(blocks, lay, 1)
    ensures Free(blocks, lay) == 0 <==> forall b :: 0 <= b < |blocks| ==> Marked(blocks, lay, b)
  {
    FreeIff(blocks, lay, |blocks|);
  }

  /** The place of address k of an inode. */
  function AddrPos(k: nat): (q: Pos)
    requires k < NADDRS
    ensures ValidPos(q)
  {
    if k < NDIRECT then Direct(k) else Root
  }

  /** `a[m] = b` for an index block. */
  method PutEntry(u: Block, m: nat, b: nat) returns (v: Block)
    requires m < WORDS && b < TWO32
    ensures OneWord(u, v, m, b)
  {
    PutGet(u, m, b);
    v := PutWord(u, m, b);
  }

  lemma AddrAt(blocks: seq<Block>, ip: Inode, k: nat)
    requires k < NADDRS == |ip.addrs|
    ensures Addr(blocks, ip, AddrPos(k)) == ip.addrs[k]
  {
  }

  /** A free block marked and recorded at position q, given what that does to trees, data and marks. */
  lemma AllocExtends(b0: seq<Block>, b1: seq<Block>, inodes: seq<Inode>, b2: seq<Block>, inodes': seq<Inode>,
                     lay: Layout, owner: Owner, i: nat, q: Pos, b: nat, p: Pos)
    requires ValidInodes(inodes) && Sound(b2, inodes', lay, owner) && i < |inodes| && ValidPos(q)
      && Addr(b0, inodes[i], q) == 0
    requires ValidLayout(b0, lay) && 0 < b && FirstFree(b0, lay, b) && b1 == WithMark(b0, lay, b, true)
    requires SameTrees(b0, b1, inodes) && SameData(b0, b1, inodes)
    requires Installed(b1, inodes, b2, inodes', i, q, b) && SameData(b1, b2, inodes)
    requires IsData(q) ==> b2[b] == ZeroBlock() && q == p
    requires inodes' == inodes[i := inodes[i].(addrs := inodes'[i].addrs)]
    requires |b2| == |b1| && forall c :: 0 <= c < |b1| ==> Marked(b2, lay, c) == Marked(b1, lay, c)
    ensures Extends(b0, inodes, b2, inodes', lay, owner, i, p, {q})
  {
    assert Grew(b0, inodes, b2, inodes', i, p) by { AllocGrew(b0, b1, inodes, b2, inodes', i, q, b, p); }
    assert Spent(b0, inodes, b2, inodes', lay, i, {q}) by { AllocSpent(b0, b1, inodes, b2, inodes', lay, i, q, b); }
  }

  /** balloc followed by storing the block as address k of the inode. */
  lemma AllocAddrStep(b0: seq<Block>, inodes: seq<Inode>, lay: Layout, owner: Owner, i: nat, k: nat, b: nat,
                      b1: seq<Block>, inodes': seq<Inode>, p: Pos)
    requires Sound(b0, inodes, lay, owner) && i < |inodes| && k < NADDRS && inodes[i].addrs[k] == 0
    requires ValidPos(p) && IsData(p) && (k < NDIRECT ==> p == Direct(k))
    requires FirstFree(b0, lay, b) && b1 == WithMark(b0, lay, b, true)
    requires inodes' == inodes[i := inodes[i].(addrs := inodes[i].addrs[k := b])]
    ensures Extends(b0, inodes, b1, inodes', lay, owner[b := Place(i, AddrPos(k))], i, p, {AddrPos(k)})
    ensures b != 0
  {
    AddrAt(b0, inodes[i], k);
    MarkFree(b0, inodes, lay, owner, b, b1);
    InstallAddr(b1, inodes, lay, owner, i, k, b, inodes');
    AllocExtends(b0, b1, inodes, b1, inodes', lay, owner[b := Place(i, AddrPos(k))], i, AddrPos(k), b, p);
  }

  /** balloc followed by storing the block in entry l of the root block. */
  lemma AllocMidStep(b0: seq<Block>, inodes: seq<Inode>, lay: Layout, owner: Owner, i: nat, l: nat, b: nat, root: nat,
                     b1: seq<Block>, v: Block, p: Pos)
    requires Sound(b0, inodes, lay, owner) && i < |inodes| && l < WORDS && root == inodes[i].addrs[INDIRECT] != 0
    requires Addr(b0, inodes[i], Mid(l)) == 0 && ValidPos(p) && IsData(p)
    requires FirstFree(b0, lay, b) && b1 == WithMark(b0, lay, b, true)
    requires root < |b1| && OneWord(b1[root], v, l, b)
    ensures Extends(b0, inodes, b1[root := v], inodes, lay, owner[b := Place(i, Mid(l))], i, p, {Mid(l)})
  {
    var b2 := b1[root := v];
    MarkFree(b0, inodes, lay, owner, b, b1);
    Apart(b1, inodes, lay, owner, i, Root, root);
    assert Addr(b1, inodes[i], Mid(l)) == 0;
    InstallMid(b1, inodes, lay, owner, i, l, b, root, v);
    DataChangeKeepsMarks(b1, lay, root, v);
    AllocExtends(b0, b1, inodes, b2, inodes, lay, owner[b := Place(i, Mid(l))], i, Mid(l), b, p);
  }

  /** balloc followed by storing the block in entry k of the second-level block mid. */
  lemma AllocLeafStep(b0: seq<Block>, inodes: seq<Inode>, lay: Layout, owner: Owner, i: nat, l: nat, k: nat, b: nat,
                      mid: nat, b1: seq<Block>, v: Block)
    requires Sound(b0, inodes, lay, owner) && i < |inodes| && l < WORDS && k < WORDS
    requires mid == Addr(b0, inodes[i], Mid(l)) != 0 && Addr(b0, inodes[i], Leaf(l, k)) == 0
    requires FirstFree(b0, lay, b) && b1 == WithMark(b0, lay, b, true)
    requires mid < |b1| && OneWord(b1[mid], v, k, b)
    ensures Extends(b0, inodes, b1[mid := v], inodes, lay, owner[b := Place(i, Leaf(l, k))], i, Leaf(l, k),
      {Leaf(l, k)})
  {
    var b2 := b1[mid := v];
    MarkFree(b0, inodes, lay, owner, b, b1);
    assert Addr(b1, inodes[i], Mid(l)) == mid && Addr(b1, inodes[i], Leaf(l, k)) == 0;
    Apart(b1, inodes, lay, owner, i, Mid(l), mid);
    InstallLeaf(b1, inodes, lay, owner, i, l, k, b, mid, v);
    DataChangeKeepsMarks(b1, lay, mid, v);
    AllocExtends(b0, b1, inodes, b2, inodes, lay, owner[b := Place(i, Leaf(l, k))], i, Leaf(l, k), b, Leaf(l, k));
  }

  /** A stretch of one block is a stretch of the file. */
  lemma ChunkRead(blocks: seq<Block>, ip: Inode, off: nat, m: nat, a: nat)
    requires ValidInode(ip) && off + m <= ip.size && off < ip.size && off % BSIZE + m <= BSIZE
    requires a == Addr(blocks, ip, DataPos(off / BSIZE)) && 0 < a < |blocks|
    ensures blocks[a][off % BSIZE..off % BSIZE + m] == Contents(blocks, ip)[off..off + m]
  {
    var s, c := blocks[a][off % BSIZE..off % BSIZE + m], Contents(blocks, ip)[off..off + m];
    forall t | 0 <= t < m ensures s[t] == c[t] {
      assert (off + t) / BSIZE == off / BSIZE && (off + t) % BSIZE == off % BSIZE + t;
    }
  }

  lemma Joins<T>(s: seq<T>, a: nat, b: nat, c: nat, left: seq<T>, right: seq<T>)
    requires a <= b <= c <= |s| && left == s[a..b] && right == s[b..c]
    ensures left + right == s[a..c]
  {
  }

  /** A block with the bytes from at on replaced by data[lo..hi]. */
  function Patch(bp: Block, at: nat, data: seq<Byte>, lo: nat, hi: nat): (v: Block)
    requires lo <= hi <= |data| && at + (hi - lo) <= BSIZE
    ensures Patched(bp, v, at, data, lo, hi)
  {
    bp[..at] + data[lo..hi] + bp[at + (hi - lo)..]
  }

  /** The new bytes go to the block bmap returned. */
  lemma ChunkStep(b0: seq<Block>, i0: seq<Inode>, b1: seq<Block>, i1: seq<Inode>, lay: Layout, owner: Owner,
                  i: nat, off: nat, data: seq<Byte>, lo: nat, hi: nat, bn: nat, x: nat, v: Block)
    requires ValidInodes(i0) && Sound(b1, i1, lay, owner) && lo < hi <= |data|
    requires bn == (off + lo) / BSIZE < MAXFILE && (off + lo) % BSIZE + (hi - lo) <= BSIZE
    requires Grew(b0, i0, b1, i1, i, DataPos(bn))
    requires Addr(b0, i0[i], DataPos(bn)) != 0 ==> i1 == i0
    requires x == Addr(b1, i1[i], DataPos(bn)) && 0 < x < |b1| && Patched(b1[x], v, (off + lo) % BSIZE, data, lo, hi)
    ensures Sound(b1[x := v], i1, lay, owner)
    ensures Wrote(b0, i0, b1[x := v], i1, i, off, data, lo, hi)
  {
    DataWrite(b1, i1, lay, owner, i, DataPos(bn), x, v);
    WroteChunk(b0, i0, b1, i1, i, off, data, lo, hi, bn, x, v);
  }

  /** Those bytes take no block. */
  lemma ChunkSpent(b0: seq<Block>, i0: seq<Inode>, b1: seq<Block>, i1: seq<Inode>, lay: Layout, owner: Owner,
                   i: nat, bn: nat, x: nat, v: Block)
    requires Sound(b1, i1, lay, owner) && bn < MAXFILE && Spent(b0, i0, b1, i1, lay, i, Path(bn))
    requires x == Addr(b1, i1[i], DataPos(bn)) && 0 < x < |b1|
    ensures Spent(b0, i0, b1[x := v], i1, lay, i, Path(bn))
  {
    DataWrite(b1, i1, lay, owner, i, DataPos(bn), x, v);
    Apart(b1, i1, lay, owner, i, DataPos(bn), x);
    DataChangeKeepsMarks(b1, lay, x, v);
    SpentThenWrote(b0, i0, b1, i1, b1[x := v], lay, i, Path(bn));
  }

  /** No file has anything but zeros past its end. */
  ghost predicate ZeroTails(blocks: seq<Block>, inodes: seq<Inode>)
    requires ValidInodes(inodes)
  {
    forall i :: 0 <= i < |inodes| ==> ZeroTail(blocks, inodes[i])
  }

  /** A larger size changes no tree. */
  lemma ResizeSound(blocks: seq<Block>, inodes: seq<Inode>, lay: Layout, owner: Owner, i: nat, size: nat)
    requires Sound(blocks, inodes, lay, owner) && i < |inodes| && size <= MAXBYTES
    ensures Sound(blocks, inodes[i := inodes[i].(size := size)], lay, owner)
  {
    var inodes' := inodes[i := inodes[i].(size := size)];
    forall j, q | 0 <= j < |inodes| && ValidPos(q) ensures Addr(blocks, inodes'[j], q) == Addr(blocks, inodes[j], q) { }
    forall j, q | 0 <= j < |inodes'| && ValidPos(q) && Addr(blocks, inodes'[j], q) != 0
      ensures OwnedBy(blocks, lay, owner, Addr(blocks, inodes'[j], q), j, q)
    {
      assert OwnedBy(blocks, lay, owner, Addr(blocks, inodes[j], q), j, q);
    }
  }

  /** A write to one file leaves the others as gap free as they were. */
  lemma OthersKept(b0: seq<Block>, i0: seq<Inode>, b1: seq<Block>, i1: seq<Inode>, i: nat, off: nat, data: seq<Byte>,
                   j: nat)
    requires ValidInodes(i0) && ValidInodes(i1) && Wrote(b0, i0, b1, i1, i, off, data, 0, |data|)
    requires j < |i0| && j != i
    ensures Tight(b1, i1[j]) <==> Tight(b0, i0[j])
    ensures ZeroTail(b0, i0[j]) ==> ZeroTail(b1, i1[j])
  {
    forall bn | 0 <= bn < MAXFILE ensures Addr(b1, i1[j], DataPos(bn)) != 0 <==> Addr(b0, i0[j], DataPos(bn)) != 0 { }
    if ZeroTail(b0, i0[j]) {
      forall k | i1[j].size <= k < MAXBYTES ensures Raw(b1, i1[j], k) == 0 {
        assert Raw(b1, i1[j], k) == Raw(b0, i0[j], k);
      }
    }
  }

  /** The end of writei: the contents of all files and the zeros past their ends. */
  lemma WriteiEnds(b0: seq<Block>, i0: seq<Inode>, b1: seq<Block>, i1: seq<Inode>, i2: seq<Inode>, lay: Layout,
                   owner: Owner, i: nat, off: nat, data: seq<Byte>)
    requires ValidInodes(i0) && ZeroTails(b0, i0) && Sound(b1, i1, lay, owner)
    requires off + |data| <= MAXBYTES && Wrote(b0, i0, b1, i1, i, off, data, 0, |data|)
    requires i2 == i1[i := i1[i].(size := if data != [] && off + |data| > i0[i].size then off + |data| else i0[i].size)]
    ensures Sound(b1, i2, lay, owner) && ZeroTails(b1, i2)
    ensures Contents(b1, i2[i]) == Overwrite(Contents(b0, i0[i]), off, data)
    ensures forall j :: 0 <= j < |i0| && j != i ==> i2[j] == i0[j] && Contents(b1, i2[j]) == Contents(b0, i0[j])
  {
    ResizeSound(b1, i1, lay, owner, i, i2[i].size);
    WroteContents(b0, i0, b1, i1, i2, i, off, data);
    forall j | 0 <= j < |i0| && j != i ensures ZeroTail(b1, i2[j]) {
      OthersKept(b0, i0, b1, i1, i, off, data, j);
    }
  }

  /** Which files are gap free then, and whether the disk inode is still the in-memory one. */
  lemma WriteiGaps(b0: seq<Block>, i0: seq<Inode>, b1: seq<Block>, i1: seq<Inode>, i2: seq<Inode>, i: nat, off: nat,
                   data: seq<Byte>)
    requires ValidInodes(i0) && ValidInodes(i1) && ValidInodes(i2)
    requires off + |data| <= MAXBYTES && Wrote(b0, i0, b1, i1, i, off, data, 0, |data|)
    requires i2 == i1[i := i1[i].(size := if data != [] && off + |data| > i0[i].size then off + |data| else i0[i].size)]
    ensures forall j :: 0 <= j < |i0| && j != i ==> (Tight(b1, i2[j]) <==> Tight(b0, i0[j]))
    ensures Tight(b0, i0[i]) ==> (Tight(b1, i2[i]) <==> data == [] || off < RoundUp(i0[i].size) + BSIZE)
    ensures Tight(b0, i0[i]) && i2[i].size == i0[i].size ==> i2 == i0
  {
    forall j | 0 <= j < |i0| && j != i ensures Tight(b1, i2[j]) <==> Tight(b0, i0[j]) {
      OthersKept(b0, i0, b1, i1, i, off, data, j);
    }
    if data == [] {
      assert AllMapped(b0, i0[i], off, off);
      forall bn | 0 <= bn < MAXFILE ensures Addr(b1, i2[i], DataPos(bn)) != 0 <==> Addr(b0, i0[i], DataPos(bn)) != 0 {
        assert Addr(b1, i1[i], DataPos(bn)) != 0 <==> Addr(b0, i0[i], DataPos(bn)) != 0;
      }
    } else if Tight(b0, i0[i]) {
      WroteTight(b0, i0, b1, i1, i, off, data, i2[i]);
    }
  }

  /** data[..tot] has been written at off into the blocks of inode i, which paid for the blocks it lacked. */
  ghost predicate Writes(s: Store, t: Store, lay: Layout, i: nat, off: nat, data: seq<Byte>, tot: nat) {
    && ValidInodes(s.inodes) && Sound(t.blocks, t.inodes, lay, t.owner) && tot <= |data| && off + tot <= MAXBYTES
    && Wrote(s.blocks, s.inodes, t.blocks, t.inodes, i, off, data, 0, tot)
    && Spent(s.blocks, s.inodes, t.blocks, t.inodes, lay, i, BytePaths(off, tot))
  }

  lemma WritesNone(s: Store, lay: Layout, i: nat, off: nat, data: seq<Byte>)
    requires Sound(s.blocks, s.inodes, lay, s.owner) && i < |s.inodes| && off <= MAXBYTES
    ensures Writes(s, s, lay, i, off, data, 0)
  {
    TookNone(s.blocks, s.inodes[i], lay, {});
  }

  /** data[lo..hi], which falls in block bn, has been written. */
  ghost predicate WritesChunk(s: Store, t: Store, lay: Layout, i: nat, off: nat, data: seq<Byte>, lo: nat, hi: nat,
                              bn: nat) {
    && ValidInodes(s.inodes) && Sound(t.blocks, t.inodes, lay, t.owner) && bn < MAXFILE
    && Wrote(s.blocks, s.inodes, t.blocks, t.inodes, i, off, data, lo, hi)
    && Spent(s.blocks, s.inodes, t.blocks, t.inodes, lay, i, Path(bn))
  }

  /** Block bn has been mapped, then the bytes are put in it. */
  lemma ChunkWritten(s: Store, t: Store, lay: Layout, i: nat, off: nat, data: seq<Byte>, lo: nat, hi: nat, bn: nat,
                     x: nat, v: Block)
    requires lo < hi <= |data| && bn == (off + lo) / BSIZE < MAXFILE && (off + lo) % BSIZE + (hi - lo) <= BSIZE
    requires i < |s.inodes| && ValidInodes(s.inodes) && (Lacks(s, i, Path(bn)) == 0 ==> t == s)
    requires Extends(s.blocks, s.inodes, t.blocks, t.inodes, lay, t.owner, i, DataPos(bn), Path(bn))
    requires x == Addr(t.blocks, t.inodes[i], DataPos(bn)) && 0 < x < |t.blocks|
    requires Patched(t.blocks[x], v, (off + lo) % BSIZE, data, lo, hi)
    ensures WritesChunk(s, t.(blocks := t.blocks[x := v]), lay, i, off, data, lo, hi, bn)
  {
    if Addr(s.blocks, s.inodes[i], DataPos(bn)) != 0 { PathFull(s.blocks, s.inodes[i], bn); }
    ChunkStep(s.blocks, s.inodes, t.blocks, t.inodes, lay, t.owner, i, off, data, lo, hi, bn, x, v);
    ChunkSpent(s.blocks, s.inodes, t.blocks, t.inodes, lay, t.owner, i, bn, x, v);
  }

  lemma WritesMore(s: Store, t: Store, u: Store, lay: Layout, i: nat, off: nat, data: seq<Byte>, tot: nat, more: nat,
                   bn: nat)
    requires tot < more <= |data| && off + more <= MAXBYTES
    requires bn == (off + tot) / BSIZE && (off + tot) % BSIZE + (more - tot) <= BSIZE
    requires Writes(s, t, lay, i, off, data, tot) && WritesChunk(t, u, lay, i, off, data, tot, more, bn)
    ensures Writes(s, u, lay, i, off, data, more)
  {
    WroteTrans(s.blocks, s.inodes, t.blocks, t.inodes, u.blocks, u.inodes, i, off, data, 0, tot, more);
    SpentNext(s.blocks, s.inodes, t.blocks, t.inodes, u.blocks, u.inodes, lay, i, off, tot, more, bn);
  }

  /**
   writei of data at off to file i.  Its bytes from off on are data, with zeros in a
   gap before them; every other file is the same; and a file without gaps stays so
   iff the write starts no later than one block after its last one.
   */
  ghost predicate Written(s: Store, t: Store, i: nat, off: nat, data: seq<Byte>)
    requires ValidInodes(s.inodes) && ValidInodes(t.inodes)
  {
    && |t.inodes| == |s.inodes| && i < |s.inodes|
    && Contents(t.blocks, t.inodes[i]) == Overwrite(Contents(s.blocks, s.inodes[i]), off, data)
    && (forall j :: 0 <= j < |s.inodes| && j != i ==>
         t.inodes[j] == s.inodes[j] && Contents(t.blocks, t.inodes[j]) == Contents(s.blocks, s.inodes[j]))
    && (forall j :: 0 <= j < |s.inodes| && j != i ==> (Tight(t.blocks, t.inodes[j]) <==> Tight(s.blocks, s.inodes[j])))
    && (Tight(s.blocks, s.inodes[i]) ==>
         (Tight(t.blocks, t.inodes[i]) <==> data == [] || off < RoundUp(s.inodes[i].size) + BSIZE))
  }

  /** The size of a file after n bytes are written at off. */
  function NewSize(size: nat, off: nat, n: nat): (r: nat)
    ensures off == size ==> r == size + n
  {
    if n > 0 && off + n > size then off + n else size
  }

  /** The end of writei: the size is set if the file has grown. */
  ghost predicate Resized(s: Store, t: Store, u: Store, i: nat, off: nat, n: nat) {
    && i < |s.inodes| == |t.inodes|
    && u == t.(inodes := t.inodes[i := t.inodes[i].(size := NewSize(s.inodes[i].size, off, n))])
  }

  /** A write records blocks past the disk's end iff it lacks more than the disk has free. */
  lemma RecordsPastIff(s: Store, t: Store, u: Store, lay: Layout, i: nat, off: nat, data: seq<Byte>)
    requires Writes(s, t, lay, i, off, data, |data|) && Resized(s, t, u, i, off, |data|)
    ensures ValidInodes(u.inodes)
    ensures RecordsFrom(s.blocks, s.inodes[i], u.blocks, u.inodes[i], lay.size) <==>
      Need(s.blocks, s.inodes[i], off, |data|) > FreeBelow(s.blocks, lay, lay.size)
  {
    var b0, ip0, b1, ip1, ip2 := s.blocks, s.inodes[i], t.blocks, t.inodes[i], u.inodes[i];
    RecordsFromIff(b0, ip0, b1, ip1, lay, BytePaths(off, |data|), lay.size);
    forall q, a ensures NewAt(b0, ip0, b1, ip2, q, a) <==> NewAt(b0, ip0, b1, ip1, q, a) {
      if ValidPos(q) { assert Addr(b1, ip2, q) == Addr(b1, ip1, q); }
    }
  }

  lemma WritesThenSize(s: Store, t: Store, u: Store, lay: Layout, i: nat, off: nat, data: seq<Byte>)
    requires Writes(s, t, lay, i, off, data, |data|) && ZeroTails(s.blocks, s.inodes)
      && Resized(s, t, u, i, off, |data|)
    ensures Sound(u.blocks, u.inodes, lay, u.owner) && ZeroTails(u.blocks, u.inodes)
    ensures Written(s, u, i, off, data)
    ensures Tight(s.blocks, s.inodes[i]) && u.inodes[i].size == s.inodes[i].size ==> u.inodes == s.inodes
    ensures RecordsFrom(s.blocks, s.inodes[i], u.blocks, u.inodes[i], lay.size) <==>
      Need(s.blocks, s.inodes[i], off, |data|) > FreeBelow(s.blocks, lay, lay.size)
  {
    RecordsPastIff(s, t, u, lay, i, off, data);
    WriteiEnds(s.blocks, s.inodes, t.blocks, t.inodes, u.inodes, lay, t.owner, i, off, data);
    WriteiGaps(s.blocks, s.inodes, t.blocks, t.inodes, u.inodes, i, off, data);
  }

  /** A file's data addresses and bytes are the same in two stores. */
  ghost predicate SameFile(blocks: seq<Block>, blocks': seq<Block>, ip: Inode)
    requires ValidInode(ip)
  {
    && (forall bn {:trigger DataPos(bn)} :: 0 <= bn < MAXFILE ==>
         Addr(blocks', ip, DataPos(bn)) == Addr(blocks, ip, DataPos(bn)))
    && (forall k {:trigger Raw(blocks', ip, k)} :: 0 <= k < MAXBYTES ==> Raw(blocks', ip, k) == Raw(blocks, ip, k))
  }

  lemma KeptFile(blocks: seq<Block>, blocks': seq<Block>, ip: Inode)
    requires ValidInode(ip) && ZeroTail(blocks, ip) && SameFile(blocks, blocks', ip)
    ensures ZeroTail(blocks', ip) && Contents(blocks', ip) == Contents(blocks, ip)
    ensures Tight(blocks', ip) <==> Tight(blocks, ip)
  {
    forall k | ip.size <= k < MAXBYTES ensures Raw(blocks', ip, k) == 0 {
      assert Raw(blocks, ip, k) == 0;
    }
  }

  lemma EmptyInode(blocks: seq<Block>, ip: Inode)
    requires ValidInode(ip) && ip.size == 0 && forall e :: 0 <= e < NADDRS ==> ip.addrs[e] == 0
    ensures Tight(blocks, ip) && ZeroTail(blocks, ip)
  {
  }

  /** bfree of direct block d of inode i, with the address cleared. */
  lemma FreeStep(b0: seq<Block>, i0: seq<Inode>, lay: Layout, owner: Owner, i: nat, d: nat, b: nat, b2: seq<Block>,
                 i2: seq<Inode>)
    requires Sound(b0, i0, lay, owner) && i < |i0| && d < NDIRECT && b == i0[i].addrs[d] != 0
    requires lay.data <= b < |b0| && b2 == WithMark(b0[b := ZeroBlock()], lay, b, false)
    requires i2 == i0[i := i0[i].(addrs := i0[i].addrs[d := 0])]
    ensures Sound(b2, i2, lay, owner)
    ensures forall j :: 0 <= j < |i0| && j != i ==> SameFile(b0, b2, i0[j])
  {
    var b1 := b0[b := ZeroBlock()];
    ZeroData(b0, i0, lay, owner, i, d, b);
    FreeDirectSound(b1, i0, lay, owner, i, d, b, b2, i2);
    forall j | 0 <= j < |i0| && j != i ensures SameFile(b0, b2, i0[j]) {
      forall q | ValidPos(q) && IsData(q)
        ensures Addr(b2, i0[j], q) == Addr(b0, i0[j], q)
        ensures var a := Addr(b0, i0[j], q); 0 < a < |b0| ==> b2[a] == b0[a]
      {
        assert Addr(b2, i2[j], q) == Addr(b1, i0[j], q) == Addr(b0, i0[j], q);
      }
    }
  }

  class FileSystem {
    const lay: Layout
    var blocks: seq<Block>       // the logical blocks: bread and bwrite
    var inodes: seq<Inode>       // the in-memory inodes
    var dinodes: seq<Inode>      // the inode blocks
    ghost var owner: Owner

    ghost predicate Safe()
      reads this
    {
      Sound(blocks, inodes, lay, owner) && |dinodes| == |inodes|
    }

    ghost predicate Valid()
      reads this
    {
      Safe() && ZeroTails(blocks, inodes)
    }

    ghost function State(): (s: Store)
      reads this
    {
      Store(blocks, inodes, owner)
    }

    /** The kernel starts on a disk whose inodes it has read. */
    constructor (lay: Layout, blocks: seq<Block>, dinodes: seq<Inode>, ghost owner: Owner)
      requires Sound(blocks, dinodes, lay, owner) && ZeroTails(blocks, dinodes)
      ensures Valid() && this.lay == lay && this.blocks == blocks && this.owner == owner
      ensures inodes == dinodes && this.dinodes == dinodes
    {
      this.lay := lay;
      this.blocks := blocks;
      this.inodes := dinodes;
      this.dinodes := dinodes;
      this.owner := owner;
    }

    /** balloc's inner loop: the first free block among those that one bitmap block describes. */
    method FreeBit(b: nat) returns (bi: nat)
      requires ValidLayout(blocks, lay) && b % BPB == 0 && b < |blocks|
      ensures bi <= BPB && b + BPB <= |blocks|
      ensures forall c :: b <= c < b + bi ==> Marked(blocks, lay, c)
      ensures bi < BPB ==> !Marked(blocks, lay, b + bi)
    {
      var bp := blocks[BitmapBlockOf(lay, b)];
      bi := 0;
      while bi < BPB
        invariant 0 <= bi <= BPB
        invariant forall c :: b <= c < b + bi ==> Marked(blocks, lay, c)
      {
        assert (b + bi) / BPB == b / BPB && (b + bi) % BPB == bi;
        if !BlockBit(bp, bi) { return; }
        bi := bi + 1;
      }
    }

    /** balloc's search, bitmap block by bitmap block. */
    method FindFree() returns (r: Option<nat>)
      requires ValidLayout(blocks, lay)
      ensures r == None <==> forall b :: 0 <= b < |blocks| ==> Marked(blocks, lay, b)
      ensures r.Some? ==> FirstFree(blocks, lay, r.value)
    {
      var b := 0;
      while b < lay.size
        invariant b % BPB == 0 && b <= |blocks|
        invariant forall c :: 0 <= c < b ==> Marked(blocks, lay, c)
      {
        var bi := FreeBit(b);
        if bi < BPB {
          return Some(b + bi);
        }
        b := b + BPB;
      }
      ScannedAll(lay, b);
      r := None;
    }

    /** balloc: the lowest free block; None for its panics, no free block and block 1 free. */
    method Balloc() returns (r: Option<nat>)
      requires ValidLayout(blocks, lay)
      modifies `blocks
      ensures ValidLayout(blocks, lay)
      ensures r == None <==>
        (forall b :: 0 <= b < |blocks| ==> Marked(old(blocks), lay, b)) || FirstFree(old(blocks), lay, 1)
      ensures r.Some? ==> FirstFree(old(blocks), lay, r.value) && blocks == WithMark(old(blocks), lay, r.value, true)
      // the result is a block of the disk iff the disk has a free block
      ensures r.Some? ==> (r.value < lay.size <==> exists c :: 0 <= c < lay.size && !Marked(old(blocks), lay, c))
    {
      r := FindFree();
      if r.Some? {
        var bb := BitmapBlockOf(lay, r.value);
        BitmapBlockInRange(blocks, lay, r.value);
        blocks := blocks[bb := WithBit(blocks[bb], r.value % BPB, true)];
        if r.value == 1 {
          return None;
        }
      }
    }

    /** balloc in a sound store: it fails iff no block is free. */
    method TakeFree() returns (r: Option<nat>)
      requires Safe()
      modifies `blocks
      ensures r.Some? <==> Free(old(blocks), lay) > 0
      ensures r.Some? ==> FirstFree(old(blocks), lay, r.value)
      ensures r.Some? ==> blocks == WithMark(old(blocks), lay, r.value, true)
    {
      BallocSucceedsIff(blocks, inodes, lay, owner);
      r := Balloc();
    }

    /** bmap's `ip->addrs[k] = balloc(ip->dev)` for an empty address. */
    method AllocAddr(i: nat, k: nat, ghost p: Pos) returns (ok: bool)
      requires Safe() && i < |inodes| && k < NADDRS && inodes[i].addrs[k] == 0
      requires ValidPos(p) && IsData(p) && (k < NDIRECT ==> p == Direct(k))
      modifies `blocks, `inodes, `owner
      ensures ok <==> Free(old(blocks), lay) > 0
      ensures ok ==> Extends(old(blocks), old(inodes), blocks, inodes, lay, owner, i, p, {AddrPos(k)})
    {
      var r := TakeFree();
      if r == None {
        return false;
      }
      var b := r.value;
      inodes := inodes[i := inodes[i].(addrs := inodes[i].addrs[k := b])];
      AllocAddrStep(old(blocks), old(inodes), lay, owner, i, k, b, blocks, inodes, p);
      owner := owner[b := Place(i, AddrPos(k))];
      ok := true;
    }

    /** bmap's allocation of a second-level block in an empty entry of the root. */
    method AllocMid(i: nat, l: nat, ghost p: Pos) returns (ok: bool)
      requires Safe() && i < |inodes| && l < WORDS && inodes[i].addrs[INDIRECT] != 0
      requires Addr(blocks, inodes[i], Mid(l)) == 0 && ValidPos(p) && IsData(p)
      modifies `blocks, `owner
      ensures ok <==> Free(old(blocks), lay) > 0
      ensures ok ==> Extends(old(blocks), inodes, blocks, inodes, lay, owner, i, p, {Mid(l)})
    {
      Apart(blocks, inodes, lay, owner, i, Root, inodes[i].addrs[INDIRECT]);
      var r := TakeFree();
      if r == None {
        return false;
      }
      var b, root := r.value, inodes[i].addrs[INDIRECT];
      var v := PutEntry(blocks[root], l, b);
      AllocMidStep(old(blocks), inodes, lay, owner, i, l, b, root, blocks, v, p);
      blocks := blocks[root := v];
      owner := owner[b := Place(i, Mid(l))];
      ok := true;
    }

    /** bmap's allocation of a data block in an empty entry of the second-level block mid. */
    method AllocLeaf(i: nat, l: nat, k: nat, mid: nat) returns (ok: bool)
      requires Safe() && i < |inodes| && l < WORDS && k < WORDS
      requires mid == Addr(blocks, inodes[i], Mid(l)) != 0 && Addr(blocks, inodes[i], Leaf(l, k)) == 0
      modifies `blocks, `owner
      ensures ok <==> Free(old(blocks), lay) > 0
      ensures ok ==> Extends(old(blocks), inodes, blocks, inodes, lay, owner, i, Leaf(l, k), {Leaf(l, k)})
    {
      Apart(blocks, inodes, lay, owner, i, Mid(l), mid);
      var r := TakeFree();
      if r == None {
        return false;
      }
      var b := r.value;
      var v := PutEntry(blocks[mid], k, b);
      AllocLeafStep(old(blocks), inodes, lay, owner, i, l, k, b, mid, blocks, v);
      blocks := blocks[mid := v];
      owner := owner[b := Place(i, Leaf(l, k))];
      ok := true;
    }

    /** bmap's first level: the root block, allocated if there is none. */
    method MapRoot(i: nat, ghost p: Pos, alloc: bool) returns (r: Mapping)
      requires Safe() && i < |inodes| && ValidPos(p) && p.Leaf?
      modifies `blocks, `inodes, `owner
      ensures Maps(old(State()), State(), lay, Free(old(blocks), lay), i, p, {Root}, Root, alloc, r)
    {
      r := Missing;
      if inodes[i].addrs[INDIRECT] != 0 {
        r := Mapped(inodes[i].addrs[INDIRECT]);
      } else if alloc {
        var ok := AllocAddr(i, INDIRECT, p);
        r := if ok then Mapped(inodes[i].addrs[INDIRECT]) else MapPanic;
      }
      MapsOne(old(State()), State(), lay, Free(old(blocks), lay), i, p, Root, alloc, r);
    }

    /** bmap's second level: the block in entry l of the root, allocated if there is none. */
    method MapMid(i: nat, l: nat, ghost p: Pos, alloc: bool) returns (r: Mapping)
      requires Safe() && i < |inodes| && l < WORDS && inodes[i].addrs[INDIRECT] != 0 && ValidPos(p) && p.Leaf?
      modifies `blocks, `owner
      ensures Maps(old(State()), State(), lay, Free(old(blocks), lay), i, p, {Mid(l)}, Mid(l), alloc, r)
    {
      r := Missing;
      var addr := Addr(blocks, inodes[i], Mid(l));
      if addr != 0 {
        r := Mapped(addr);
      } else if alloc {
        var ok := AllocMid(i, l, p);
        r := if ok then Mapped(Addr(blocks, inodes[i], Mid(l))) else MapPanic;
      }
      MapsOne(old(State()), State(), lay, Free(old(blocks), lay), i, p, Mid(l), alloc, r);
    }

    /** bmap's third level: the data block in entry k of a second-level block, allocated if there is none. */
    method MapLeaf(i: nat, l: nat, k: nat, mid: nat, alloc: bool) returns (r: Mapping)
      requires Safe() && i < |inodes| && l < WORDS && k < WORDS && mid == Addr(blocks, inodes[i], Mid(l)) != 0
      modifies `blocks, `owner
      ensures Maps(old(State()), State(), lay, Free(old(blocks), lay), i, Leaf(l, k), {Leaf(l, k)}, Leaf(l, k),
        alloc, r)
    {
      r := Missing;
      var addr := Entry(blocks, mid, k);
      if addr != 0 {
        r := Mapped(addr);
      } else if alloc {
        var ok := AllocLeaf(i, l, k, mid);
        r := if ok then Mapped(Addr(blocks, inodes[i], Leaf(l, k))) else MapPanic;
      }
      MapsOne(old(State()), State(), lay, Free(old(blocks), lay), i, Leaf(l, k), Leaf(l, k), alloc, r);
    }

    /** bmap below the root block: second level and data block. */
    method MapUnder(i: nat, l: nat, k: nat, alloc: bool) returns (r: Mapping)
      requires Safe() && i < |inodes| && l < WORDS && k < WORDS && inodes[i].addrs[INDIRECT] != 0
      modifies `blocks, `owner
      ensures Maps(old(State()), State(), lay, Free(old(blocks), lay), i, Leaf(l, k), {Mid(l)} + {Leaf(l, k)},
        Leaf(l, k), alloc, r)
    {
      ghost var p, s := Leaf(l, k), State();
      var m := MapMid(i, l, p, alloc);
      ghost var t := State();
      if !m.Mapped? {
        MapsNot(s, t, lay, Free(s.blocks, lay), i, p, {Mid(l)}, {p}, Mid(l), p, alloc, m);
        return m;
      }
      r := MapLeaf(i, l, k, m.addr, alloc);
      MapsThen(s, t, State(), lay, Free(s.blocks, lay), Free(t.blocks, lay), i, p, {Mid(l)}, {p}, Mid(l), p, alloc,
        m, r);
    }

    /** bmap for a block in the doubly-indirect tree: root, second level, data block. */
    method BmapIndirect(i: nat, l: nat, k: nat, alloc: bool) returns (r: Mapping)
      requires Safe() && i < |inodes| && l < WORDS && k < WORDS
      modifies `blocks, `inodes, `owner
      ensures Maps(old(State()), State(), lay, Free(old(blocks), lay), i, Leaf(l, k),
        {Root} + ({Mid(l)} + {Leaf(l, k)}), Leaf(l, k), alloc, r)
    {
      ghost var p, s, under := Leaf(l, k), State(), {Mid(l)} + {Leaf(l, k)};
      var m := MapRoot(i, p, alloc);
      ghost var t := State();
      if !m.Mapped? {
        MapsNot(s, t, lay, Free(s.blocks, lay), i, p, {Root}, under, Root, p, alloc, m);
        return m;
      }
      r := MapUnder(i, l, k, alloc);
      MapsThen(s, t, State(), lay, Free(s.blocks, lay), Free(t.blocks, lay), i, p, {Root}, under, Root, p, alloc, m, r);
    }

    /** bmap for a block among the direct addresses. */
    method BmapDirect(i: nat, bn: nat, alloc: bool) returns (r: Mapping)
      requires Safe() && i < |inodes| && bn < NDIRECT
      modifies `blocks, `inodes, `owner
      ensures Maps(old(State()), State(), lay, Free(old(blocks), lay), i, Direct(bn), {Direct(bn)}, Direct(bn),
        alloc, r)
    {
      r := Missing;
      if inodes[i].addrs[bn] != 0 {
        r := Mapped(inodes[i].addrs[bn]);
      } else if alloc {
        var ok := AllocAddr(i, bn, Direct(bn));
        r := if ok then Mapped(inodes[i].addrs[bn]) else MapPanic;
      }
      MapsOne(old(State()), State(), lay, Free(old(blocks), lay), i, Direct(bn), Direct(bn), alloc, r);
    }

    /**
     bmap: the address of data block bn of inode i.  With alloc it is mapped if
     it was not, iff there are free blocks for all that is missing on the way; a
     block that is mapped already changes nothing.
     */
    method Bmap(i: nat, bn: nat, alloc: bool) returns (r: Mapping)
      requires Safe() && i < |inodes|
      modifies `blocks, `inodes, `owner
      ensures MAXFILE <= bn ==> r == MapPanic
      ensures bn < MAXFILE ==> Maps(old(State()), State(), lay, Free(old(blocks), lay), i, DataPos(bn), Path(bn),
        DataPos(bn), alloc, r)
      ensures bn < MAXFILE && Addr(old(blocks), old(inodes)[i], DataPos(bn)) != 0 ==> State() == old(State())
    {
      if bn < MAXFILE && Addr(blocks, inodes[i], DataPos(bn)) != 0 { PathFull(blocks, inodes[i], bn); }
      if bn < NDIRECT {
        r := BmapDirect(i, bn, alloc);
      } else if bn - NDIRECT < WORDS * WORDS {
        var n := bn - NDIRECT;
        assert DataPos(bn) == Leaf(n / WORDS, n % WORDS);
        assert Path(bn) == {Root} + ({Mid(n / WORDS)} + {Leaf(n / WORDS, n % WORDS)});
        r := BmapIndirect(i, n / WORDS, n % WORDS, alloc);
      } else {
        r := MapPanic;
      }
    }

    /** readi: bytes [off, off + n) of the file, cut at its end, if the blocks they fall in are mapped. */
    method Readi(i: nat, off: nat, n: nat) returns (r: IoResult, dst: seq<Byte>)
      requires Safe() && i < |inodes| && off < TWO32 && n < TWO32
      requires AllMapped(blocks, inodes[i], off, off + ReadLength(inodes[i].size, off, n))
      ensures inodes[i].kind == T_DEV ==> r == Device
      ensures inodes[i].kind != T_DEV ==>
        if off > inodes[i].size || off + n >= TWO32 then r == Error
        else
          var m := if off + n > inodes[i].size then inodes[i].size - off else n;
          r == Count(m) && dst == Contents(blocks, inodes[i])[off..off + m]
    {
      var ip := inodes[i];
      dst := [];
      if ip.kind == T_DEV {
        return Device, dst;
      }
      if off > ip.size || Overflows(off, n) {
        return Error, dst;
      }
      var m := if off + n > ip.size then ip.size - off else n;
      dst := ReadAll(i, off, m);
      r := Count(m);
    }

    /** readi's loop. */
    method ReadAll(i: nat, off: nat, n: nat) returns (dst: seq<Byte>)
      requires Safe() && i < |inodes| && off + n <= inodes[i].size && AllMapped(blocks, inodes[i], off, off + n)
      ensures dst == Contents(blocks, inodes[i])[off..off + n]
    {
      ghost var c := Contents(blocks, inodes[i]);
      dst := [];
      var tot := 0;
      while tot < n
        invariant 0 <= tot <= n
        invariant dst == c[off..off + tot]
      {
        var m := Chunk(off + tot, n - tot);
        ByteOverlaps(off + tot, off, off + n);
        var bytes := ReadChunk(i, off + tot, m);
        Joins(c, off, off + tot, off + tot + m, dst, bytes);
        dst := dst + bytes;
        tot := tot + m;
      }
    }

    /** readi's loop body: look the block up, copy the bytes out of it. */
    method ReadChunk(i: nat, off: nat, m: nat) returns (bytes: seq<Byte>)
      requires Safe() && i < |inodes| && off < inodes[i].size && off + m <= inodes[i].size && off % BSIZE + m <= BSIZE
      requires Addr(blocks, inodes[i], DataPos(off / BSIZE)) != 0
      ensures bytes == Contents(blocks, inodes[i])[off..off + m]
    {
      var bn := off / BSIZE;
      var bp := Lookup(blocks, inodes[i], bn);
      Apart(blocks, inodes, lay, owner, i, DataPos(bn), bp.addr);
      ChunkRead(blocks, inodes[i], off, m, bp.addr);
      bytes := blocks[bp.addr][off % BSIZE..off % BSIZE + m];
    }

    /** writei's loop body: map the block, put the new bytes in it. */
    method WriteChunk(i: nat, data: seq<Byte>, off: nat, lo: nat, hi: nat, ghost bn: nat) returns (ok: bool)
      requires Safe() && i < |inodes| && lo < hi <= |data|
      requires bn == (off + lo) / BSIZE < MAXFILE && (off + lo) % BSIZE + (hi - lo) <= BSIZE
      modifies `blocks, `inodes, `owner
      ensures ok <==> |Lacking(old(blocks), old(inodes)[i], Path(bn))| <= Free(old(blocks), lay)
      ensures ok ==> WritesChunk(old(State()), State(), lay, i, off, data, lo, hi, bn)
    {
      var r := Bmap(i, (off + lo) / BSIZE, true);
      if r.MapPanic? {
        return false;
      }
      Apart(blocks, inodes, lay, owner, i, DataPos(bn), r.addr);
      var v := Patch(blocks[r.addr], (off + lo) % BSIZE, data, lo, hi);
      ChunkWritten(old(State()), State(), lay, i, off, data, lo, hi, bn, r.addr, v);
      blocks := blocks[r.addr := v];
      ok := true;
    }

    /** iupdate: the in-memory inode goes to its inode block. */
    method Iupdate(i: nat)
      requires i < |inodes| == |dinodes|
      modifies `dinodes
      ensures dinodes == old(dinodes)[i := inodes[i]]
    {
      dinodes := dinodes[i := inodes[i]];
    }

    /** One turn of writei's loop, after tot bytes of data since the state s. */
    method WriteNext(i: nat, data: seq<Byte>, off: nat, tot: nat, ghost s: Store) returns (ok: bool, more: nat)
      requires i < |inodes| == |dinodes| && tot < |data| && off + |data| <= MAXBYTES
        && Writes(s, State(), lay, i, off, data, tot)
      modifies `blocks, `inodes, `owner
      ensures tot < more <= |data|
      ensures ok ==> |inodes| == |old(inodes)| && Writes(s, State(), lay, i, off, data, more)
      ensures !ok ==> Need(s.blocks, s.inodes[i], off, |data|) > Free(s.blocks, lay)
    {
      more := tot + Chunk(off + tot, |data| - tot);
      ghost var t, bn := State(), (off + tot) / BSIZE;
      ok := WriteChunk(i, data, off, tot, more, bn);
      if ok {
        WritesMore(s, t, State(), lay, i, off, data, tot, more, bn);
      } else {
        NoRoom(s.blocks, s.inodes[i], t.blocks, t.inodes[i], lay, off, tot, more, |data|, bn, Free(s.blocks, lay));
      }
    }

    /** writei's loop: the bytes of data, block by block. */
    method WriteAll(i: nat, data: seq<Byte>, off: nat) returns (ok: bool)
      requires Safe() && i < |inodes| && off + |data| <= MAXBYTES
      modifies `blocks, `inodes, `owner
      ensures ok <==> Need(old(blocks), old(inodes)[i], off, |data|) <= Free(old(blocks), lay)
      ensures ok ==> |inodes| == |old(inodes)| && Writes(old(State()), State(), lay, i, off, data, |data|)
    {
      var tot := 0;
      WritesNone(State(), lay, i, off, data);
      while tot < |data|
        invariant 0 <= tot <= |data| && |inodes| == |old(inodes)|
        invariant Writes(old(State()), State(), lay, i, off, data, tot)
      {
        ok, tot := WriteNext(i, data, off, tot, old(State()));
        if !ok {
          return;
        }
      }
      ok := true;
    }

    /** writei from its loop on. */
    method WriteData(i: nat, data: seq<Byte>, off: nat) returns (ok: bool)
      requires Valid() && i < |inodes| && off + |data| <= MAXBYTES
      modifies this
      ensures ok <==> Need(old(blocks), old(inodes)[i], off, |data|) <= Free(old(blocks), lay)
      ensures ok ==> Valid() && Written(old(State()), State(), i, off, data)
      ensures ok ==> dinodes == old(dinodes)[i := dinodes[i]]
      ensures ok && Tight(old(blocks), old(inodes)[i]) && old(dinodes[i] == inodes[i]) ==> dinodes[i] == inodes[i]
      ensures ok ==>
        (RecordsFrom(old(blocks), old(inodes)[i], blocks, inodes[i], lay.size) <==>
         Need(old(blocks), old(inodes)[i], off, |data|) > FreeBelow(old(blocks), lay, lay.size))
    {
      ok := WriteAll(i, data, off);
      if ok {
        ghost var t := State();
        if |data| > 0 && off + |data| > inodes[i].size {
          inodes := inodes[i := inodes[i].(size := off + |data|)];
          Iupdate(i);
        }
        WritesThenSize(old(State()), t, State(), lay, i, off, data);
      }
    }

    /**
     writei: the file's bytes from off on are overwritten by src, cut at the
     largest file size.  It panics iff off is past the largest size or fewer blocks
     are free than the range lacks.  The inode goes to disk only when the file
     grows; for a file without gaps that is enough to keep disk and memory equal.
     Blocks past the end of the disk are mapped iff the range lacks more than the
     disk has free.
     */
    method Writei(i: nat, src: seq<Byte>, off: nat) returns (r: IoResult)
      requires Valid() && i < |inodes| && off < TWO32 && |src| < TWO32
      modifies this
      ensures old(inodes)[i].kind == T_DEV <==> r == Device
      ensures old(inodes)[i].kind != T_DEV && off + |src| >= TWO32 <==> r == Error
      ensures r == Device || r == Error ==> unchanged(this)
      ensures old(inodes)[i].kind != T_DEV && off + |src| < TWO32 ==>
        (r == Panic <==>
         off > MAXBYTES || Need(old(blocks), old(inodes)[i], off, WriteLength(off, |src|)) > Free(old(blocks), lay))
      ensures r.Count? ==> off <= MAXBYTES && r.n == WriteLength(off, |src|)
      ensures r.Count? ==> Valid() && Written(old(State()), State(), i, off, src[..r.n])
      ensures r.Count? ==> dinodes == old(dinodes)[i := dinodes[i]]
      ensures r.Count? && Tight(old(blocks), old(inodes)[i]) && old(dinodes[i] == inodes[i]) ==> dinodes[i] == inodes[i]
      ensures r.Count? ==>
        (RecordsFrom(old(blocks), old(inodes)[i], blocks, inodes[i], lay.size) <==>
         Need(old(blocks), old(inodes)[i], off, r.n) > FreeBelow(old(blocks), lay, lay.size))
    {
      if inodes[i].kind == T_DEV {
        return Device;
      }
      if Overflows(off, |src|) {
        return Error;
      }
      if off > MAXBYTES {
        // n = MAXFILE*BSIZE - off wraps round, and bmap panics on the first block
        return Panic;
      }
      var n := WriteLength(off, |src|);
      var ok := WriteData(i, src[..n], off);
      r := if ok then Count(n) else Panic;
    }

    /** bfree: zero the block, then clear its bit; panics if the bit is clear already. */
    method Bfree(b: nat) returns (ok: bool)
      requires ValidLayout(blocks, lay) && lay.data <= b < |blocks|
      modifies `blocks
      ensures ok <==> Marked(old(blocks), lay, b)
      ensures ok ==> blocks == WithMark(old(blocks)[b := ZeroBlock()], lay, b, false)
    {
      blocks := blocks[b := ZeroBlock()];
      var bb := BitmapBlockOf(lay, b);
      ok := BlockBit(blocks[bb], b % BPB);
      if ok {
        blocks := blocks[bb := WithBit(blocks[bb], b % BPB, false)];
      }
    }

    /** itrunc's loop body for direct address d. */
    method FreeDirect(i: nat, d: nat)
      requires Safe() && i < |inodes| && d < NDIRECT
      modifies `blocks, `inodes
      ensures Safe()
      ensures inodes == old(inodes)[i := old(inodes)[i].(addrs := old(inodes)[i].addrs[d := 0])]
      ensures forall j :: 0 <= j < |inodes| && j != i ==> SameFile(old(blocks), blocks, inodes[j])
    {
      var b := inodes[i].addrs[d];
      if b != 0 {
        ZeroData(blocks, inodes, lay, owner, i, d, b);
        var ok := Bfree(b);
        inodes := inodes[i := inodes[i].(addrs := inodes[i].addrs[d := 0])];
        FreeStep(old(blocks), old(inodes), lay, owner, i, d, b, blocks, inodes);
      } else {
        assert inodes[i].addrs == inodes[i].addrs[d := 0];
      }
    }

    /**
     itrunc of a file without indirect blocks: it becomes empty on disk and in
     memory, its blocks go back to the bitmap as zeros, no other file changes.
     */
    method ItruncDirect(i: nat)
      requires Valid() && i < |inodes| && inodes[i].addrs[INDIRECT] == 0
      modifies this
      ensures Valid() && |inodes| == |old(inodes)| && dinodes == old(dinodes)[i := inodes[i]]
      ensures inodes[i] == old(inodes)[i].(size := 0, addrs := seq(NADDRS, _ => 0)) && Tight(blocks, inodes[i])
      ensures forall j :: 0 <= j < |inodes| && j != i ==>
        inodes[j] == old(inodes)[j] && Contents(blocks, inodes[j]) == Contents(old(blocks), inodes[j])
      ensures forall j :: 0 <= j < |inodes| && j != i ==> (Tight(blocks, inodes[j]) <==> Tight(old(blocks), inodes[j]))
    {
      var d := 0;
      while d < NDIRECT
        invariant 0 <= d <= NDIRECT && Safe() && |inodes| == |old(inodes)| && dinodes == old(dinodes)
        invariant inodes[i] == old(inodes)[i].(addrs := inodes[i].addrs)
        invariant inodes[i].addrs[INDIRECT] == 0 && forall e :: 0 <= e < d ==> inodes[i].addrs[e] == 0
        invariant forall j :: 0 <= j < |inodes| && j != i ==>
          inodes[j] == old(inodes)[j] && SameFile(old(blocks), blocks, inodes[j])
      {
        FreeDirect(i, d);
        d := d + 1;
      }
      assert inodes[i].addrs == seq(NADDRS, _ => 0);
      ghost var i1 := inodes;
      inodes := inodes[i := inodes[i].(size := 0)];
      Iupdate(i);
      ResizeSound(blocks, i1, lay, owner, i, 0);
      EmptyInode(blocks, inodes[i]);
      forall j | 0 <= j < |inodes| && j != i
        ensures ZeroTail(blocks, inodes[j]) && (Tight(blocks, inodes[j]) <==> Tight(old(blocks), inodes[j]))
        ensures Contents(blocks, inodes[j]) == Contents(old(blocks), inodes[j])
      {
        KeptFile(old(blocks), blocks, inodes[j]);
      }
    }
  }
}
