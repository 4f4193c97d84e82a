/**
 The on-disk layout of files: the block bitmap, the twelve direct addresses and
 the doubly-indirect tree of an inode, and who owns which block.
 Shared by the kernel's file code and by mkfs, the two writers of this format.
 */
module FsLayout {
  import opened Basics
  import opened Blocks

  const NDIRECT := 12
  const INDIRECT := 12          // index of the indirect root in addrs
  const NADDRS := 13
  const MAXFILE := 16396        // NDIRECT + 128 * 128, in blocks
  const MAXBYTES := 8394752     // MAXFILE * BSIZE
  const BPB := 4096             // bitmap bits per block
  const T_DEV := 3

  datatype Inode = Inode(kind: int, major: int, minor: int, nlink: int, size: nat, addrs: seq<nat>)

  /** Where a block number is recorded in the tree of an inode. */
  datatype Pos =
    | Direct(d: nat)
    | Root                      // addrs[INDIRECT]
    | Mid(m: nat)               // entry of the root block
    | Leaf(l: nat, k: nat)      // entry of a second-level block

  /** A position in the tree of inode i. */
  datatype Place = Place(i: nat, p: Pos)

  /** The superblock's size and where the bitmap and the data blocks start. */
  datatype Layout = Layout(size: nat, bmap: nat, data: nat)

  // ---- the bitmap ---------------------------------------------------------

  /** Bit k of a number, `x & (1 << k)`. */
  predicate Bit(x: nat, k: nat) {
    if k == 0 then x % 2 == 1 else Bit(x / 2, k - 1)
  }

  /** x with bit k set to v; x has at most n bits. */
  function PutBit(x: nat, k: nat, v: bool, n: nat): (r: nat)
    requires k < n && x < Pow2(n)
    ensures r < Pow2(n) && Bit(r, k) == v
    decreases n
  {
    if k == 0 then x / 2 * 2 + (if v then 1 else 0)
    else PutBit(x / 2, k - 1, v, n - 1) * 2 + x % 2
  }

  function Pow2(n: nat): (r: nat)
    ensures 1 <= r
  {
    if n == 0 then 1 else 2 * Pow2(n - 1)
  }

  lemma {:induction false} PutBitOthers(x: nat, k: nat, v: bool, n: nat, j: nat)
    requires k < n && x < Pow2(n) && j != k
    ensures Bit(PutBit(x, k, v, n), j) == Bit(x, j)
    decreases n
  {
    var r := PutBit(x, k, v, n);
    if k == 0 {
      assert r / 2 == x / 2;
    } else {
      assert r / 2 == PutBit(x / 2, k - 1, v, n - 1) && r % 2 == x % 2;
      if j > 0 {
        PutBitOthers(x / 2, k - 1, v, n - 1, j - 1);
      }
    }
  }

  /** Number of bitmap blocks balloc scans. */
  function BitmapBlocks(lay: Layout): (n: nat) {
    (lay.size + BPB - 1) / BPB
  }

  /** Number of blocks the bitmap describes: whole bitmap blocks covering size. */
  function Covered(lay: Layout): (n: nat)
    ensures lay.size <= n
  {
    BitmapBlocks(lay) * BPB
  }

  /** Metadata before the data blocks, the bitmap among it, and a store of every block the bitmap can name. */
  predicate ValidLayout(blocks: seq<Block>, lay: Layout) {
    && |blocks| == Covered(lay) < TWO32
    && 1 < lay.bmap && lay.bmap + BitmapBlocks(lay) <= lay.data <= |blocks|
  }

  /** The bitmap block that has the bit of b. */
  function BitmapBlockOf(lay: Layout, b: nat): (bb: nat) {
    lay.bmap + b / BPB
  }

  lemma BitmapBlockInRange(blocks: seq<Block>, lay: Layout, b: nat)
    requires ValidLayout(blocks, lay) && b < |blocks|
    ensures lay.bmap <= BitmapBlockOf(lay, b) < lay.data
  {
    assert b / BPB < BitmapBlocks(lay);
  }

  /** Bit bi of a bitmap block: `data[bi/8] & (1 << (bi % 8))`. */
  predicate BlockBit(bp: Block, bi: nat)
    requires bi < BPB
  {
    Bit(bp[bi / 8], bi % 8)
  }

  /** A bitmap block with bit bi set to v. */
  function WithBit(bp: Block, bi: nat, v: bool): (r: Block)
    requires bi < BPB
    ensures BlockBit(r, bi) == v
  {
    assert Pow2(8) == 256;
    bp[bi / 8 := PutBit(bp[bi / 8], bi % 8, v, 8)]
  }

  lemma WithBitOthers(bp: Block, bi: nat, v: bool, ci: nat)
    requires bi < BPB && ci < BPB && ci != bi
    ensures BlockBit(WithBit(bp, bi, v), ci) == BlockBit(bp, ci)
  {
    assert Pow2(8) == 256;
    if ci / 8 == bi / 8 {
      PutBitOthers(bp[bi / 8], bi % 8, v, 8, ci % 8);
    }
  }

  /** The bitmap's bit for block b. */
  predicate Marked(blocks: seq<Block>, lay: Layout, b: nat)
    requires BitmapBlockOf(lay, b) < |blocks|
  {
    BlockBit(blocks[BitmapBlockOf(lay, b)], b % BPB)
  }

  /** The store with block b's bit set to v. */
  function WithMark(blocks: seq<Block>, lay: Layout, b: nat, v: bool): (r: seq<Block>)
    requires BitmapBlockOf(lay, b) < |blocks|
    ensures |r| == |blocks|
  {
    var bb := BitmapBlockOf(lay, b);
    blocks[bb := WithBit(blocks[bb], b % BPB, v)]
  }

  /** Changing one bit changes no other block's mark. */
  lemma MarkChangesOne(blocks: seq<Block>, lay: Layout, b: nat, v: bool, c: nat)
    requires BitmapBlockOf(lay, b) < |blocks| && BitmapBlockOf(lay, c) < |blocks|
    ensures Marked(WithMark(blocks, lay, b, v), lay, c) == if c == b then v else Marked(blocks, lay, c)
  {
    if c != b && c / BPB == b / BPB {
      WithBitOthers(blocks[BitmapBlockOf(lay, b)], b % BPB, v, c % BPB);
    }
  }

  // ---- the tree of an inode -----------------------------------------------

  predicate ValidPos(p: Pos) {
    match p
    case Direct(d) => d < NDIRECT
    case Root => true
    case Mid(m) => m < WORDS
    case Leaf(l, k) => l < WORDS && k < WORDS
  }

  predicate ValidInode(ip: Inode) {
    |ip.addrs| == NADDRS && ip.size <= MAXBYTES
  }

  predicate ValidInodes(inodes: seq<Inode>) {
    forall i :: 0 <= i < |inodes| ==> ValidInode(inodes[i])
  }

  /** The word of an indirect block, 0 when there is no such block. */
  function Entry(blocks: seq<Block>, a: nat, j: nat): (w: nat)
    requires j < WORDS
  {
    if a == 0 || |blocks| <= a then 0 else GetWord(blocks[a], j)
  }

  /** The block number recorded at a position, 0 when nothing is. */
  function Addr(blocks: seq<Block>, ip: Inode, p: Pos): (a: nat)
    requires |ip.addrs| == NADDRS && ValidPos(p)
  {
    match p
    case Direct(d) => ip.addrs[d]
    case Root => ip.addrs[INDIRECT]
    case Mid(m) => Entry(blocks, ip.addrs[INDIRECT], m)
    case Leaf(l, k) => Entry(blocks, Entry(blocks, ip.addrs[INDIRECT], l), k)
  }

  /** The position of the bn-th data block of a file. */
  function DataPos(bn: nat): (p: Pos)
    requires bn < MAXFILE
    ensures ValidPos(p)
  {
    if bn < NDIRECT then Direct(bn) else Leaf((bn - NDIRECT) / WORDS, (bn - NDIRECT) % WORDS)
  }

  predicate IsData(p: Pos) {
    p.Direct? || p.Leaf?
  }

  lemma DataPosInjective(a: nat, b: nat)
    requires a < MAXFILE && b < MAXFILE && DataPos(a) == DataPos(b)
    ensures a == b
  {
  }

  /** Byte k of a file's blocks, past the end of the file as well; 0 where no block is mapped. */
  function Raw(blocks: seq<Block>, ip: Inode, k: nat): (x: Byte)
    requires |ip.addrs| == NADDRS && k < MAXBYTES
  {
    var a := Addr(blocks, ip, DataPos(k / BSIZE));
    if a == 0 || |blocks| <= a then 0 else blocks[a][k % BSIZE]
  }

  /** What a reader of the file sees. */
  function Contents(blocks: seq<Block>, ip: Inode): (s: seq<Byte>)
    requires ValidInode(ip)
    ensures |s| == ip.size
  {
    seq(ip.size, k requires 0 <= k < ip.size => Raw(blocks, ip, k))
  }

  // ---- ownership ----------------------------------------------------------

  /** Block b may be recorded at position p of inode i, and nowhere else. */
  ghost predicate OwnedBy(blocks: seq<Block>, lay: Layout, owner: map<nat, Place>, b: nat, i: nat, p: Pos)
    requires ValidLayout(blocks, lay)
  {
    && lay.data <= b < |blocks| && Marked(blocks, lay, b)
    && b in owner && owner[b] == Place(i, p)
  }

  /**
   Every block an inode records lies in the data area, is marked in use, and
   has one owner; every unmarked data block is all zeros.
   */
  ghost predicate Sound(blocks: seq<Block>, inodes: seq<Inode>, lay: Layout, owner: map<nat, Place>) {
    && ValidLayout(blocks, lay)
    && ValidInodes(inodes)
    && (forall b :: 0 <= b < lay.data ==> Marked(blocks, lay, b))
    && (forall b :: lay.data <= b < |blocks| && !Marked(blocks, lay, b) ==> blocks[b] == ZeroBlock())
    && Owns(blocks, inodes, lay, owner)
  }

  ghost predicate Owns(blocks: seq<Block>, inodes: seq<Inode>, lay: Layout, owner: map<nat, Place>)
    requires ValidLayout(blocks, lay) && ValidInodes(inodes)
  {
    forall i, p {:trigger Addr(blocks, inodes[i], p)} ::
      0 <= i < |inodes| && ValidPos(p) && Addr(blocks, inodes[i], p) != 0 ==>
      OwnedBy(blocks, lay, owner, Addr(blocks, inodes[i], p), i, p)
  }

  /** Blocks recorded at two different places are different. */
  lemma OwnershipIsDisjoint(blocks: seq<Block>, inodes: seq<Inode>, lay: Layout, owner: map<nat, Place>,
                            i: nat, p: Pos, j: nat, q: Pos)
    requires Sound(blocks, inodes, lay, owner) && i < |inodes| && j < |inodes| && ValidPos(p) && ValidPos(q)
    requires Place(i, p) != Place(j, q) && Addr(blocks, inodes[i], p) != 0
    ensures Addr(blocks, inodes[i], p) != Addr(blocks, inodes[j], q)
  {
    assert OwnedBy(blocks, lay, owner, Addr(blocks, inodes[i], p), i, p);
    if Addr(blocks, inodes[j], q) != 0 {
      assert OwnedBy(blocks, lay, owner, Addr(blocks, inodes[j], q), j, q);
    }
  }
}
