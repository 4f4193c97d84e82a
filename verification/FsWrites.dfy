/**
 The effect of writing a range of a file, as a relation between the trees and
 bytes before and after, and what it means for gap-free files.
 */
module FsWrites {
  import opened Blocks
  import opened FsLayout
  import opened FsSteps

  /** Every block below the end of the file is mapped, and no block beyond it. */
  ghost predicate Tight(blocks: seq<Block>, ip: Inode)
    requires ValidInode(ip)
  {
    forall bn {:trigger DataPos(bn)} :: 0 <= bn < MAXFILE ==>
      (Addr(blocks, ip, DataPos(bn)) != 0 <==> bn * BSIZE < ip.size)
  }

  /** The bytes past the end of the file are zero. */
  ghost predicate ZeroTail(blocks: seq<Block>, ip: Inode)
    requires ValidInode(ip)
  {
    forall k {:trigger Raw(blocks, ip, k)} :: ip.size <= k < MAXBYTES ==> Raw(blocks, ip, k) == 0
  }

  /** s with src written over it at off; a gap between the end of s and off reads as zeros. */
  function Overwrite(s: seq<Byte>, off: nat, src: seq<Byte>): (r: seq<Byte>)
    ensures |r| == if src != [] && |s| < off + |src| then off + |src| else |s|
  {
    var n := if src != [] && |s| < off + |src| then off + |src| else |s|;
    seq(n, k requires 0 <= k < n => if off <= k < off + |src| then src[k - off] else if k < |s| then s[k] else 0)
  }

  /** Block bn overlaps the bytes from lo to hi. */
  predicate Overlaps(bn: int, lo: nat, hi: nat) {
    lo < (bn + 1) * BSIZE && bn * BSIZE < hi && lo < hi
  }

  /**
   From one state to the next, data[lo..hi] has been written at off + lo into the
   blocks of inode i: exactly those bytes changed, exactly the blocks they fall in
   were mapped if they were not, and the inode is the same if none had to be.
   */
  ghost predicate Wrote(blocks: seq<Block>, inodes: seq<Inode>, blocks': seq<Block>, inodes': seq<Inode>,
                        i: nat, off: nat, data: seq<Byte>, lo: nat, hi: nat)
    requires ValidInodes(inodes) && ValidInodes(inodes')
  {
    && |inodes| == |inodes'| && i < |inodes| && lo <= hi <= |data|
    && (forall j :: 0 <= j < |inodes| && j != i ==> inodes'[j] == inodes[j])
    && inodes'[i] == inodes[i].(addrs := inodes'[i].addrs)
    && (forall j, k {:trigger Raw(blocks', inodes'[j], k)} :: 0 <= j < |inodes| && 0 <= k < MAXBYTES ==>
          Raw(blocks', inodes'[j], k) ==
          if j == i && off + lo <= k < off + hi then data[k - off] else Raw(blocks, inodes[j], k))
    && (forall j, bn {:trigger Addr(blocks', inodes'[j], DataPos(bn))} :: 0 <= j < |inodes| && 0 <= bn < MAXFILE ==>
          (Addr(blocks', inodes'[j], DataPos(bn)) != 0 <==>
           Addr(blocks, inodes[j], DataPos(bn)) != 0 || (j == i && Overlaps(bn, off + lo, off + hi))))
    && (AllMapped(blocks, inodes[i], off + lo, off + hi) ==> inodes' == inodes)
  }

  /** Every block the bytes from lo to hi fall in is mapped. */
  ghost predicate AllMapped(blocks: seq<Block>, ip: Inode, lo: nat, hi: nat)
    requires ValidInode(ip)
  {
    forall bn {:trigger DataPos(bn)} :: 0 <= bn < MAXFILE && Overlaps(bn, lo, hi) ==> Addr(blocks, ip, DataPos(bn)) != 0
  }

  /** In a file without gaps every byte below its end is in a mapped block. */
  lemma TightAllMapped(blocks: seq<Block>, ip: Inode, lo: nat, hi: nat)
    requires ValidInode(ip) && Tight(blocks, ip) && (lo < hi ==> hi <= ip.size)
    ensures AllMapped(blocks, ip, lo, hi)
  {
  }

  lemma WroteTrans(b0: seq<Block>, i0: seq<Inode>, b1: seq<Block>, i1: seq<Inode>, b2: seq<Block>, i2: seq<Inode>,
                   i: nat, off: nat, data: seq<Byte>, lo: nat, mid: nat, hi: nat)
    requires ValidInodes(i0) && ValidInodes(i1) && ValidInodes(i2) && lo <= mid < hi <= |data|
    requires Wrote(b0, i0, b1, i1, i, off, data, lo, mid) && Wrote(b1, i1, b2, i2, i, off, data, mid, hi)
    ensures Wrote(b0, i0, b2, i2, i, off, data, lo, hi)
  {
    forall j, k | 0 <= j < |i0| && 0 <= k < MAXBYTES
      ensures Raw(b2, i2[j], k) == if j == i && off + lo <= k < off + hi then data[k - off] else Raw(b0, i0[j], k)
    {
      assert Raw(b1, i1[j], k) == if j == i && off + lo <= k < off + mid then data[k - off] else Raw(b0, i0[j], k);
    }
    forall j, bn | 0 <= j < |i0| && 0 <= bn < MAXFILE
      ensures Addr(b2, i2[j], DataPos(bn)) != 0
        <==> Addr(b0, i0[j], DataPos(bn)) != 0 || (j == i && Overlaps(bn, off + lo, off + hi))
    {
      assert Addr(b1, i1[j], DataPos(bn)) != 0
        <==> Addr(b0, i0[j], DataPos(bn)) != 0 || (j == i && Overlaps(bn, off + lo, off + mid));
    }
    if AllMapped(b0, i0[i], off + lo, off + hi) {
      forall bn | 0 <= bn < MAXFILE && Overlaps(bn, off + mid, off + hi) ensures Addr(b1, i1[i], DataPos(bn)) != 0 {
        assert Overlaps(bn, off + lo, off + hi);
        assert Addr(b0, i0[i], DataPos(bn)) != 0;
      }
      forall bn | 0 <= bn < MAXFILE && Overlaps(bn, off + lo, off + mid) ensures Addr(b0, i0[i], DataPos(bn)) != 0 {
        assert Overlaps(bn, off + lo, off + hi);
      }
      assert AllMapped(b0, i0[i], off + lo, off + mid) && AllMapped(b1, i1[i], off + mid, off + hi);
    }
  }

  /** The bytes of block x after data[lo..hi] is put in it at offset at. */
  ghost predicate Patched(u: Block, v: Block, at: nat, data: seq<Byte>, lo: nat, hi: nat)
    requires lo <= hi <= |data| && at + (hi - lo) <= BSIZE
  {
    forall t :: 0 <= t < BSIZE ==> v[t] == if at <= t < at + (hi - lo) then data[t - at + lo] else u[t]
  }

  /** One block's worth: bmap, then new bytes in that block. */
  lemma WroteChunk(b0: seq<Block>, i0: seq<Inode>, b1: seq<Block>, i1: seq<Inode>,
                   i: nat, off: nat, data: seq<Byte>, lo: nat, hi: nat, bn: nat, x: nat, v: Block)
    requires ValidInodes(i0) && ValidInodes(i1) && lo < hi <= |data|
    requires bn == (off + lo) / BSIZE < MAXFILE && (off + lo) % BSIZE + (hi - lo) <= BSIZE
    requires Grew(b0, i0, b1, i1, i, DataPos(bn))
    requires Addr(b0, i0[i], DataPos(bn)) != 0 ==> i1 == i0
    requires x == Addr(b1, i1[i], DataPos(bn)) && 0 < x < |b1|
    requires OnlyAt(b1, i1, x, i, DataPos(bn)) && SameTrees(b1, b1[x := v], i1)
    requires Patched(b1[x], v, (off + lo) % BSIZE, data, lo, hi)
    ensures Wrote(b0, i0, b1[x := v], i1, i, off, data, lo, hi)
  {
    forall j, k | 0 <= j < |i0| && 0 <= k < MAXBYTES
      ensures Raw(b1[x := v], i1[j], k)
        == if j == i && off + lo <= k < off + hi then data[k - off] else Raw(b0, i0[j], k)
    {
      ChunkByte(b0, i0, b1, i1, i, off, data, lo, hi, bn, x, v, j, k);
    }
    ChunkAddrs(b0, i0, b1, i1, b1[x := v], i, off + lo, off + hi, bn);
  }

  lemma ChunkAddrs(b0: seq<Block>, i0: seq<Inode>, b1: seq<Block>, i1: seq<Inode>, b2: seq<Block>,
                   i: nat, lo: nat, hi: nat, bn: nat)
    requires ValidInodes(i0) && ValidInodes(i1) && lo < hi && bn == lo / BSIZE < MAXFILE
      && lo % BSIZE + (hi - lo) <= BSIZE
    requires Grew(b0, i0, b1, i1, i, DataPos(bn)) && SameTrees(b1, b2, i1) && Addr(b1, i1[i], DataPos(bn)) != 0
    ensures forall j, c {:trigger Addr(b2, i1[j], DataPos(c))} :: 0 <= j < |i0| && 0 <= c < MAXFILE ==>
      (Addr(b2, i1[j], DataPos(c)) != 0 <==> Addr(b0, i0[j], DataPos(c)) != 0 || (j == i && Overlaps(c, lo, hi)))
    ensures AllMapped(b0, i0[i], lo, hi) ==> Addr(b0, i0[i], DataPos(bn)) != 0
  {
    forall j, c | 0 <= j < |i0| && 0 <= c < MAXFILE
      ensures Addr(b2, i1[j], DataPos(c)) != 0 <==> Addr(b0, i0[j], DataPos(c)) != 0 || (j == i && Overlaps(c, lo, hi))
    {
      OneBlock(lo, hi, bn, c);
      ChunkAddr(b0, i0, b1, i1, b2, i, bn, j, c);
    }
    OneBlock(lo, hi, bn, bn);
  }

  lemma ChunkAddr(b0: seq<Block>, i0: seq<Inode>, b1: seq<Block>, i1: seq<Inode>, b2: seq<Block>, i: nat, bn: nat,
                  j: nat, c: nat)
    requires ValidInodes(i0) && ValidInodes(i1) && bn < MAXFILE && c < MAXFILE && j < |i0|
    requires Grew(b0, i0, b1, i1, i, DataPos(bn)) && SameTrees(b1, b2, i1) && Addr(b1, i1[i], DataPos(bn)) != 0
    ensures Addr(b2, i1[j], DataPos(c)) != 0 <==> Addr(b0, i0[j], DataPos(c)) != 0 || (j == i && c == bn)
  {
    assert Addr(b2, i1[j], DataPos(c)) == Addr(b1, i1[j], DataPos(c));
    if DataPos(c) == DataPos(bn) { DataPosInjective(c, bn); }
  }

  /** A byte of the range is in a block that overlaps it. */
  lemma ByteOverlaps(k: nat, lo: nat, hi: nat)
    requires lo <= k < hi
    ensures Overlaps(k / BSIZE, lo, hi)
  {
  }

  /** A range inside one block overlaps just that block. */
  lemma OneBlock(lo: nat, hi: nat, bn: nat, c: nat)
    requires lo < hi && bn == lo / BSIZE && lo % BSIZE + (hi - lo) <= BSIZE
    ensures Overlaps(c, lo, hi) <==> c == bn
  {
  }

  lemma ChunkByte(b0: seq<Block>, i0: seq<Inode>, b1: seq<Block>, i1: seq<Inode>,
                  i: nat, off: nat, data: seq<Byte>, lo: nat, hi: nat, bn: nat, x: nat, v: Block, j: nat, k: nat)
    requires ValidInodes(i0) && ValidInodes(i1) && lo < hi <= |data| && i < |i1|
    requires bn == (off + lo) / BSIZE < MAXFILE && (off + lo) % BSIZE + (hi - lo) <= BSIZE
    requires SameBytes(b0, i0, b1, i1)
    requires x == Addr(b1, i1[i], DataPos(bn)) && 0 < x < |b1|
    requires OnlyAt(b1, i1, x, i, DataPos(bn)) && SameTrees(b1, b1[x := v], i1)
    requires Patched(b1[x], v, (off + lo) % BSIZE, data, lo, hi) && j < |i0| && k < MAXBYTES
    ensures Raw(b1[x := v], i1[j], k)
      == if j == i && off + lo <= k < off + hi then data[k - off] else Raw(b0, i0[j], k)
  {
    DataWriteBytes(b1, i1, i, bn, x, v);
    assert Raw(b1, i1[j], k) == Raw(b0, i0[j], k);
    if j == i && k / BSIZE == bn {
      assert Raw(b1, i1[j], k) == b1[x][k % BSIZE];
      assert k - (off + lo) == k % BSIZE - (off + lo) % BSIZE;
    }
  }

  /** The file's contents after a write, the other files, and the zeros past the end. */
  lemma WroteContents(b0: seq<Block>, i0: seq<Inode>, b1: seq<Block>, i1: seq<Inode>, i2: seq<Inode>,
                      i: nat, off: nat, data: seq<Byte>)
    requires ValidInodes(i0) && ValidInodes(i1) && ValidInodes(i2) && Wrote(b0, i0, b1, i1, i, off, data, 0, |data|)
    requires off + |data| <= MAXBYTES && ZeroTail(b0, i0[i])
    requires i2 == i1[i := i1[i].(size := if data != [] && off + |data| > i0[i].size then off + |data| else i0[i].size)]
    ensures Contents(b1, i2[i]) == Overwrite(Contents(b0, i0[i]), off, data)
    ensures forall j :: 0 <= j < |i0| && j != i ==> Contents(b1, i2[j]) == Contents(b0, i0[j])
    ensures ZeroTail(b1, i2[i])
  {
    var c, o := Contents(b1, i2[i]), Overwrite(Contents(b0, i0[i]), off, data);
    forall k | 0 <= k < MAXBYTES ensures Raw(b1, i2[i], k) == Raw(b1, i1[i], k) { }
    forall k | 0 <= k < |c| ensures c[k] == o[k] {
      assert Raw(b1, i1[i], k) == if off <= k < off + |data| then data[k - off] else Raw(b0, i0[i], k);
    }
    forall k | i2[i].size <= k < MAXBYTES ensures Raw(b1, i2[i], k) == 0 {
      assert Raw(b1, i1[i], k) == Raw(b0, i0[i], k);
    }
    forall j | 0 <= j < |i0| && j != i ensures Contents(b1, i2[j]) == Contents(b0, i0[j]) {
      forall k | 0 <= k < i0[j].size ensures Raw(b1, i1[j], k) == Raw(b0, i0[j], k) { }
    }
  }

  /** First block boundary at or after the end of the file. */
  function RoundUp(size: nat): (r: nat) {
    (size + BSIZE - 1) / BSIZE * BSIZE
  }

  /**
   The file stays gap free iff the write starts no later than the block after
   its last one; and then a changed inode means a larger file.
   */
  lemma WroteTight(b0: seq<Block>, i0: seq<Inode>, b1: seq<Block>, i1: seq<Inode>, i: nat, off: nat, data: seq<Byte>,
                   ip: Inode)
    requires ValidInodes(i0) && ValidInodes(i1) && Wrote(b0, i0, b1, i1, i, off, data, 0, |data|)
    requires Tight(b0, i0[i]) && data != [] && off + |data| <= MAXBYTES
    requires ip == i1[i].(size := if off + |data| > i0[i].size then off + |data| else i0[i].size)
    ensures Tight(b1, ip) <==> off < RoundUp(i0[i].size) + BSIZE
    ensures off < RoundUp(i0[i].size) + BSIZE && i1 != i0 ==> i0[i].size < off + |data|
  {
    var size := i0[i].size;
    forall bn | 0 <= bn < MAXFILE
      ensures Addr(b1, ip, DataPos(bn)) != 0 <==> bn * BSIZE < size || Overlaps(bn, off, off + |data|)
    {
      assert Addr(b1, ip, DataPos(bn)) == Addr(b1, i1[i], DataPos(bn));
    }
    if off < RoundUp(size) + BSIZE {
      assert Tight(b1, ip);
      if off + |data| <= size {
        assert AllMapped(b0, i0[i], off, off + |data|);
      }
    } else {
      var bn := RoundUp(size) / BSIZE;
      assert bn * BSIZE == RoundUp(size) && bn < MAXFILE;
      assert !Overlaps(bn, off, off + |data|);
      assert Addr(b1, ip, DataPos(bn)) == 0 && bn * BSIZE < ip.size;
    }
  }
}
