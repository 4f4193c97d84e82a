/**
 Room on the disk: how many blocks are free, which places of a file's block tree
 a range of the file still lacks, and that mapping the range takes exactly as many
 blocks as it lacks places.
 */
module FsSpace {
  import opened Blocks
  import opened FsLayout
  import opened FsSteps

  // ---- free blocks --------------------------------------------------------

  /** The number of free blocks below n. */
  function FreeBelow(blocks: seq<Block>, lay: Layout, n: nat): (k: nat)
    requires ValidLayout(blocks, lay) && n <= |blocks|
  {
    if n == 0 then 0 else FreeBelow(blocks, lay, n - 1) + if Marked(blocks, lay, n - 1) then 0 else 1
  }

  function Free(blocks: seq<Block>, lay: Layout): (k: nat)
    requires ValidLayout(blocks, lay)
  {
    FreeBelow(blocks, lay, |blocks|)
  }

  /** b is free before and taken after, and no other block's mark changes. */
  ghost predicate TookBlock(blocks: seq<Block>, blocks': seq<Block>, lay: Layout, b: nat) {
    && ValidLayout(blocks, lay) && ValidLayout(blocks', lay) && |blocks'| == |blocks| && b < |blocks|
    && !Marked(blocks, lay, b)
    && forall c :: 0 <= c < |blocks| ==> (Marked(blocks', lay, c) <==> c == b || Marked(blocks, lay, c))
  }

  lemma {:induction false} TookOne(blocks: seq<Block>, blocks': seq<Block>, lay: Layout, b: nat, n: nat)
    requires TookBlock(blocks, blocks', lay, b) && n <= |blocks|
    ensures FreeBelow(blocks', lay, n) == FreeBelow(blocks, lay, n) - if b < n then 1 else 0
  {
    if n > 0 { TookOne(blocks, blocks', lay, b, n - 1); }
  }

  lemma {:induction false} SameMarksFree(blocks: seq<Block>, blocks': seq<Block>, lay: Layout, n: nat)
    requires ValidLayout(blocks, lay) && ValidLayout(blocks', lay) && |blocks'| == |blocks| && n <= |blocks|
    requires forall c :: 0 <= c < |blocks| ==> Marked(blocks', lay, c) == Marked(blocks, lay, c)
    ensures FreeBelow(blocks', lay, n) == FreeBelow(blocks, lay, n)
  {
    if n > 0 { SameMarksFree(blocks, blocks', lay, n - 1); }
  }

  /** There is a free block iff the count is positive. */
  lemma {:induction false} FreeIff(blocks: seq<Block>, lay: Layout, n: nat)
    requires ValidLayout(blocks, lay) && n <= |blocks|
    ensures FreeBelow(blocks, lay, n) > 0 <==> exists c :: 0 <= c < n && !Marked(blocks, lay, c)
  {
    if n > 0 { FreeIff(blocks, lay, n - 1); }
  }

  /** b is the lowest block the bitmap shows free. */
  ghost predicate FirstFree(blocks: seq<Block>, lay: Layout, b: nat)
    requires ValidLayout(blocks, lay)
  {
    b < |blocks| && !Marked(blocks, lay, b) && forall c :: 0 <= c < b ==> Marked(blocks, lay, c)
  }

  /** What was marked still is, and every block taken is below every block still free. */
  ghost predicate LowestFirst(b0: seq<Block>, b1: seq<Block>, lay: Layout) {
    && ValidLayout(b0, lay) && ValidLayout(b1, lay) && |b1| == |b0|
    && (forall c :: 0 <= c < |b0| && Marked(b0, lay, c) ==> Marked(b1, lay, c))
    && (forall c, d :: 0 <= c < |b0| && 0 <= d < |b0| && TakenNow(b0, b1, lay, c) && !Marked(b1, lay, d) ==> c < d)
  }

  /** Block c was free and is taken. */
  ghost predicate TakenNow(b0: seq<Block>, b1: seq<Block>, lay: Layout, c: nat)
    requires ValidLayout(b0, lay) && ValidLayout(b1, lay) && |b1| == |b0|
  {
    c < |b0| && !Marked(b0, lay, c) && Marked(b1, lay, c)
  }

  lemma LowestTrans(b0: seq<Block>, b1: seq<Block>, b2: seq<Block>, lay: Layout)
    requires LowestFirst(b0, b1, lay) && LowestFirst(b1, b2, lay)
    ensures LowestFirst(b0, b2, lay)
  {
    forall c, d | 0 <= c < |b0| && 0 <= d < |b0| && TakenNow(b0, b2, lay, c) && !Marked(b2, lay, d) ensures c < d {
      if Marked(b1, lay, c) { assert TakenNow(b0, b1, lay, c); } else { assert TakenNow(b1, b2, lay, c); }
    }
  }

  /** Blocks taken below m. */
  ghost function TakenBelow(b0: seq<Block>, b1: seq<Block>, lay: Layout, m: nat): (n: int)
    requires ValidLayout(b0, lay) && ValidLayout(b1, lay) && |b1| == |b0| && m <= |b0|
  {
    FreeBelow(b0, lay, m) - FreeBelow(b1, lay, m)
  }

  /** Some block from n on, below m, was taken. */
  ghost predicate TookBetween(b0: seq<Block>, b1: seq<Block>, lay: Layout, n: nat, m: nat)
    requires ValidLayout(b0, lay) && ValidLayout(b1, lay) && |b1| == |b0| && m <= |b0|
  {
    exists c :: n <= c < m && TakenNow(b0, b1, lay, c)
  }

  lemma TookBetweenNext(b0: seq<Block>, b1: seq<Block>, lay: Layout, n: nat, m: nat)
    requires LowestFirst(b0, b1, lay) && n <= m < |b0|
    ensures TookBetween(b0, b1, lay, n, m + 1) <==> TookBetween(b0, b1, lay, n, m) || TakenNow(b0, b1, lay, m)
    ensures TakenBelow(b0, b1, lay, m + 1) == TakenBelow(b0, b1, lay, m) + if TakenNow(b0, b1, lay, m) then 1 else 0
  {
  }

  lemma {:induction false} TakenGrows(b0: seq<Block>, b1: seq<Block>, lay: Layout, n: nat, m: nat)
    requires LowestFirst(b0, b1, lay) && n <= m <= |b0|
    ensures TakenBelow(b0, b1, lay, n) <= TakenBelow(b0, b1, lay, m)
    ensures TakenBelow(b0, b1, lay, n) < TakenBelow(b0, b1, lay, m) <==> TookBetween(b0, b1, lay, n, m)
  {
    if n < m {
      TakenGrows(b0, b1, lay, n, m - 1);
      TookBetweenNext(b0, b1, lay, n, m - 1);
    }
  }

  /** The blocks taken are all below n iff no more are taken than were free below n. */
  lemma TakenWithinIff(b0: seq<Block>, b1: seq<Block>, lay: Layout, n: nat)
    requires LowestFirst(b0, b1, lay) && n <= |b0|
    ensures TookBetween(b0, b1, lay, n, |b0|) <==> Free(b0, lay) - Free(b1, lay) > FreeBelow(b0, lay, n)
  {
    TakenGrows(b0, b1, lay, n, |b0|);
    FreeIff(b1, lay, n);
  }

  // ---- places a range needs -----------------------------------------------

  /** The places of the tree on the way to data block bn. */
  function Path(bn: nat): (ps: set<Pos>)
    requires bn < MAXFILE
    ensures forall p :: p in ps ==> ValidPos(p)
  {
    if bn < NDIRECT then {Direct(bn)}
    else var n := bn - NDIRECT; {Root, Mid(n / WORDS), Leaf(n / WORDS, n % WORDS)}
  }

  /** The places on the way to the data blocks from lo to hi. */
  function Paths(lo: nat, hi: nat): (ps: set<Pos>)
    requires hi <= MAXFILE
    ensures forall p :: p in ps ==> ValidPos(p)
    decreases hi - lo
  {
    if lo >= hi then {} else Paths(lo, hi - 1) + Path(hi - 1)
  }

  /** Those of the places ps where nothing is recorded. */
  ghost function Lacking(blocks: seq<Block>, ip: Inode, ps: set<Pos>): (qs: set<Pos>)
    requires |ip.addrs| == NADDRS && forall p :: p in ps ==> ValidPos(p)
    ensures qs <= ps
  {
    set p | p in ps && Addr(blocks, ip, p) == 0
  }

  /** The places on the way to the bytes from off to off + n. */
  function BytePaths(off: nat, n: nat): (ps: set<Pos>)
    requires off + n <= MAXBYTES
    ensures forall p :: p in ps ==> ValidPos(p)
  {
    if n == 0 then {} else Paths(off / BSIZE, (off + n - 1) / BSIZE + 1)
  }

  /** The blocks that writing n bytes at off takes. */
  ghost function Need(blocks: seq<Block>, ip: Inode, off: nat, n: nat): (k: nat)
    requires |ip.addrs| == NADDRS && off + n <= MAXBYTES
  {
    |Lacking(blocks, ip, BytePaths(off, n))|
  }

  /** Place q was empty and now records block a. */
  ghost predicate NewAt(b0: seq<Block>, ip0: Inode, b1: seq<Block>, ip1: Inode, q: Pos, a: nat)
    requires |ip0.addrs| == NADDRS && |ip1.addrs| == NADDRS
  {
    ValidPos(q) && Addr(b0, ip0, q) == 0 && Addr(b1, ip1, q) == a != 0
  }

  /** Recorded places keep their blocks, and the blocks taken are just those newly recorded. */
  ghost predicate Recorded(b0: seq<Block>, ip0: Inode, b1: seq<Block>, ip1: Inode, lay: Layout)
    requires |ip0.addrs| == NADDRS && |ip1.addrs| == NADDRS
    requires ValidLayout(b0, lay) && ValidLayout(b1, lay) && |b1| == |b0|
  {
    && (forall q {:trigger Addr(b1, ip1, q)} :: ValidPos(q) ==>
         if Addr(b0, ip0, q) != 0 then Addr(b1, ip1, q) == Addr(b0, ip0, q)
         else Addr(b1, ip1, q) == 0 || TakenNow(b0, b1, lay, Addr(b1, ip1, q)))
    && (forall c :: 0 <= c < |b0| && TakenNow(b0, b1, lay, c) ==> exists q :: NewAt(b0, ip0, b1, ip1, q, c))
  }

  lemma RecordedTrans(b0: seq<Block>, ip0: Inode, b1: seq<Block>, ip1: Inode, b2: seq<Block>, ip2: Inode, lay: Layout)
    requires |ip0.addrs| == NADDRS && |ip1.addrs| == NADDRS && |ip2.addrs| == NADDRS
    requires LowestFirst(b0, b1, lay) && LowestFirst(b1, b2, lay)
    requires Recorded(b0, ip0, b1, ip1, lay) && Recorded(b1, ip1, b2, ip2, lay)
    ensures Recorded(b0, ip0, b2, ip2, lay)
  {
    forall q | ValidPos(q)
      ensures if Addr(b0, ip0, q) != 0 then Addr(b2, ip2, q) == Addr(b0, ip0, q)
              else Addr(b2, ip2, q) == 0 || TakenNow(b0, b2, lay, Addr(b2, ip2, q))
    {
      assert Addr(b1, ip1, q) != 0 ==> Addr(b2, ip2, q) == Addr(b1, ip1, q);
    }
    forall c | 0 <= c < |b0| && TakenNow(b0, b2, lay, c) ensures exists q :: NewAt(b0, ip0, b2, ip2, q, c) {
      if Marked(b1, lay, c) {
        assert TakenNow(b0, b1, lay, c);
        var q :| NewAt(b0, ip0, b1, ip1, q, c);
        assert NewAt(b0, ip0, b2, ip2, q, c);
      } else {
        assert TakenNow(b1, b2, lay, c);
        var q :| NewAt(b1, ip1, b2, ip2, q, c);
        assert Addr(b0, ip0, q) == 0;
        assert NewAt(b0, ip0, b2, ip2, q, c);
      }
    }
  }

  /** Data written into a block changes neither marks nor places. */
  lemma RecordedThenWrote(b0: seq<Block>, ip0: Inode, b1: seq<Block>, ip1: Inode, b2: seq<Block>, lay: Layout)
    requires |ip0.addrs| == NADDRS && |ip1.addrs| == NADDRS && LowestFirst(b0, b1, lay) && LowestFirst(b1, b2, lay)
    requires Recorded(b0, ip0, b1, ip1, lay)
    requires forall c :: 0 <= c < |b1| ==> Marked(b2, lay, c) == Marked(b1, lay, c)
    requires forall q {:trigger Addr(b2, ip1, q)} :: ValidPos(q) ==> Addr(b2, ip1, q) == Addr(b1, ip1, q)
    ensures Recorded(b0, ip0, b2, ip1, lay)
  {
    assert Recorded(b1, ip1, b2, ip1, lay);
    RecordedTrans(b0, ip0, b1, ip1, b2, ip1, lay);
  }

  /** Some place that was empty now records a block from n on. */
  ghost predicate RecordsFrom(b0: seq<Block>, ip0: Inode, b1: seq<Block>, ip1: Inode, n: nat)
    requires |ip0.addrs| == NADDRS && |ip1.addrs| == NADDRS
  {
    exists q, a :: n <= a && NewAt(b0, ip0, b1, ip1, q, a)
  }

  /** A block past n is recorded iff more is lacking than is free below n. */
  lemma RecordsFromIff(b0: seq<Block>, ip0: Inode, b1: seq<Block>, ip1: Inode, lay: Layout, ps: set<Pos>, n: nat)
    requires Took(b0, ip0, b1, ip1, lay, ps) && n <= |b0|
    ensures RecordsFrom(b0, ip0, b1, ip1, n) <==> |Lacking(b0, ip0, ps)| > FreeBelow(b0, lay, n)
  {
    TakenWithinIff(b0, b1, lay, n);
    if TookBetween(b0, b1, lay, n, |b0|) {
      var c :| n <= c < |b0| && TakenNow(b0, b1, lay, c);
      var q :| NewAt(b0, ip0, b1, ip1, q, c);
      assert RecordsFrom(b0, ip0, b1, ip1, n);
    }
    if q, a :| n <= a && NewAt(b0, ip0, b1, ip1, q, a) {
      assert TakenNow(b0, b1, lay, Addr(b1, ip1, q));
    }
  }

  /**
   The places ps are now recorded, no other place changed from empty to recorded
   or back, and free blocks paid for it.
   */
  ghost predicate Took(b0: seq<Block>, ip0: Inode, b1: seq<Block>, ip1: Inode, lay: Layout, ps: set<Pos>) {
    && |ip0.addrs| == NADDRS && |ip1.addrs| == NADDRS && (forall p :: p in ps ==> ValidPos(p))
    && ValidLayout(b0, lay) && ValidLayout(b1, lay)
    && (forall q {:trigger Addr(b1, ip1, q)} :: ValidPos(q) ==>
         (Addr(b1, ip1, q) == 0 <==> Addr(b0, ip0, q) == 0 && q !in ps))
    && Free(b1, lay) == Free(b0, lay) - |Lacking(b0, ip0, ps)|
    && LowestFirst(b0, b1, lay) && Recorded(b0, ip0, b1, ip1, lay)
  }

  /** Nothing is taken for places that are recorded. */
  lemma TookNone(b: seq<Block>, ip: Inode, lay: Layout, ps: set<Pos>)
    requires |ip.addrs| == NADDRS && ValidLayout(b, lay) && forall p :: p in ps ==> ValidPos(p) && Addr(b, ip, p) != 0
    ensures Took(b, ip, b, ip, lay, ps)
  {
    assert Lacking(b, ip, ps) == {};
  }

  /** Recording one block at an empty place. */
  lemma TookPlace(b0: seq<Block>, ip0: Inode, b1: seq<Block>, ip1: Inode, lay: Layout, q: Pos, b: nat)
    requires |ip0.addrs| == NADDRS && |ip1.addrs| == NADDRS && ValidPos(q) && Addr(b0, ip0, q) == 0
    requires TookBlock(b0, b1, lay, b) && b != 0 && FirstFree(b0, lay, b)
    requires forall p {:trigger Addr(b1, ip1, p)} :: ValidPos(p) ==>
      Addr(b1, ip1, p) == if p == q then b else Addr(b0, ip0, p)
    ensures Took(b0, ip0, b1, ip1, lay, {q})
  {
    TookOne(b0, b1, lay, b, |b0|);
    assert Lacking(b0, ip0, {q}) == {q};
    assert NewAt(b0, ip0, b1, ip1, q, b);
  }

  lemma TookTrans(b0: seq<Block>, ip0: Inode, b1: seq<Block>, ip1: Inode, b2: seq<Block>, ip2: Inode, lay: Layout,
                  ps: set<Pos>, qs: set<Pos>)
    requires Took(b0, ip0, b1, ip1, lay, ps) && Took(b1, ip1, b2, ip2, lay, qs)
    ensures Took(b0, ip0, b2, ip2, lay, ps + qs)
  {
    LackingSplit(b0, ip0, b1, ip1, lay, ps, qs);
    LowestTrans(b0, b1, b2, lay);
    RecordedTrans(b0, ip0, b1, ip1, b2, ip2, lay);
    forall q | ValidPos(q) ensures Addr(b2, ip2, q) == 0 <==> Addr(b0, ip0, q) == 0 && q !in ps + qs {
      assert Addr(b1, ip1, q) == 0 <==> Addr(b0, ip0, q) == 0 && q !in ps;
    }
  }

  /** What both lacked is what the first lacked and what was still lacking for the second. */
  lemma LackingSplit(b0: seq<Block>, ip0: Inode, b1: seq<Block>, ip1: Inode, lay: Layout, ps: set<Pos>, qs: set<Pos>)
    requires Took(b0, ip0, b1, ip1, lay, ps) && forall p :: p in qs ==> ValidPos(p)
    ensures |Lacking(b0, ip0, ps + qs)| == |Lacking(b0, ip0, ps)| + |Lacking(b1, ip1, qs)|
  {
    var a, b := Lacking(b0, ip0, ps), Lacking(b1, ip1, qs);
    forall q | ValidPos(q) ensures Addr(b1, ip1, q) == 0 <==> Addr(b0, ip0, q) == 0 && q !in ps { }
    assert Lacking(b0, ip0, ps + qs) == a + b;
    assert a !! b;
  }

  /** Data written into a block of the file changes neither places nor marks. */
  lemma TookThenWrote(b0: seq<Block>, ip0: Inode, b1: seq<Block>, ip1: Inode, b2: seq<Block>, lay: Layout, ps: set<Pos>)
    requires Took(b0, ip0, b1, ip1, lay, ps) && ValidLayout(b2, lay) && |b2| == |b1|
    requires forall c :: 0 <= c < |b1| ==> Marked(b2, lay, c) == Marked(b1, lay, c)
    requires forall q {:trigger Addr(b2, ip1, q)} :: ValidPos(q) ==> Addr(b2, ip1, q) == Addr(b1, ip1, q)
    ensures Took(b0, ip0, b2, ip1, lay, ps)
  {
    SameMarksFree(b1, b2, lay, |b1|);
    assert LowestFirst(b1, b2, lay);
    LowestTrans(b0, b1, b2, lay);
    RecordedThenWrote(b0, ip0, b1, ip1, b2, lay);
    forall q | ValidPos(q) ensures Addr(b2, ip1, q) == 0 <==> Addr(b0, ip0, q) == 0 && q !in ps {
      assert Addr(b1, ip1, q) == 0 <==> Addr(b0, ip0, q) == 0 && q !in ps;
    }
  }

  /** The places ps of inode i were paid for and no other tree changed. */
  ghost predicate Spent(b0: seq<Block>, i0: seq<Inode>, b1: seq<Block>, i1: seq<Inode>, lay: Layout, i: nat,
                        ps: set<Pos>) {
    && ValidInodes(i0) && ValidInodes(i1) && |i0| == |i1| && i < |i0|
    && Took(b0, i0[i], b1, i1[i], lay, ps)
    && OtherTrees(b0, i0, b1, i1, i)
  }

  ghost predicate OtherTrees(b0: seq<Block>, i0: seq<Inode>, b1: seq<Block>, i1: seq<Inode>, i: nat)
    requires ValidInodes(i0) && ValidInodes(i1) && |i0| == |i1|
  {
    forall j, q {:trigger Addr(b1, i1[j], q)} :: 0 <= j < |i0| && j != i && ValidPos(q) ==>
      Addr(b1, i1[j], q) == Addr(b0, i0[j], q)
  }

  lemma SpentTrans(b0: seq<Block>, i0: seq<Inode>, b1: seq<Block>, i1: seq<Inode>, b2: seq<Block>, i2: seq<Inode>,
                   lay: Layout, i: nat, ps: set<Pos>, qs: set<Pos>)
    requires Spent(b0, i0, b1, i1, lay, i, ps) && Spent(b1, i1, b2, i2, lay, i, qs)
    ensures Spent(b0, i0, b2, i2, lay, i, ps + qs)
  {
    TookTrans(b0, i0[i], b1, i1[i], b2, i2[i], lay, ps, qs);
    forall j, q | 0 <= j < |i0| && j != i && ValidPos(q) ensures Addr(b2, i2[j], q) == Addr(b0, i0[j], q) {
      assert Addr(b1, i1[j], q) == Addr(b0, i0[j], q);
    }
  }

  lemma SpentThenWrote(b0: seq<Block>, i0: seq<Inode>, b1: seq<Block>, i1: seq<Inode>, b2: seq<Block>, lay: Layout,
                       i: nat, ps: set<Pos>)
    requires Spent(b0, i0, b1, i1, lay, i, ps) && ValidLayout(b2, lay) && |b2| == |b1| && SameTrees(b1, b2, i1)
    requires forall c :: 0 <= c < |b1| ==> Marked(b2, lay, c) == Marked(b1, lay, c)
    ensures Spent(b0, i0, b2, i1, lay, i, ps)
  {
    forall j, q | 0 <= j < |i0| && j != i && ValidPos(q) ensures Addr(b2, i1[j], q) == Addr(b0, i0[j], q) {
      assert Addr(b1, i1[j], q) == Addr(b0, i0[j], q);
    }
    TookThenWrote(b0, i0[i], b1, i1[i], b2, lay, ps);
  }

  // ---- ranges -------------------------------------------------------------

  lemma {:induction false} PathsGrow(lo: nat, mid: nat, hi: nat)
    requires lo <= mid <= hi <= MAXFILE
    ensures Paths(lo, mid) <= Paths(lo, hi)
    decreases hi - mid
  {
    if mid < hi { PathsGrow(lo, mid, hi - 1); }
  }

  lemma SubsetSize<T>(a: set<T>, b: set<T>)
    requires a <= b
    ensures |a| <= |b|
  {
    assert b == a + (b - a);
  }

  /** The next bytes, all in block bn, add the places on the way to that block. */
  lemma BytePathsNext(off: nat, tot: nat, more: nat, bn: nat)
    requires tot < more && off + more <= MAXBYTES
    requires bn == (off + tot) / BSIZE && (off + tot) % BSIZE + (more - tot) <= BSIZE
    ensures bn < MAXFILE && BytePaths(off, more) == BytePaths(off, tot) + Path(bn)
  {
    var lo := off / BSIZE;
    assert (off + more - 1) / BSIZE == bn;
    assert Paths(lo, bn + 1) == Paths(lo, bn) + Path(bn);
    if tot > 0 && (off + tot) % BSIZE == 0 {
      assert (off + tot - 1) / BSIZE == bn - 1;
    } else if tot > 0 {
      assert (off + tot - 1) / BSIZE == bn;
    }
  }

  lemma SpentNext(b0: seq<Block>, i0: seq<Inode>, b1: seq<Block>, i1: seq<Inode>, b2: seq<Block>, i2: seq<Inode>,
                  lay: Layout, i: nat, off: nat, tot: nat, more: nat, bn: nat)
    requires tot < more && off + more <= MAXBYTES && bn < MAXFILE
    requires bn == (off + tot) / BSIZE && (off + tot) % BSIZE + (more - tot) <= BSIZE
    requires Spent(b0, i0, b1, i1, lay, i, BytePaths(off, tot)) && Spent(b1, i1, b2, i2, lay, i, Path(bn))
    ensures Spent(b0, i0, b2, i2, lay, i, BytePaths(off, more))
  {
    BytePathsNext(off, tot, more, bn);
    SpentTrans(b0, i0, b1, i1, b2, i2, lay, i, BytePaths(off, tot), Path(bn));
  }

  /** When the room runs out on the way, the whole did not fit. */
  lemma NoRoom(b0: seq<Block>, ip0: Inode, b1: seq<Block>, ip1: Inode, lay: Layout,
               off: nat, tot: nat, more: nat, n: nat, bn: nat, room: nat)
    requires tot < more <= n && off + n <= MAXBYTES && bn < MAXFILE
    requires bn == (off + tot) / BSIZE && (off + tot) % BSIZE + (more - tot) <= BSIZE
    requires Took(b0, ip0, b1, ip1, lay, BytePaths(off, tot))
    requires Need(b0, ip0, off, tot) + |Lacking(b1, ip1, Path(bn))| > room
    ensures Need(b0, ip0, off, n) > room
  {
    BytePathsNext(off, tot, more, bn);
    LackingSplit(b0, ip0, b1, ip1, lay, BytePaths(off, tot), Path(bn));
    PathsGrow(off / BSIZE, (off + more - 1) / BSIZE + 1, (off + n - 1) / BSIZE + 1);
    SubsetSize(Lacking(b0, ip0, BytePaths(off, more)), Lacking(b0, ip0, BytePaths(off, n)));
  }

  // ---- the blocks of a whole file -----------------------------------------

  /** The number of data blocks of a file of the given size. */
  function BlocksIn(size: nat): (n: nat)
    ensures size <= MAXBYTES ==> n <= MAXFILE
  {
    (size + BSIZE - 1) / BSIZE
  }

  /** n data blocks, and beyond the direct ones the root and a second-level block for every 128. */
  function CountFor(n: nat): (c: nat) {
    if n <= NDIRECT then n else n + 1 + (n - NDIRECT + WORDS - 1) / WORDS
  }

  /** The data and index blocks of a file of the given size. */
  function Cost(size: nat): (n: nat)
    requires size <= MAXBYTES
  {
    |Paths(0, BlocksIn(size))|
  }

  /** Whether a place is on the way to one of the first n data blocks. */
  predicate InPaths(p: Pos, n: nat) {
    match p
    case Direct(d) => d < n
    case Root => NDIRECT < n
    case Mid(m) => NDIRECT + m * WORDS < n
    case Leaf(l, k) => NDIRECT + l * WORDS + k < n
  }

  lemma {:induction false} PathsIff(n: nat, p: Pos)
    requires n <= MAXFILE && ValidPos(p)
    ensures p in Paths(0, n) <==> InPaths(p, n)
  {
    if n > 0 {
      PathsIff(n - 1, p);
      PathIff(n - 1, p);
    }
  }

  lemma PathIff(bn: nat, p: Pos)
    requires bn < MAXFILE && ValidPos(p)
    ensures InPaths(p, bn + 1) <==> p in Path(bn) || InPaths(p, bn)
  {
    if bn >= NDIRECT {
      var n := bn - NDIRECT;
      assert n == n / WORDS * WORDS + n % WORDS;
    }
  }

  /** The places on the way to the first n data blocks, counted. */
  lemma {:induction false} PathsCount(n: nat)
    requires n <= MAXFILE
    ensures |Paths(0, n)| == CountFor(n)
  {
    if n > NDIRECT {
      PathsCount(n - 1);
      PathsCountNext(n);
    } else if n > 0 {
      PathsCount(n - 1);
      PathsCountDirect(n);
    }
  }

  lemma PathsCountDirect(n: nat)
    requires 0 < n <= NDIRECT
    ensures |Paths(0, n)| == |Paths(0, n - 1)| + 1
  {
    PathsIff(n - 1, Direct(n - 1));
    OneMore(Paths(0, n - 1), Direct(n - 1));
    assert Paths(0, n) == Paths(0, n - 1) + {Direct(n - 1)};
  }

  lemma PathsCountNext(n: nat)
    requires NDIRECT < n <= MAXFILE && |Paths(0, n - 1)| == CountFor(n - 1)
    ensures |Paths(0, n)| == CountFor(n)
  {
    var l, k := (n - 1 - NDIRECT) / WORDS, (n - 1 - NDIRECT) % WORDS;
    PathsIff(n - 1, Root);
    PathsIff(n - 1, Mid(l));
    PathsIff(n - 1, Leaf(l, k));
    NewPlaces(n, l, k);
    PathsNext(n, l, k);
    ThreeMore(Paths(0, n - 1), Root, Mid(l), Leaf(l, k));
    CountStep(n);
  }

  lemma PathsNext(n: nat, l: nat, k: nat)
    requires NDIRECT < n <= MAXFILE && l == (n - 1 - NDIRECT) / WORDS && k == (n - 1 - NDIRECT) % WORDS
    ensures Paths(0, n) == Paths(0, n - 1) + {Root} + {Mid(l)} + {Leaf(l, k)}
  {
    assert Path(n - 1) == {Root, Mid(l), Leaf(l, k)};
    assert Paths(0, n) == Paths(0, n - 1) + Path(n - 1);
  }

  /** Which of the three places on the way to block n - 1 are on the way to an earlier block. */
  lemma NewPlaces(n: nat, l: nat, k: nat)
    requires NDIRECT < n <= MAXFILE && n - 1 == NDIRECT + l * WORDS + k && l < WORDS && k < WORDS
    ensures InPaths(Root, n - 1) <==> n - 1 > NDIRECT
    ensures (InPaths(Mid(l), n - 1) <==> k > 0) && !InPaths(Leaf(l, k), n - 1)
  {
  }

  lemma CountStep(n: nat)
    requires NDIRECT < n
    ensures CountFor(n)
      == CountFor(n - 1) + 1 + (if n - 1 > NDIRECT then 0 else 1) + (if (n - 1 - NDIRECT) % WORDS > 0 then 0 else 1)
  {
  }

  lemma ThreeMore<T>(s: set<T>, a: T, b: T, c: T)
    requires a != b && b != c && a != c
    ensures |s + {a} + {b} + {c}|
      == |s| + (if a in s then 0 else 1) + (if b in s then 0 else 1) + (if c in s then 0 else 1)
  {
    OneMore(s, a);
    OneMore(s + {a}, b);
    OneMore(s + {a} + {b}, c);
  }

  lemma OneMore<T>(s: set<T>, a: T)
    ensures |s + {a}| == |s| + if a in s then 0 else 1
  {
    if a in s {
      assert s + {a} == s;
    }
  }

  /** The places that are recorded are those on the way to the blocks of the file. */
  ghost predicate Exact(blocks: seq<Block>, ip: Inode)
    requires ValidInode(ip)
  {
    forall p {:trigger Addr(blocks, ip, p)} :: ValidPos(p) ==>
      (Addr(blocks, ip, p) != 0 <==> p in Paths(0, BlocksIn(ip.size)))
  }

  lemma AppendPaths(size: nat, n: nat, now: nat)
    requires now == size + n <= MAXBYTES
    ensures Paths(0, BlocksIn(now)) == Paths(0, BlocksIn(size)) + BytePaths(size, n)
  {
    if n > 0 {
      assert (size + n - 1) / BSIZE + 1 == BlocksIn(now);
      PathsJoin(size / BSIZE, BlocksIn(size), BlocksIn(now));
    }
  }

  lemma {:induction false} PathsJoin(a: nat, b: nat, c: nat)
    requires a <= b <= c <= MAXFILE
    ensures Paths(0, c) == Paths(0, b) + Paths(a, c)
  {
    if b < c {
      PathsJoin(a, b, c - 1);
    } else {
      PathsFrom(a, c);
    }
  }

  lemma {:induction false} PathsFrom(a: nat, c: nat)
    requires a <= c <= MAXFILE
    ensures Paths(a, c) <= Paths(0, c)
    decreases c
  {
    if a < c { PathsFrom(a, c - 1); }
  }

  lemma CostIs(size: nat)
    requires size <= MAXBYTES
    ensures Cost(size) == CountFor(BlocksIn(size))
  {
    PathsCount(BlocksIn(size));
  }

  /** Appending to such a file takes what the longer file has more. */
  lemma ExactNeed(blocks: seq<Block>, ip: Inode, n: nat, now: nat, need: nat)
    requires ValidInode(ip) && Exact(blocks, ip) && now == ip.size + n <= MAXBYTES
    requires need == Need(blocks, ip, ip.size, n)
    ensures Cost(now) == Cost(ip.size) + need
  {
    AppendPaths(ip.size, n, now);
    ExactLacking(blocks, ip, Paths(0, BlocksIn(ip.size)), BytePaths(ip.size, n), Paths(0, BlocksIn(now)));
  }

  lemma ExactLacking(blocks: seq<Block>, ip: Inode, ps: set<Pos>, qs: set<Pos>, all: set<Pos>)
    requires ValidInode(ip) && (forall p :: p in qs ==> ValidPos(p)) && all == ps + qs
    requires forall p {:trigger Addr(blocks, ip, p)} :: ValidPos(p) ==> (Addr(blocks, ip, p) != 0 <==> p in ps)
    ensures |all| == |ps| + |Lacking(blocks, ip, qs)|
  {
    assert Lacking(blocks, ip, qs) == qs - ps;
    UnionSize(ps, qs);
  }

  lemma UnionSize<T>(a: set<T>, b: set<T>)
    ensures |a + b| == |a| + |b - a|
  {
    assert a + b == a + (b - a);
  }

  lemma ExactAfter(b0: seq<Block>, ip0: Inode, b1: seq<Block>, ip1: Inode, lay: Layout, n: nat, ip2: Inode)
    requires ValidInode(ip0) && Exact(b0, ip0) && ip0.size + n <= MAXBYTES
    requires Took(b0, ip0, b1, ip1, lay, BytePaths(ip0.size, n)) && ip2 == ip1.(size := ip0.size + n)
    ensures ValidInode(ip2) && Exact(b1, ip2)
  {
    AppendPaths(ip0.size, n, ip2.size);
    forall p | ValidPos(p) ensures Addr(b1, ip2, p) != 0 <==> p in Paths(0, BlocksIn(ip2.size)) {
      assert Addr(b1, ip2, p) == Addr(b1, ip1, p);
    }
  }
}
