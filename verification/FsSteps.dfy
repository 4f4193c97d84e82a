/**
 What the elementary changes to the block store do to the trees of all inodes:
 marking a block, recording it at a position, overwriting a data block, and
 giving a block back.
 */
module FsSteps {
  import opened Blocks
  import opened FsLayout

  type Owner = map<nat, Place>

  /** The trees are the same except that b is now recorded at position p of inode i. */
  ghost predicate Installed(blocks: seq<Block>, inodes: seq<Inode>, blocks': seq<Block>, inodes': seq<Inode>,
                            i: nat, p: Pos, b: nat)
    requires ValidInodes(inodes) && ValidInodes(inodes')
  {
    && |inodes| == |inodes'|
    && forall j, q {:trigger Addr(blocks', inodes'[j], q)} :: 0 <= j < |inodes| && ValidPos(q) ==>
         Addr(blocks', inodes'[j], q) == if j == i && q == p then b else Addr(blocks, inodes[j], q)
  }

  ghost predicate SameTrees(blocks: seq<Block>, blocks': seq<Block>, inodes: seq<Inode>)
    requires ValidInodes(inodes)
  {
    forall j, q {:trigger Addr(blocks', inodes[j], q)} ::
      0 <= j < |inodes| && ValidPos(q) ==> Addr(blocks', inodes[j], q) == Addr(blocks, inodes[j], q)
  }

  /** Every recorded data block keeps its bytes. */
  ghost predicate SameData(blocks: seq<Block>, blocks': seq<Block>, inodes: seq<Inode>)
    requires ValidInodes(inodes)
  {
    && |blocks| == |blocks'|
    && forall j, q {:trigger Addr(blocks, inodes[j], q)} :: 0 <= j < |inodes| && ValidPos(q) && IsData(q) ==>
         var a := Addr(blocks, inodes[j], q);
         0 < a < |blocks| ==> blocks'[a] == blocks[a]
  }

  /** b is marked but recorded nowhere, and all zeros. */
  ghost predicate Loose(blocks: seq<Block>, inodes: seq<Inode>, lay: Layout, b: nat)
    requires ValidLayout(blocks, lay) && ValidInodes(inodes)
  {
    && lay.data <= b < |blocks| && Marked(blocks, lay, b) && blocks[b] == ZeroBlock()
    && forall j, q {:trigger Addr(blocks, inodes[j], q)} :: 0 <= j < |inodes| && ValidPos(q) ==>
         Addr(blocks, inodes[j], q) != b
  }

  /** A tree depends only on its own indirect blocks. */
  lemma AddrFrame(blocks: seq<Block>, blocks': seq<Block>, ip: Inode, p: Pos)
    requires |ip.addrs| == NADDRS && ValidPos(p) && |blocks| == |blocks'|
    requires var r := ip.addrs[INDIRECT]; 0 < r < |blocks| ==> blocks'[r] == blocks[r]
    requires p.Leaf? ==> var m := Addr(blocks, ip, Mid(p.l)); 0 < m < |blocks| ==> blocks'[m] == blocks[m]
    ensures Addr(blocks', ip, p) == Addr(blocks, ip, p)
  {
  }

  /** x is the block at position p of inode i and at no other. */
  ghost predicate OnlyAt(blocks: seq<Block>, inodes: seq<Inode>, x: nat, i: nat, p: Pos)
    requires ValidInodes(inodes)
  {
    forall j, q {:trigger Addr(blocks, inodes[j], q)} ::
      0 <= j < |inodes| && ValidPos(q) && Addr(blocks, inodes[j], q) == x ==> j == i && q == p
  }

  /** A change to a block that is recorded nowhere but as data changes no tree. */
  lemma ChangeOutsideTrees(blocks: seq<Block>, inodes: seq<Inode>, x: nat, v: Block, i: nat, p: Pos)
    requires ValidInodes(inodes) && 0 < x < |blocks| && OnlyAt(blocks, inodes, x, i, p) && IsData(p)
    ensures SameTrees(blocks, blocks[x := v], inodes)
  {
    forall j, q | 0 <= j < |inodes| && ValidPos(q)
      ensures Addr(blocks[x := v], inodes[j], q) == Addr(blocks, inodes[j], q)
    {
      assert Addr(blocks, inodes[j], Root) != x;
      if q.Leaf? { assert ValidPos(Mid(q.l)); assert Addr(blocks, inodes[j], Mid(q.l)) != x; }
      AddrFrame(blocks, blocks[x := v], inodes[j], q);
    }
  }

  /** Two places never record the same block. */
  lemma Apart(blocks: seq<Block>, inodes: seq<Inode>, lay: Layout, owner: Owner, i: nat, p: Pos, x: nat)
    requires Sound(blocks, inodes, lay, owner) && i < |inodes| && ValidPos(p)
    requires x == Addr(blocks, inodes[i], p) != 0
    ensures lay.data <= x < |blocks| && Marked(blocks, lay, x)
    ensures OnlyAt(blocks, inodes, x, i, p)
  {
    assert OwnedBy(blocks, lay, owner, x, i, p);
    forall j, q | 0 <= j < |inodes| && ValidPos(q) && Addr(blocks, inodes[j], q) == x ensures j == i && q == p {
      assert OwnedBy(blocks, lay, owner, Addr(blocks, inodes[j], q), j, q);
    }
  }

  // ---- marking ------------------------------------------------------------

  lemma MarkKeepsTrees(blocks: seq<Block>, inodes: seq<Inode>, lay: Layout, owner: Owner, b: nat, v: bool)
    requires Sound(blocks, inodes, lay, owner) && b < |blocks|
    ensures SameTrees(blocks, WithMark(blocks, lay, b, v), inodes)
    ensures SameData(blocks, WithMark(blocks, lay, b, v), inodes)
    ensures forall c :: lay.data <= c < |blocks| ==> WithMark(blocks, lay, b, v)[c] == blocks[c]
  {
    var bb := BitmapBlockOf(lay, b);
    BitmapBlockInRange(blocks, lay, b);
    forall j, q | 0 <= j < |inodes| && ValidPos(q) ensures Addr(blocks, inodes[j], q) != bb {
      if Addr(blocks, inodes[j], q) != 0 {
        assert OwnedBy(blocks, lay, owner, Addr(blocks, inodes[j], q), j, q);
      }
    }
    ChangeOutsideTrees(blocks, inodes, bb, WithMark(blocks, lay, b, v)[bb], 0, Direct(0));
  }

  /** balloc: a free block is marked; nothing else changes, and the block is zero. */
  lemma MarkFree(blocks: seq<Block>, inodes: seq<Inode>, lay: Layout, owner: Owner, b: nat, blocks': seq<Block>)
    requires Sound(blocks, inodes, lay, owner) && b < |blocks| && !Marked(blocks, lay, b)
    requires blocks' == WithMark(blocks, lay, b, true)
    ensures Sound(blocks', inodes, lay, owner)
    ensures Loose(blocks', inodes, lay, b)
    ensures SameTrees(blocks, blocks', inodes) && SameData(blocks, blocks', inodes)
  {
    MarkKeepsTrees(blocks, inodes, lay, owner, b, true);
    forall c | 0 <= c < |blocks| ensures Marked(blocks', lay, c) == (c == b || Marked(blocks, lay, c)) {
      MarkChangesOne(blocks, lay, b, true, c);
    }
    forall j, q | 0 <= j < |inodes| && ValidPos(q) && Addr(blocks', inodes[j], q) != 0
      ensures OwnedBy(blocks', lay, owner, Addr(blocks', inodes[j], q), j, q) && Addr(blocks', inodes[j], q) != b
    {
      assert Addr(blocks', inodes[j], q) == Addr(blocks, inodes[j], q);
      assert OwnedBy(blocks, lay, owner, Addr(blocks, inodes[j], q), j, q);
    }
  }

  // ---- recording ----------------------------------------------------------

  /** Recording a loose block at an empty position keeps the store sound. */
  lemma InstallSound(blocks: seq<Block>, inodes: seq<Inode>, blocks': seq<Block>, inodes': seq<Inode>,
                     lay: Layout, owner: Owner, i: nat, p: Pos, b: nat)
    requires Sound(blocks, inodes, lay, owner) && Loose(blocks, inodes, lay, b)
    requires i < |inodes| && ValidPos(p) && ValidInodes(inodes') && |blocks'| == |blocks|
    requires Installed(blocks, inodes, blocks', inodes', i, p, b)
    requires forall c :: 0 <= c < |blocks| ==> Marked(blocks', lay, c) == Marked(blocks, lay, c)
    requires forall c :: lay.data <= c < |blocks| && !Marked(blocks, lay, c) ==> blocks'[c] == blocks[c]
    ensures Sound(blocks', inodes', lay, owner[b := Place(i, p)])
  {
    var owner' := owner[b := Place(i, p)];
    forall j, q | 0 <= j < |inodes'| && ValidPos(q) && Addr(blocks', inodes'[j], q) != 0
      ensures OwnedBy(blocks', lay, owner', Addr(blocks', inodes'[j], q), j, q)
    {
      if !(j == i && q == p) {
        assert Addr(blocks', inodes'[j], q) == Addr(blocks, inodes[j], q);
        assert OwnedBy(blocks, lay, owner, Addr(blocks, inodes[j], q), j, q);
      }
    }
  }

  /** Changing a data-area block changes no mark. */
  lemma DataChangeKeepsMarks(blocks: seq<Block>, lay: Layout, x: nat, v: Block)
    requires ValidLayout(blocks, lay) && lay.data <= x < |blocks|
    ensures forall c :: 0 <= c < |blocks| ==> Marked(blocks[x := v], lay, c) == Marked(blocks, lay, c)
  {
  }

  /** An inode's address number k, a direct block or the indirect root, is set to b. */
  lemma InstallAddr(blocks: seq<Block>, inodes: seq<Inode>, lay: Layout, owner: Owner, i: nat, k: nat, b: nat,
                    inodes': seq<Inode>)
    requires Sound(blocks, inodes, lay, owner) && Loose(blocks, inodes, lay, b)
    requires i < |inodes| && k < NADDRS && inodes[i].addrs[k] == 0
    requires inodes' == inodes[i := inodes[i].(addrs := inodes[i].addrs[k := b])]
    ensures var p := if k < NDIRECT then Direct(k) else Root;
      && ValidInodes(inodes')
      && Installed(blocks, inodes, blocks, inodes', i, p, b)
      && Sound(blocks, inodes', lay, owner[b := Place(i, p)])
  {
    var p := if k < NDIRECT then Direct(k) else Root;
    forall j, q | 0 <= j < |inodes| && ValidPos(q)
      ensures Addr(blocks, inodes'[j], q) == if j == i && q == p then b else Addr(blocks, inodes[j], q)
    {
      if j == i && p == Root && (q.Mid? || q.Leaf?) {
        ZeroEntries(blocks, b);
      }
    }
    InstallSound(blocks, inodes, blocks, inodes', lay, owner, i, p, b);
  }

  lemma ZeroEntries(blocks: seq<Block>, b: nat)
    requires b < |blocks| && blocks[b] == ZeroBlock()
    ensures forall m: nat :: m < WORDS ==> Entry(blocks, b, m) == 0
  {
  }

  /** The block v is u with word m set to b. */
  ghost predicate OneWord(u: Block, v: Block, m: nat, b: nat) {
    forall n: nat {:trigger GetWord(v, n)} :: n < WORDS ==> GetWord(v, n) == if n == m then b else GetWord(u, n)
  }

  /** Setting an empty entry of the root block, as seen by all trees. */
  lemma RootEntryTrees(blocks: seq<Block>, inodes: seq<Inode>, i: nat, m: nat, b: nat, v: Block)
    requires ValidInodes(inodes) && i < |inodes| && m < WORDS
    requires var r := Addr(blocks, inodes[i], Root);
      && 0 < r < |blocks| && OnlyAt(blocks, inodes, r, i, Root) && OneWord(blocks[r], v, m, b)
      && 0 < b < |blocks| && b != r && blocks[b] == ZeroBlock()
    requires Addr(blocks, inodes[i], Mid(m)) == 0
    ensures Installed(blocks, inodes, blocks[Addr(blocks, inodes[i], Root) := v], inodes, i, Mid(m), b)
  {
    var r := Addr(blocks, inodes[i], Root);
    var blocks' := blocks[r := v];
    ZeroEntries(blocks', b);
    forall j, q | 0 <= j < |inodes| && ValidPos(q)
      ensures Addr(blocks', inodes[j], q) == if j == i && q == Mid(m) then b else Addr(blocks, inodes[j], q)
    {
      assert j != i ==> Addr(blocks, inodes[j], Root) != r;
      if q.Leaf? { assert ValidPos(Mid(q.l)); assert Addr(blocks, inodes[j], Mid(q.l)) != r; }
    }
  }

  /** Setting an empty entry of a second-level block, as seen by all trees. */
  lemma MidEntryTrees(blocks: seq<Block>, inodes: seq<Inode>, i: nat, l: nat, k: nat, b: nat, v: Block)
    requires ValidInodes(inodes) && i < |inodes| && l < WORDS && k < WORDS
    requires var r := Addr(blocks, inodes[i], Mid(l));
      0 < r < |blocks| && OnlyAt(blocks, inodes, r, i, Mid(l)) && OneWord(blocks[r], v, k, b)
    ensures Installed(blocks, inodes, blocks[Addr(blocks, inodes[i], Mid(l)) := v], inodes, i, Leaf(l, k), b)
  {
    var r := Addr(blocks, inodes[i], Mid(l));
    var blocks' := blocks[r := v];
    forall j, q | 0 <= j < |inodes| && ValidPos(q)
      ensures Addr(blocks', inodes[j], q) == if j == i && q == Leaf(l, k) then b else Addr(blocks, inodes[j], q)
    {
      assert Addr(blocks, inodes[j], Root) != r;
      if q.Leaf? {
        assert ValidPos(Mid(q.l));
        assert Addr(blocks, inodes[j], Mid(q.l)) == r ==> j == i && Mid(q.l) == Mid(l);
      }
    }
  }

  /** Changing an indirect block keeps all data blocks. */
  lemma IndirectChangeKeepsData(blocks: seq<Block>, inodes: seq<Inode>, x: nat, v: Block, i: nat, p: Pos)
    requires ValidInodes(inodes) && x < |blocks| && OnlyAt(blocks, inodes, x, i, p) && !IsData(p)
    ensures SameData(blocks, blocks[x := v], inodes)
  {
  }

  /** An empty entry m of the root block is set to b. */
  lemma InstallMid(blocks: seq<Block>, inodes: seq<Inode>, lay: Layout, owner: Owner, i: nat, m: nat, b: nat, r: nat,
                   v: Block)
    requires Sound(blocks, inodes, lay, owner) && Loose(blocks, inodes, lay, b)
    requires i < |inodes| && m < WORDS && r == Addr(blocks, inodes[i], Root) != 0
      && Addr(blocks, inodes[i], Mid(m)) == 0
    requires r < |blocks| && OneWord(blocks[r], v, m, b)
    ensures Installed(blocks, inodes, blocks[r := v], inodes, i, Mid(m), b)
    ensures SameData(blocks, blocks[r := v], inodes)
    ensures Sound(blocks[r := v], inodes, lay, owner[b := Place(i, Mid(m))])
  {
    Apart(blocks, inodes, lay, owner, i, Root, r);
    RootEntryTrees(blocks, inodes, i, m, b, v);
    IndirectChangeKeepsData(blocks, inodes, r, v, i, Root);
    DataChangeKeepsMarks(blocks, lay, r, v);
    InstallSound(blocks, inodes, blocks[r := v], inodes, lay, owner, i, Mid(m), b);
  }

  /** An empty entry k of a second-level block is set to b. */
  lemma InstallLeaf(blocks: seq<Block>, inodes: seq<Inode>, lay: Layout, owner: Owner, i: nat, l: nat, k: nat,
                    b: nat, r: nat, v: Block)
    requires Sound(blocks, inodes, lay, owner) && Loose(blocks, inodes, lay, b)
    requires i < |inodes| && l < WORDS && k < WORDS
    requires r == Addr(blocks, inodes[i], Mid(l)) != 0 && Addr(blocks, inodes[i], Leaf(l, k)) == 0
    requires r < |blocks| && OneWord(blocks[r], v, k, b)
    ensures Installed(blocks, inodes, blocks[r := v], inodes, i, Leaf(l, k), b)
    ensures SameData(blocks, blocks[r := v], inodes)
    ensures Sound(blocks[r := v], inodes, lay, owner[b := Place(i, Leaf(l, k))])
  {
    Apart(blocks, inodes, lay, owner, i, Mid(l), r);
    MidEntryTrees(blocks, inodes, i, l, k, b, v);
    IndirectChangeKeepsData(blocks, inodes, r, v, i, Mid(l));
    DataChangeKeepsMarks(blocks, lay, r, v);
    InstallSound(blocks, inodes, blocks[r := v], inodes, lay, owner, i, Leaf(l, k), b);
  }

  // ---- overwriting a data block -------------------------------------------

  lemma DataWrite(blocks: seq<Block>, inodes: seq<Inode>, lay: Layout, owner: Owner, i: nat, p: Pos, x: nat, v: Block)
    requires Sound(blocks, inodes, lay, owner) && i < |inodes| && ValidPos(p) && IsData(p)
    requires x == Addr(blocks, inodes[i], p) && 0 < x < |blocks|
    ensures Sound(blocks[x := v], inodes, lay, owner)
    ensures SameTrees(blocks, blocks[x := v], inodes)
    ensures OnlyAt(blocks, inodes, x, i, p)
  {
    Apart(blocks, inodes, lay, owner, i, p, x);
    ChangeOutsideTrees(blocks, inodes, x, v, i, p);
    DataChangeKeepsMarks(blocks, lay, x, v);
    SameTreesOwns(blocks, blocks[x := v], inodes, lay, owner);
  }

  /** Same trees and same marks: same owners. */
  lemma SameTreesOwns(blocks: seq<Block>, blocks': seq<Block>, inodes: seq<Inode>, lay: Layout, owner: Owner)
    requires ValidLayout(blocks, lay) && ValidLayout(blocks', lay) && ValidInodes(inodes)
      && Owns(blocks, inodes, lay, owner)
    requires SameTrees(blocks, blocks', inodes)
    requires forall c :: 0 <= c < |blocks| && Marked(blocks, lay, c) ==> Marked(blocks', lay, c)
    ensures Owns(blocks', inodes, lay, owner)
  {
    forall j, q | 0 <= j < |inodes| && ValidPos(q) && Addr(blocks', inodes[j], q) != 0
      ensures OwnedBy(blocks', lay, owner, Addr(blocks', inodes[j], q), j, q)
    {
      assert Addr(blocks', inodes[j], q) == Addr(blocks, inodes[j], q);
      assert OwnedBy(blocks, lay, owner, Addr(blocks, inodes[j], q), j, q);
    }
  }

  // ---- what files see -----------------------------------------------------

  /**
   From one state to the next every file's bytes are the same, and no data
   address changes except possibly the one at position p of inode i.
   */
  ghost predicate Grew(blocks: seq<Block>, inodes: seq<Inode>, blocks': seq<Block>, inodes': seq<Inode>, i: nat, p: Pos)
    requires ValidInodes(inodes) && ValidInodes(inodes')
  {
    && |inodes| == |inodes'| && |blocks| == |blocks'| && i < |inodes|
    && (forall j :: 0 <= j < |inodes| && j != i ==> inodes'[j] == inodes[j])
    && inodes'[i] == inodes[i].(addrs := inodes'[i].addrs)
    && (forall j, q {:trigger Addr(blocks', inodes'[j], q)} ::
         0 <= j < |inodes| && ValidPos(q) && IsData(q) && !(j == i && q == p) ==>
         Addr(blocks', inodes'[j], q) == Addr(blocks, inodes[j], q))
    && SameBytes(blocks, inodes, blocks', inodes')
  }

  ghost predicate SameBytes(blocks: seq<Block>, inodes: seq<Inode>, blocks': seq<Block>, inodes': seq<Inode>)
    requires ValidInodes(inodes) && ValidInodes(inodes')
  {
    && |inodes| == |inodes'|
    && forall j, k {:trigger Raw(blocks', inodes'[j], k)} :: 0 <= j < |inodes| && 0 <= k < MAXBYTES ==>
         Raw(blocks', inodes'[j], k) == Raw(blocks, inodes[j], k)
  }

  /** Recording a zero block at an empty position changes no file's bytes. */
  lemma InstalledSameBytes(blocks: seq<Block>, inodes: seq<Inode>, blocks': seq<Block>, inodes': seq<Inode>, i: nat,
                           q: Pos, b: nat)
    requires ValidInodes(inodes) && ValidInodes(inodes') && i < |inodes| && ValidPos(q)
    requires Installed(blocks, inodes, blocks', inodes', i, q, b) && SameData(blocks, blocks', inodes)
    requires Addr(blocks, inodes[i], q) == 0
    requires b < |blocks| && (IsData(q) ==> blocks'[b] == ZeroBlock())
    ensures SameBytes(blocks, inodes, blocks', inodes')
  {
    forall j, k | 0 <= j < |inodes| && 0 <= k < MAXBYTES
      ensures Raw(blocks', inodes'[j], k) == Raw(blocks, inodes[j], k)
    {
      var p := DataPos(k / BSIZE);
      assert Addr(blocks', inodes'[j], p) == if j == i && p == q then b else Addr(blocks, inodes[j], p);
    }
  }

  lemma GrewTrans(b0: seq<Block>, i0: seq<Inode>, b1: seq<Block>, i1: seq<Inode>, b2: seq<Block>, i2: seq<Inode>,
                  i: nat, p: Pos)
    requires ValidInodes(i0) && ValidInodes(i1) && ValidInodes(i2)
    requires Grew(b0, i0, b1, i1, i, p) && Grew(b1, i1, b2, i2, i, p)
    ensures Grew(b0, i0, b2, i2, i, p)
  {
    forall j, k | 0 <= j < |i0| && 0 <= k < MAXBYTES ensures Raw(b2, i2[j], k) == Raw(b0, i0[j], k) {
      assert Raw(b1, i1[j], k) == Raw(b0, i0[j], k);
    }
    forall j, q | 0 <= j < |i0| && ValidPos(q) && IsData(q) && !(j == i && q == p)
      ensures Addr(b2, i2[j], q) == Addr(b0, i0[j], q)
    {
      assert Addr(b1, i1[j], q) == Addr(b0, i0[j], q);
    }
  }

  /** Overwriting one data block changes just those bytes of that file. */
  lemma DataWriteBytes(blocks: seq<Block>, inodes: seq<Inode>, i: nat, bn: nat, x: nat, v: Block)
    requires ValidInodes(inodes) && i < |inodes| && bn < MAXFILE
    requires x == Addr(blocks, inodes[i], DataPos(bn)) && 0 < x < |blocks|
    requires OnlyAt(blocks, inodes, x, i, DataPos(bn)) && SameTrees(blocks, blocks[x := v], inodes)
    ensures forall j, k {:trigger Raw(blocks[x := v], inodes[j], k)} :: 0 <= j < |inodes| && 0 <= k < MAXBYTES ==>
      Raw(blocks[x := v], inodes[j], k)
        == if j == i && k / BSIZE == bn then v[k % BSIZE] else Raw(blocks, inodes[j], k)
  {
    forall j, k | 0 <= j < |inodes| && 0 <= k < MAXBYTES
      ensures Raw(blocks[x := v], inodes[j], k)
        == if j == i && k / BSIZE == bn then v[k % BSIZE] else Raw(blocks, inodes[j], k)
    {
      var p := DataPos(k / BSIZE);
      assert Addr(blocks[x := v], inodes[j], p) == Addr(blocks, inodes[j], p);
      if p == DataPos(bn) { DataPosInjective(k / BSIZE, bn); }
    }
  }

  // ---- giving a block back ------------------------------------------------

  /** Zeroing a recorded data block changes no tree and leaves the store sound. */
  lemma ZeroData(blocks: seq<Block>, inodes: seq<Inode>, lay: Layout, owner: Owner, i: nat, d: nat, b: nat)
    requires Sound(blocks, inodes, lay, owner) && i < |inodes| && d < NDIRECT && b == inodes[i].addrs[d] != 0
    ensures lay.data <= b < |blocks| && Marked(blocks, lay, b)
    ensures Sound(blocks[b := ZeroBlock()], inodes, lay, owner)
    ensures SameTrees(blocks, blocks[b := ZeroBlock()], inodes)
    ensures OnlyAt(blocks[b := ZeroBlock()], inodes, b, i, Direct(d))
  {
    assert Addr(blocks, inodes[i], Direct(d)) == b;
    Apart(blocks, inodes, lay, owner, i, Direct(d), b);
    DataWrite(blocks, inodes, lay, owner, i, Direct(d), b, ZeroBlock());
    Apart(blocks[b := ZeroBlock()], inodes, lay, owner, i, Direct(d), b);
  }

  /** Striking a direct address that is a leaf of the tree changes only that place. */
  lemma StrikeTrees(blocks: seq<Block>, inodes: seq<Inode>, i: nat, d: nat, inodes': seq<Inode>)
    requires ValidInodes(inodes) && i < |inodes| && d < NDIRECT
    requires inodes' == inodes[i := inodes[i].(addrs := inodes[i].addrs[d := 0])]
    ensures ValidInodes(inodes') && Installed(blocks, inodes, blocks, inodes', i, Direct(d), 0)
  {
  }

  /** bfree of a direct block together with clearing the address. */
  lemma FreeDirectSound(blocks: seq<Block>, inodes: seq<Inode>, lay: Layout, owner: Owner, i: nat, d: nat, b: nat,
                        blocks': seq<Block>, inodes': seq<Inode>)
    requires Sound(blocks, inodes, lay, owner) && i < |inodes| && d < NDIRECT && b == inodes[i].addrs[d] != 0
    requires b < |blocks| && blocks[b] == ZeroBlock() && blocks' == WithMark(blocks, lay, b, false)
    requires inodes' == inodes[i := inodes[i].(addrs := inodes[i].addrs[d := 0])]
    ensures Sound(blocks', inodes', lay, owner)
    ensures Installed(blocks, inodes, blocks', inodes', i, Direct(d), 0)
    ensures SameData(blocks, blocks', inodes)
  {
    StrikeTrees(blocks, inodes, i, d, inodes');
    MarkKeepsTrees(blocks, inodes, lay, owner, b, false);
    forall c | 0 <= c < |blocks| ensures Marked(blocks', lay, c) == (c != b && Marked(blocks, lay, c)) {
      MarkChangesOne(blocks, lay, b, false, c);
    }
    assert Addr(blocks, inodes[i], Direct(d)) == b;
    Apart(blocks, inodes, lay, owner, i, Direct(d), b);
    forall j, q | 0 <= j < |inodes| && ValidPos(q)
      ensures Addr(blocks', inodes'[j], q) == if j == i && q == Direct(d) then 0 else Addr(blocks, inodes[j], q)
    {
      assert Addr(blocks', inodes[j], q) == Addr(blocks, inodes[j], q);
    }
    forall j, q | 0 <= j < |inodes'| && ValidPos(q) && Addr(blocks', inodes'[j], q) != 0
      ensures OwnedBy(blocks', lay, owner, Addr(blocks', inodes'[j], q), j, q)
    {
      assert Addr(blocks', inodes'[j], q) == Addr(blocks, inodes[j], q);
      assert OwnedBy(blocks, lay, owner, Addr(blocks, inodes[j], q), j, q);
    }
  }
}
