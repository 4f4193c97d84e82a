/**
 Three properties the file code does not have, each at an input where it fails:
 a write that leaves a gap, a block from beyond the disk, and a root directory
 whose last block is missing.
 */
module FsFailures {
  import opened Basics
  import opened Blocks
  import opened FsLayout
  import opened FsSteps
  import opened FsWrites
  import opened FsSpace
  import opened FileSystem
  import opened Mkfs
  import opened MkfsBuild

  /** One byte at offset 512 of an empty file takes one block. */
  lemma GapNeed(blocks: seq<Block>, ip: Inode)
    requires ValidInode(ip)
    ensures Need(blocks, ip, 512, 1) <= 1
  {
    assert Paths(1, 2) == Paths(1, 1) + Path(1) == {Direct(1)};
    SubsetSize(Lacking(blocks, ip, BytePaths(512, 1)), {Direct(1)});
  }

  /** The kernel on a fresh image with one empty file. */
  method OneFile() returns (fs: FileSystem)
    ensures fresh(fs) && fs.Valid() && |fs.inodes| > 1 && fs.inodes[1].kind == T_FILE && fs.inodes[1].size == 0
    ensures Tight(fs.blocks, fs.inodes[1]) && Free(fs.blocks, fs.lay) > 0
  {
    var mk := new Mkfs(1024);
    var made, inum := mk.Ialloc(T_FILE);
    ExactTight(mk.store.blocks, mk.inodes[1]);
    mk.Balloc();
    SomeFree(mk.sectors, mk.lay, mk.usedblocks);
    fs := new FileSystem(mk.lay, mk.sectors, mk.inodes, mk.store.owner);
  }

  lemma SomeFree(blocks: seq<Block>, lay: Layout, used: nat)
    requires ValidLayout(blocks, lay) && used < |blocks|
    requires forall c :: 0 <= c < |blocks| ==> (Marked(blocks, lay, c) <==> c < used)
    ensures Free(blocks, lay) > 0
  {
    FreeIff(blocks, lay, |blocks|);
    assert !Marked(blocks, lay, used);
  }

  lemma GapAfter(s: Store, t: Store, data: seq<Byte>)
    requires ValidInodes(s.inodes) && ValidInodes(t.inodes) && Written(s, t, 1, 512, data) && |data| == 1
    requires s.inodes[1].size == 0 && Tight(s.blocks, s.inodes[1])
    ensures |t.inodes| > 1 && t.inodes[1].size == 513 && !Tight(t.blocks, t.inodes[1])
  {
    assert |Contents(t.blocks, t.inodes[1])| == 513;
  }

  /** One byte is written at offset 512 of the empty file: the file has a gap. */
  method GapWrite() returns (r: IoResult, blocks: seq<Block>, inodes: seq<Inode>)
    ensures r == Count(1) && |inodes| > 1 && ValidInodes(inodes)
    ensures inodes[1].size == 513 && !Tight(blocks, inodes[1])
  {
    var fs := OneFile();
    GapNeed(fs.blocks, fs.inodes[1]);
    ghost var s := fs.State();
    r := fs.Writei(1, [7], 512);
    blocks, inodes := fs.blocks, fs.inodes;
    GapAfter(s, fs.State(), [7][..1]);
  }

  /** A disk of 1000 blocks, all of them taken: balloc returns block 1000. */
  method BallocPastDisk() returns (r: Option<nat>)
    ensures r == Some(MkLayout(1000).size)
  {
    var lay := MkLayout(1000);
    var buf := BitmapOf(1000);
    var blocks := seq(Covered(lay), _ => ZeroBlock())[lay.bmap := buf];
    FullDisk(blocks, lay, buf);
    var fs := new FileSystem(lay, blocks, [], map[]);
    assert fs.blocks == blocks;
    assert Marked(blocks, lay, 1) && !Marked(blocks, lay, 1000);
    r := fs.Balloc();
  }

  lemma FullDisk(blocks: seq<Block>, lay: Layout, buf: Block)
    requires lay == MkLayout(1000) && blocks == seq(Covered(lay), _ => ZeroBlock())[lay.bmap := buf]
    requires forall c :: 0 <= c < BPB ==> (BlockBit(buf, c) <==> c < 1000)
    ensures Sound(blocks, [], lay, map[])
    ensures forall c :: 0 <= c < |blocks| ==> (Marked(blocks, lay, c) <==> c < 1000)
  {
    assert Covered(lay) == 4096;
    forall c | 0 <= c < |blocks| ensures Marked(blocks, lay, c) <==> c < 1000 { }
  }

  /** A root directory of 32 entries fills one block. */
  function RootOps(): (ops: seq<Op>)
    ensures |ops| == 2
  {
    [New(T_DIR), Append(ROOTINO, seq(512, _ => 7))]
  }

  lemma RootAsked()
    ensures WellFormed(RootOps()) && Made(RootOps()) == 1 && |Asked(RootOps())[ROOTINO]| == 512
    ensures Fitting(1024, RootOps())
  {
    var ops := RootOps();
    assert ops[..1] == [New(T_DIR)] && ops[..1][..0] == [];
    var before, files := Asked(ops[..1]), Asked(ops);
    assert before == Asked([]) && files == before[ROOTINO := before[ROOTINO] + seq(512, _ => 7)];
    TotalZero(before);
    CostIs(0);
    CostIs(512);
    TotalGrows(before, ROOTINO, files[ROOTINO], 0, 512, 1);
  }

  /** mkfs rounds its size up to two blocks, and the second one is missing. */
  method RootHole() returns (ok: bool, dst: Option<seq<Byte>>)
    ensures ok && dst == None
  {
    RootAsked();
    ok, dst := BuildThenRead(1024, RootOps(), ROOTINO);
  }
}
