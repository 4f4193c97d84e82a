/**
 Two programs, one format: what mkfs builds from any sequence of new files and
 appended data the kernel reads back, and mkfs succeeds iff the data and index
 blocks of the files fit on the disk.
 */
module MkfsBuild {
  import opened Basics
  import opened Blocks
  import opened FsLayout
  import opened FsSteps
  import opened FsWrites
  import opened FsSpace
  import opened FileSystem
  import opened Mkfs

  /** What main does before its last step: ialloc for the next inode, iappend to an inode it has made. */
  datatype Op = New(kind: int) | Append(i: nat, data: seq<Byte>)

  function Made(ops: seq<Op>): (n: nat) {
    if ops == [] then 0 else Made(ops[..|ops| - 1]) + if ops[|ops| - 1].New? then 1 else 0
  }

  predicate WellFormed(ops: seq<Op>) {
    ops != [] ==>
      var before, op := ops[..|ops| - 1], ops[|ops| - 1];
      && WellFormed(before)
      && match op
         case New(kind) => kind == T_DIR || kind == T_FILE
         case Append(i, _) => 0 < i <= Made(before) && i < NINODES
  }

  /** The files the operations ask for. */
  function Asked(ops: seq<Op>): (files: seq<seq<Byte>>)
    ensures |files| == NINODES
  {
    if ops == [] then seq(NINODES, _ => [])
    else
      var files, op := Asked(ops[..|ops| - 1]), ops[|ops| - 1];
      if op.Append? && op.i < NINODES then files[op.i := files[op.i] + op.data] else files
  }

  /** No file is too large, and the blocks they need are on the disk. */
  predicate Enough(size: nat, files: seq<seq<Byte>>) {
    && (forall j :: 0 <= j < |files| ==> |files[j]| <= MAXBYTES)
    && (Total(files) == 0 || MkLayout(size).data + Total(files) <= size)
  }

  /** The blocks of the inodes made are on the disk. */
  predicate Reachable(size: nat, made: nat) {
    made < NINODES && (made > 0 ==> InodeBlock(made) < size)
  }

  /** Enough for the files asked for, and inodes for them. */
  predicate Possible(size: nat, ops: seq<Op>) {
    Enough(size, Asked(ops)) && Reachable(size, Made(ops))
  }

  /** Their blocks are also within the one bitmap block that mkfs writes. */
  predicate Fitting(size: nat, ops: seq<Op>) {
    Possible(size, ops) && MkLayout(size).data + Total(Asked(ops)) <= BPB
  }

  // ---- earlier states need no more ----------------------------------------

  ghost predicate NoLonger(files: seq<seq<Byte>>, files': seq<seq<Byte>>) {
    |files| == |files'| && forall j :: 0 <= j < |files| ==> |files[j]| <= |files'[j]|
  }

  lemma CostGrows(a: nat, b: nat)
    requires a <= b <= MAXBYTES
    ensures Cost(a) <= Cost(b)
  {
    PathsGrow(0, BlocksIn(a), BlocksIn(b));
    SubsetSize(Paths(0, BlocksIn(a)), Paths(0, BlocksIn(b)));
  }

  lemma {:induction false} TotalMono(files: seq<seq<Byte>>, files': seq<seq<Byte>>)
    requires NoLonger(files, files') && forall j :: 0 <= j < |files'| ==> |files'[j]| <= MAXBYTES
    ensures forall j :: 0 <= j < |files| ==> |files[j]| <= MAXBYTES
    ensures Total(files) <= Total(files')
  {
    var n := |files| - 1;
    if n >= 0 {
      TotalMono(files[..n], files'[..n]);
      CostGrows(|files[n]|, |files'[n]|);
    }
  }

  lemma EnoughBefore(size: nat, files: seq<seq<Byte>>, files': seq<seq<Byte>>)
    requires NoLonger(files, files') && Enough(size, files')
    ensures Enough(size, files)
  {
    TotalMono(files, files');
  }

  lemma {:induction false} AskedMono(ops: seq<Op>, n: nat)
    requires n <= |ops|
    ensures NoLonger(Asked(ops[..n]), Asked(ops)) && Made(ops[..n]) <= Made(ops)
    ensures WellFormed(ops) ==> WellFormed(ops[..n])
  {
    if n < |ops| {
      var before := ops[..|ops| - 1];
      AskedMono(before, n);
      assert before[..n] == ops[..n];
    } else {
      assert ops[..n] == ops;
    }
  }

  /** One more operation. */
  ghost predicate Then(before: seq<Op>, op: Op, after: seq<Op>) {
    after != [] && after[..|after| - 1] == before && after[|after| - 1] == op
  }

  /** If the first n operations ask for too much, so do all. */
  lemma NotBefore(size: nat, ops: seq<Op>, n: nat)
    requires n <= |ops|
    ensures Possible(size, ops) ==> Possible(size, ops[..n])
    ensures WellFormed(ops) ==> WellFormed(ops[..n])
    ensures n > 0 ==> Then(ops[..n - 1], ops[n - 1], ops[..n])
  {
    AskedMono(ops, n);
    if n > 0 { assert ops[..n][..n - 1] == ops[..n - 1]; }
    if Enough(size, Asked(ops)) { EnoughBefore(size, Asked(ops[..n]), Asked(ops)); }
  }

  /** There is room for the append iff there is enough for the files after it. */
  lemma FitsIffEnough(s: Store, lay: Layout, size: nat, i: nat, data: seq<Byte>, files: seq<seq<Byte>>)
    requires Holds(s, lay, files) && lay == MkLayout(size) && i < |files| && Enough(size, files)
    requires |s.blocks| - Free(s.blocks, lay) == lay.data + Total(files)
    ensures Fits(s, lay, i, |data|) <==> Enough(size, files[i := files[i] + data])
    ensures Fits(s, lay, i, |data|) ==>
      Total(files[i := files[i] + data]) == Total(files) + Need(s.blocks, s.inodes[i], s.inodes[i].size, |data|)
  {
    var files' := files[i := files[i] + data];
    assert |files[i]| == s.inodes[i].size;
    if s.inodes[i].size + |data| <= MAXBYTES {
      var need := Need(s.blocks, s.inodes[i], s.inodes[i].size, |data|);
      TotalAppend(s.blocks, s.inodes[i], |data|, need, files, i, files[i] + data);
    } else {
      assert |files'[i]| > MAXBYTES;
    }
  }

  /** The state of mkfs after the operations. */
  ghost predicate Built(mk: Mkfs, size: nat, ops: seq<Op>)
    reads mk
  {
    && mk.Valid() && mk.lay == MkLayout(size) && |mk.inodes| == NINODES && mk.freeinode == 1 + Made(ops)
    && mk.Files() == Asked(ops) && Enough(size, Asked(ops)) && mk.freeblock == mk.lay.data + Total(Asked(ops))
    && forall j :: 0 <= j < |mk.inodes| ==> mk.inodes[j].kind != T_DEV
  }

  method AppendStep(mk: Mkfs, size: nat, i: nat, data: seq<Byte>, ghost before: seq<Op>, ghost after: seq<Op>)
    returns (ok: bool)
    requires Built(mk, size, before) && Then(before, Append(i, data), after) && 0 < i <= Made(before) && i < NINODES
    modifies mk
    ensures ok <==> Enough(size, Asked(after))
    ensures ok ==> Built(mk, size, after)
  {
    MirrorFree(mk.sectors, mk.store.blocks, mk.lay, mk.freeblock);
    FitsIffEnough(mk.store, mk.lay, size, i, data, Asked(before));
    ok := mk.Iappend(i, data);
  }

  method NewStep(mk: Mkfs, size: nat, kind: int, ghost before: seq<Op>, ghost after: seq<Op>) returns (ok: bool)
    requires Built(mk, size, before) && Then(before, New(kind), after) && (kind == T_DIR || kind == T_FILE)
    modifies mk
    ensures ok <==> Reachable(size, Made(after))
    ensures ok ==> Built(mk, size, after)
  {
    ok := mk.freeinode < NINODES;
    if ok {
      var inum;
      ok, inum := mk.Ialloc(kind);
    }
  }

  method Step(mk: Mkfs, size: nat, op: Op, ghost before: seq<Op>, ghost after: seq<Op>) returns (ok: bool)
    requires Built(mk, size, before) && Then(before, op, after) && WellFormed(after) && Reachable(size, Made(before))
    modifies mk
    ensures ok <==> Possible(size, after)
    ensures ok ==> Built(mk, size, after)
  {
    match op
    case New(kind) => ok := NewStep(mk, size, kind, before, after);
    case Append(i, data) => ok := AppendStep(mk, size, i, data, before, after);
  }

  method Start(size: nat) returns (mk: Mkfs)
    requires 0 < size <= MAX_SIZE
    ensures fresh(mk) && Built(mk, size, [])
  {
    mk := new Mkfs(size);
    TotalZero(Asked([]));
  }

  /** main up to its last step succeeds iff there is enough for all the files, and then holds them. */
  method Build(size: nat, ops: seq<Op>) returns (ok: bool, mk: Mkfs)
    requires 0 < size <= MAX_SIZE && WellFormed(ops)
    ensures fresh(mk)
    ensures ok <==> Possible(size, ops)
    ensures ok ==> Built(mk, size, ops)
  {
    mk := Start(size);
    var n := 0;
    assert ops[..0] == [];
    while n < |ops|
      invariant 0 <= n <= |ops| && fresh(mk) && Built(mk, size, ops[..n])
      invariant Reachable(size, Made(ops[..n]))
    {
      NotBefore(size, ops, n + 1);
      ok := Step(mk, size, ops[n], ops[..n], ops[..n + 1]);
      if !ok {
        return;
      }
      n := n + 1;
    }
    assert ops[..n] == ops;
    ok := true;
  }

  /**
   mkfs builds an image, the root directory's size is rounded up, the bitmap is
   written, and the kernel reads file i from start to end.  mkfs succeeds iff the
   files fit; the kernel reads what was appended, the root directory with zeros
   up to its rounded size.  The result is None for a root directory that ends on a
   block boundary: its last block is not mapped.
   */
  method BuildThenRead(size: nat, ops: seq<Op>, i: nat) returns (ok: bool, dst: Option<seq<Byte>>)
    requires 0 < size <= MAX_SIZE && WellFormed(ops) && 0 < i <= Made(ops) && |Asked(ops)[ROOTINO]| < MAXBYTES
    ensures ok <==> Fitting(size, ops)
    ensures ok && i != ROOTINO ==> i < NINODES && dst == Some(Asked(ops)[i])
    ensures ok && i == ROOTINO ==>
      var root := Asked(ops)[ROOTINO];
      dst == if |root| % BSIZE == 0 then None else Some(Padded(root, RootSize(|root|)))
  {
    dst := None;
    var mk;
    ok, mk := Build(size, ops);
    if !ok || mk.usedblocks > BPB {
      return false, dst;
    }
    ghost var files := Asked(ops);
    var hole := i == ROOTINO && mk.inodes[ROOTINO].size % BSIZE == 0;
    assert |files[ROOTINO]| == mk.inodes[ROOTINO].size;
    mk.FixRoot();
    mk.Balloc();
    if !hole {
      dst := ReadWhole(mk.lay, mk.sectors, mk.inodes, mk.store.owner, i);
    }
  }

  /** The kernel on a sound image reads a file without gaps from start to end. */
  method ReadWhole(lay: Layout, image: seq<Block>, inodes: seq<Inode>, ghost owner: Owner, i: nat)
    returns (dst: Option<seq<Byte>>)
    requires Sound(image, inodes, lay, owner) && ZeroTails(image, inodes) && i < |inodes|
    requires Tight(image, inodes[i]) && inodes[i].kind != T_DEV
    ensures dst == Some(Image(image, inodes)[i])
  {
    var fs := new FileSystem(lay, image, inodes, owner);
    TightAllMapped(image, inodes[i], 0, inodes[i].size);
    var r, bytes := fs.Readi(i, 0, inodes[i].size);
    ghost var c := Contents(image, inodes[i]);
    assert c[0..|c|] == c;
    dst := Some(bytes);
  }
}
