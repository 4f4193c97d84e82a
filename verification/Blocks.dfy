/**
 Disk blocks as the kernel sees them: 512 bytes, read either as bytes or as
 128 little-endian 32-bit words (the `(uint*)bp->data` view).
 */
module Blocks {
  import opened Basics

  const BSIZE := 512
  const WORDS := 128

  type Byte = x: int | 0 <= x < 256
  type Block = b: seq<Byte> | |b| == BSIZE witness seq(BSIZE, _ => 0)

  /** A block as bzero leaves it. */
  function ZeroBlock(): (b: Block)
    ensures forall k :: 0 <= k < BSIZE ==> b[k] == 0
  {
    seq(BSIZE, _ => 0)
  }

  /** The i-th 32-bit word of a block. */
  function GetWord(b: Block, i: nat): (w: nat)
    requires i < WORDS
    ensures w < TWO32
  {
    var b0: int, b1: int, b2: int, b3: int := b[4 * i], b[4 * i + 1], b[4 * i + 2], b[4 * i + 3];
    b0 + 0x100 * b1 + 0x1_0000 * b2 + 0x100_0000 * b3
  }

  /** Store w, truncated to 32 bits, as the i-th word of a block. */
  function PutWord(b: Block, i: nat, w: nat): (r: Block)
    requires i < WORDS
  {
    b[4 * i     := w % 0x100]
     [4 * i + 1 := w / 0x100 % 0x100]
     [4 * i + 2 := w / 0x1_0000 % 0x100]
     [4 * i + 3 := w / 0x100_0000 % 0x100]
  }

  /** A stored word reads back (mod 2^32), and no other word changes. */
  lemma PutGet(b: Block, i: nat, w: nat)
    requires i < WORDS
    ensures GetWord(PutWord(b, i, w), i) == w % TWO32 && (w < TWO32 ==> GetWord(PutWord(b, i, w), i) == w)
    ensures forall j: nat :: j < WORDS && j != i ==> GetWord(PutWord(b, i, w), j) == GetWord(b, j)
  {
    PutSame(b, i, w);
    forall j: nat | j < WORDS && j != i ensures GetWord(PutWord(b, i, w), j) == GetWord(b, j) {
      PutOther(b, i, w, j);
    }
  }

  lemma PutSame(b: Block, i: nat, w: nat)
    requires i < WORDS
    ensures GetWord(PutWord(b, i, w), i) == w % TWO32 && (w < TWO32 ==> GetWord(PutWord(b, i, w), i) == w)
  {
    Digits(w);
  }

  lemma PutOther(b: Block, i: nat, w: nat, j: nat)
    requires i < WORDS && j < WORDS && j != i
    ensures GetWord(PutWord(b, i, w), j) == GetWord(b, j)
  {
  }

  lemma Digits(w: nat)
    ensures w % 0x100 + 0x100 * (w / 0x100 % 0x100) + 0x1_0000 * (w / 0x1_0000 % 0x100)
         + 0x100_0000 * (w / 0x100_0000 % 0x100) == w % TWO32
  {
    assert w / 0x1_0000 == w / 0x100 / 0x100;
    assert w / 0x100_0000 == w / 0x1_0000 / 0x100;
    assert w / TWO32 == w / 0x100_0000 / 0x100;
  }
}
