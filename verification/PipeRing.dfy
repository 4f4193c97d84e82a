/**
 The pipe's ring buffer: 512 bytes, two counters that wrap at 2^32, and the loops
 of pipewrite and piperead, each proved to be the stretch on byte sequences.
 */
module PipeRing {
  import opened Basics
  import opened Pipe

  /** 512 divides 2^32, so a wrapped counter still names the right cell. */
  lemma WrapKeepsCell(k: nat)
    ensures (k % TWO32) % PIPESIZE == k % PIPESIZE
  {
    var q := k / TWO32;
    assert k % TWO32 == k - PIPESIZE * (q * (TWO32 / PIPESIZE));
    CellShift(k % TWO32, q * (TWO32 / PIPESIZE));
  }

  lemma CellShift(x: nat, m: nat)
    ensures (x + PIPESIZE * m) % PIPESIZE == x % PIPESIZE
  {
    assert (x + PIPESIZE * m) / PIPESIZE == x / PIPESIZE + m;
  }

  /** Counters at most PIPESIZE apart agree after wrapping exactly when they are equal. */
  lemma WrapTellsDistance(a: nat, b: nat, d: nat)
    requires a <= b <= a + PIPESIZE && d <= PIPESIZE
    ensures b % TWO32 == (a % TWO32 + d) % TWO32 <==> b == a + d
  {
    WrapAdd(a, d);
    if b % TWO32 == (a + d) % TWO32 {
      assert b - (a + d) == TWO32 * (b / TWO32 - (a + d) / TWO32);
    }
  }

  lemma WrapAdd(a: nat, d: nat)
    ensures (a % TWO32 + d) % TWO32 == (a + d) % TWO32
  {
    assert a == TWO32 * (a / TWO32) + a % TWO32;
    assert (a + d) / TWO32 == a / TWO32 + (a % TWO32 + d) / TWO32;
  }

  /** Cells less than PIPESIZE apart are different. */
  lemma CellsApart(a: nat, b: nat)
    requires a < b < a + PIPESIZE
    ensures a % PIPESIZE != b % PIPESIZE
  {
  }

  /** A stretch of n bytes, or shorter up to the end, is what piperead takes. */
  lemma TakenIs(s: State, n: int, bytes: seq<char>)
    requires Fifo(s) && s.read + bytes <= s.written
    requires |bytes| == (if n > 0 then n else 0) || (|bytes| < n && s.read + bytes == s.written)
    ensures bytes == Taken(s, n)
  {
    var waiting := s.written[|s.read|..];
    assert bytes == s.written[..|s.read| + |bytes|][|s.read|..];
    assert waiting[..|bytes|] == bytes;
    if |bytes| < n { assert |waiting| == |bytes|; }
  }

  class Ring {
    var readopen: bool
    var writeopen: bool
    var writep: nat
    var readp: nat
    var data: array<char>
    var readers: set<nat>
    var writers: set<nat>
    ghost var written: seq<char>
    ghost var read: seq<char>

    ghost function Abs(): (s: State)
      reads this
    {
      State(readopen, writeopen, written, read, readers, writers)
    }

    ghost predicate Valid()
      reads this, data
    {
      && data.Length == PIPESIZE && Fifo(Abs())
      && writep == |written| % TWO32 && readp == |read| % TWO32
      && forall k {:trigger written[k]} :: |read| <= k < |written| ==> data[k % PIPESIZE] == written[k]
    }

    /** pipealloc: an empty pipe open at both ends. */
    constructor ()
      ensures Valid() && Abs() == FRESH.pipe && fresh(data)
    {
      readopen, writeopen, writep, readp, readers, writers := true, true, 0, 0, {}, {};
      data := new char[PIPESIZE];
      written, read := [], [];
    }

    method Full() returns (full: bool)
      requires Valid()
      ensures full <==> Room(Abs()) == 0
    {
      WrapTellsDistance(|read|, |written|, PIPESIZE);
      full := writep == (readp + PIPESIZE) % TWO32;
    }

    method Empty() returns (empty: bool)
      requires Valid()
      ensures empty <==> read == written
    {
      WrapTellsDistance(|read|, |written|, 0);
      empty := readp == writep;
    }

    /** Stores one byte. */
    method Put(c: char)
      requires Valid() && Room(Abs()) > 0
      modifies `writep, `written, data
      ensures Valid() && Abs() == old(Abs()).(written := old(written) + [c])
    {
      ghost var n := |written|;
      WrapKeepsCell(n);
      WrapAdd(n, 1);
      forall k | |read| <= k < n ensures k % PIPESIZE != n % PIPESIZE { CellsApart(k, n); }
      data[writep % PIPESIZE] := c;
      writep := (writep + 1) % TWO32;
      written := written + [c];
    }

    /** Takes one byte. */
    method Get() returns (c: char)
      requires Valid() && |read| < |written|
      modifies `readp, `read
      ensures Valid() && c == old(written)[|old(read)|] && Abs() == old(Abs()).(read := old(read) + [c])
    {
      WrapKeepsCell(|read|);
      WrapAdd(|read|, 1);
      assert data[|read| % PIPESIZE] == written[|read|];
      c := data[readp % PIPESIZE];
      readp := (readp + 1) % TWO32;
      read := read + [c];
    }

    /** pipewrite by p from byte `from` of src on. */
    method Write(p: nat, src: seq<char>, from: nat, killed: bool) returns (i: nat, o: Outcome)
      requires Valid() && from <= |src|
      modifies `writep, `written, `readers, `writers, data
      ensures Valid() && i == Stored(old(Abs()), src, from) && o == WriteOutcome(old(Abs()), src, from, killed)
      ensures Abs() == WriteStretch(old(Abs()), p, src, from, killed)
      ensures from <= i <= |src| && written == old(written) + src[from..i] && read == old(read)
      ensures i < |src| ==> |written| - |read| == PIPESIZE
      ensures (o == Done <==> i == |src|) && (o == Failed <==> i < |src| && (!readopen || killed))
    {
      i := from;
      while i < |src|
        invariant from <= i <= |src| && Valid()
        invariant Abs() == old(Abs()).(written := old(written) + src[from..i])
      {
        var full := Full();
        if full {
          if !readopen || killed { return i, Failed; }
          readers := {};
          writers := writers + {p};
          return i, Asleep;
        }
        Put(src[i]);
        assert old(written) + src[from..i + 1] == old(written) + src[from..i] + [src[i]];
        i := i + 1;
      }
      readers := {};
      o := Done;
    }

    /** piperead's loop. */
    method TakeBytes(n: int) returns (bytes: seq<char>)
      requires Valid()
      modifies `readp, `read
      ensures Valid() && bytes == Taken(old(Abs()), n) && Abs() == old(Abs()).(read := old(read) + bytes)
    {
      bytes := [];
      var i := 0;
      while i < n
        invariant 0 <= i <= (if n > 0 then n else 0) && i == |bytes| && Valid()
        invariant Abs() == old(Abs()).(read := old(read) + bytes)
      {
        var empty := Empty();
        if empty { break; }
        var c := Get();
        assert old(read) + (bytes + [c]) == old(read) + bytes + [c];
        bytes := bytes + [c];
        i := i + 1;
      }
      TakenIs(old(Abs()), n, bytes);
    }

    /** piperead of n bytes by p. */
    method Read(p: nat, n: int, killed: bool) returns (bytes: seq<char>, o: Outcome)
      requires Valid()
      modifies `readp, `read, `readers, `writers
      ensures Valid() && o == ReadOutcome(old(Abs()), killed) && bytes == if o == Done then Taken(old(Abs()), n) else []
      ensures Abs() == ReadStretch(old(Abs()), p, n, killed)
      ensures read == old(read) + bytes <= written && written == old(written)
      ensures |bytes| <= (if n > 0 then n else 0) && (o == Done ==> |bytes| >= n || read == written)
      ensures o != Done <==> old(read) == old(written) && writeopen
      ensures o == Failed <==> o != Done && killed
    {
      bytes := [];
      var empty := Empty();
      if empty && writeopen {
        if killed { return [], Failed; }
        readers := readers + {p};
        return [], Asleep;
      }
      bytes := TakeBytes(n);
      writers := {};
      o := Done;
    }

    /** pipeclose of one end. */
    method CloseEnd(writable: bool)
      requires Valid()
      modifies `readopen, `writeopen, `readers, `writers
      ensures Valid() && Abs() == Close(old(Abs()), writable)
      ensures if writable then !writeopen && readopen == old(readopen) else !readopen && writeopen == old(writeopen)
      ensures (writable ==> readers == {}) && (!writable ==> writers == {})
    {
      if writable {
        writeopen := false;
        readers := {};
      } else {
        readopen := false;
        writers := {};
      }
    }
  }
}
