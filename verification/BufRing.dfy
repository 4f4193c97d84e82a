/**
 The buffer cache's doubly linked ring: binit's construction, bget's two scans,
 and the relinking of a released buffer, proved against the ring as a sequence.
 Node n, one past the buffers, is the list head.
 */
module BufRing {
  import opened Blocks
  import opened BufferCache

  /** The i-th node on the way round from the head. */
  function Node(ring: seq<nat>, n: nat, i: int): (x: nat)
    requires 0 <= i <= |ring| + 1
  {
    if i == 0 || i == |ring| + 1 then n else ring[i - 1]
  }

  ghost predicate Distinct(ring: seq<nat>, n: nat) {
    && (forall i :: 0 <= i < |ring| ==> ring[i] < n)
    && (forall i, j :: 0 <= i < j < |ring| ==> ring[i] != ring[j])
  }

  predicate LinkedAt(next: seq<nat>, prev: seq<nat>, ring: seq<nat>, n: nat, i: int)
    requires 0 <= i <= |ring| && |next| == n + 1 && |prev| == n + 1 && forall j :: 0 <= j < |ring| ==> ring[j] < n
  {
    next[Node(ring, n, i)] == Node(ring, n, i + 1) && prev[Node(ring, n, i + 1)] == Node(ring, n, i)
  }

  /** Following next from the head visits the ring in order, following prev in reverse. */
  ghost predicate Linked(next: seq<nat>, prev: seq<nat>, ring: seq<nat>, n: nat) {
    && |next| == n + 1 && |prev| == n + 1 && Distinct(ring, n)
    && forall i :: 0 <= i <= |ring| ==> LinkedAt(next, prev, ring, n, i)
  }

  /** Linking b in behind the head. */
  lemma PushFront(next: seq<nat>, prev: seq<nat>, ring: seq<nat>, n: nat, b: nat, next': seq<nat>, prev': seq<nat>)
    requires Linked(next, prev, ring, n) && b < n && b !in ring
    requires next[n] <= n && next' == next[b := next[n]][n := b] && prev' == prev[b := n][next[n] := b]
    ensures Linked(next', prev', [b] + ring, n)
  {
    var front := [b] + ring;
    assert LinkedAt(next, prev, ring, n, 0);
    forall i | 0 <= i <= |front| ensures LinkedAt(next', prev', front, n, i) {
      if i >= 2 { assert LinkedAt(next, prev, ring, n, i - 1); }
    }
  }

  lemma UnlinkAt(next: seq<nat>, prev: seq<nat>, ring: seq<nat>, n: nat, k: nat, next': seq<nat>, prev': seq<nat>,
                 rest: seq<nat>, i: nat)
    requires Linked(next, prev, ring, n) && k < |ring| && next[ring[k]] <= n && prev[ring[k]] <= n
    requires prev' == prev[next[ring[k]] := prev[ring[k]]] && next' == next[prev[ring[k]] := next[ring[k]]]
    requires rest == Without(ring, k) && i <= |rest| && forall j :: 0 <= j < |rest| ==> rest[j] < n
    ensures LinkedAt(next', prev', rest, n, i)
  {
    assert LinkedAt(next, prev, ring, n, k) && LinkedAt(next, prev, ring, n, k + 1);
    assert LinkedAt(next, prev, ring, n, i) && LinkedAt(next, prev, ring, n, i + 1);
  }

  /** Linking the buffer at place k out. */
  lemma Unlink(next: seq<nat>, prev: seq<nat>, ring: seq<nat>, n: nat, k: nat, next': seq<nat>, prev': seq<nat>)
    requires Linked(next, prev, ring, n) && k < |ring| && next[ring[k]] <= n && prev[ring[k]] <= n
    requires prev' == prev[next[ring[k]] := prev[ring[k]]] && next' == next[prev[ring[k]] := next[ring[k]]]
    ensures Linked(next', prev', Without(ring, k), n) && ring[k] !in Without(ring, k)
  {
    var rest := Without(ring, k);
    assert forall j :: 0 <= j < |rest| ==> rest[j] == if j < k then ring[j] else ring[j + 1];
    forall i | 0 <= i <= |rest| ensures LinkedAt(next', prev', rest, n, i) {
      UnlinkAt(next, prev, ring, n, k, next', prev', rest, i);
    }
  }

  class Cache {
    var bufs: array<Buf>
    var next: array<nat>
    var prev: array<nat>
    ghost var ring: seq<nat>

    ghost predicate Valid()
      reads this, bufs, next, prev
    {
      && next != prev && Linked(next[..], prev[..], ring, bufs.Length) && IsRing(ring, bufs.Length)
    }

    /** binit: buffers are put in front one after another. */
    constructor (n: nat, blank: Block)
      ensures Valid() && fresh(bufs) && fresh(next) && fresh(prev) && bufs.Length == n
      ensures bufs[..] == Boot([], 0, n, blank).bufs && ring == Boot([], 0, n, blank).ring
    {
      bufs := new Buf[n](_ => Buf(false, false, false, 0, blank));
      next := new nat[n + 1](_ => n);
      prev := new nat[n + 1](_ => n);
      ring := [];
      new;
      assert LinkedAt(next[..], prev[..], ring, n, 0);
      ghost var before := bufs[..];
      assert before == Boot([], 0, n, blank).bufs;
      var b := 0;
      while b < n
        invariant 0 <= b <= n && next.Length == n + 1 && prev.Length == n + 1 && next != prev
        invariant bufs.Length == n && bufs[..] == before && fresh(bufs) && fresh(next) && fresh(prev)
        invariant ring == Backwards(b)
        invariant Linked(next[..], prev[..], ring, n)
      {
        PushNode(b);
        b := b + 1;
      }
      BackwardsIsRing(n);
    }

    /** b is linked in behind the head. */
    method PushNode(b: nat)
      requires next != prev && Linked(next[..], prev[..], ring, bufs.Length) && b < bufs.Length && b !in ring
      modifies next, prev, `ring
      ensures ring == [b] + old(ring) && Linked(next[..], prev[..], ring, bufs.Length)
    {
      ghost var n0, p0 := next[..], prev[..];
      var head := bufs.Length;
      assert LinkedAt(next[..], prev[..], ring, head, 0);
      next[b] := next[head];
      prev[b] := head;
      prev[next[head]] := b;
      next[head] := b;
      PushFront(n0, p0, ring, head, b, next[..], prev[..]);
      ring := [b] + ring;
    }

    /** jbrelse: the buffer goes to the front and is no longer busy. */
    method Jbrelse(b: nat)
      requires Valid() && b < bufs.Length && bufs[b].busy
      modifies bufs, next, prev, `ring
      ensures Valid() && ring == Released(old(ring), b)
      ensures bufs[..] == old(bufs[..])[b := old(bufs[b]).(busy := false)]
    {
      UnlinkNode(b);
      PushNode(b);
      bufs[b] := bufs[b].(busy := false);
      ReleasedIsRing(old(ring), bufs.Length, b);
    }

    method UnlinkNode(b: nat)
      requires Valid() && b < bufs.Length
      modifies next, prev, `ring
      ensures Linked(next[..], prev[..], ring, bufs.Length) && b in old(ring) && b !in ring
      ensures ring == Without(old(ring), Place(old(ring), b, 0))
    {
      ghost var n0, p0 := next[..], prev[..];
      assert b in ring;
      ghost var k := Place(ring, b, 0);
      assert LinkedAt(n0, p0, ring, bufs.Length, k) && LinkedAt(n0, p0, ring, bufs.Length, k + 1);
      prev[next[b]] := prev[b];
      next[prev[b]] := next[b];
      Unlink(n0, p0, ring, bufs.Length, k, next[..], prev[..]);
      ring := Without(ring, k);
    }

    /** The forward scan for a cached block. */
    method FindCached(sector: nat) returns (b: nat)
      requires Valid()
      ensures var k := FindFrom(bufs[..], ring, sector, 0); b == Node(ring, bufs.Length, k + 1)
    {
      var head := bufs.Length;
      b := next[head];
      ghost var i := 0;
      assert LinkedAt(next[..], prev[..], ring, head, 0);
      while b != head
        invariant 0 <= i <= |ring| && b == Node(ring, head, i + 1)
        invariant FindFrom(bufs[..], ring, sector, 0) == FindFrom(bufs[..], ring, sector, i)
        decreases |ring| - i
      {
        if (bufs[b].busy || bufs[b].valid) && bufs[b].sector == sector { return; }
        i := i + 1;
        assert LinkedAt(next[..], prev[..], ring, head, i);
        b := next[b];
      }
    }

    /** The backward scan for a buffer to take. */
    method FindVictim() returns (b: nat)
      requires Valid()
      ensures var v := VictimBelow(bufs[..], ring, |ring|); b == Node(ring, bufs.Length, v + 1)
    {
      var head := bufs.Length;
      b := prev[head];
      ghost var i := |ring|;
      assert LinkedAt(next[..], prev[..], ring, head, i);
      while b != head
        invariant 0 <= i <= |ring| && b == Node(ring, head, i)
        invariant VictimBelow(bufs[..], ring, |ring|) == VictimBelow(bufs[..], ring, i)
        decreases i
      {
        if !bufs[b].busy { return; }
        i := i - 1;
        assert LinkedAt(next[..], prev[..], ring, head, i);
        b := prev[b];
      }
    }

    /** One pass of bget: a locked buffer for the sector, or a wait, or a panic. */
    method BgetPass(sector: nat) returns (g: Get)
      requires Valid()
      modifies bufs
      ensures Valid() && g == BgetResult(old(bufs[..]), ring, sector)
      ensures g.Got? ==>
        g.b < bufs.Length && !old(bufs[..])[g.b].busy && HandedOut(old(bufs[..])[g.b], sector, bufs[g.b])
      ensures g.Got? && NotCached(old(bufs[..]), sector) ==> LastFree(old(bufs[..]), ring, g.b)
      ensures bufs[..] == if g.Got? then old(bufs[..])[g.b := Locked(old(bufs[..])[g.b], sector)] else old(bufs[..])
    {
      var b := FindCached(sector);
      if b != bufs.Length {
        if bufs[b].busy { return Waits; }
        bufs[b] := bufs[b].(busy := true);
        return Got(b);
      }
      b := FindVictim();
      if b == bufs.Length { return NoBuffers; }
      ghost var t := bufs[..];
      NoneLive(t, ring, sector, b);
      bufs[b] := bufs[b].(busy := true, valid := false, dirty := false);
      bufs[b] := bufs[b].(sector := sector);
      return Got(b);
    }

    /** bread once bget has a buffer: read the sector unless it is cached. */
    method Bread(sector: nat, disk: seq<Block>) returns (g: Get)
      requires Valid() && sector < |disk|
      modifies bufs
      ensures Valid() && g == BgetResult(old(bufs[..]), ring, sector)
      ensures g.Got? ==> bufs[g.b].busy && bufs[g.b].valid && bufs[g.b].sector == sector
      ensures g.Got? ==> var was := old(bufs[..])[g.b];
        bufs[g.b].data == if was.valid && was.sector == sector then was.data else disk[sector]
      ensures g.Got? ==> bufs[..] == old(bufs[..])[g.b := bufs[g.b]]
      ensures !g.Got? ==> bufs[..] == old(bufs[..])
    {
      g := BgetPass(sector);
      if g.Got? {
        var b := g.b;
        if !bufs[b].valid {
          bufs[b] := bufs[b].(data := disk[bufs[b].sector], valid := true);
        }
      }
    }

    /** bwrite of new contents: the buffer is dirty and at the head of the transaction. */
    method Bwrite(b: nat, data: Block, ct: seq<nat>) returns (ct': seq<nat>)
      requires Valid() && b < bufs.Length && bufs[b].busy
      modifies bufs
      ensures Valid() && bufs[..] == old(bufs[..])[b := old(bufs[b]).(data := data, dirty := true)] && ct' == [b] + ct
    {
      bufs[b] := bufs[b].(data := data, dirty := true);
      ct' := [b] + ct;
    }

    /** brelse by a process whose transaction has `size` buffers: a dirty buffer stays locked. */
    method Brelse(b: nat, size: nat)
      requires Valid() && b < bufs.Length && bufs[b].busy
      modifies bufs, next, prev, `ring
      ensures Valid()
      ensures size == 0 || !old(bufs[b]).dirty ==>
        ring == Released(old(ring), b) && bufs[..] == old(bufs[..])[b := old(bufs[b]).(busy := false)]
      ensures size > 0 && old(bufs[b]).dirty ==> ring == old(ring) && bufs[..] == old(bufs[..])
    {
      if size == 0 || !bufs[b].dirty {
        Jbrelse(b);
      }
    }
  }
}
