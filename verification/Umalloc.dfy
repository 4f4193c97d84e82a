/**
 The user-level allocator: a circular list of free blocks in address order,
 searched next fit from `freep`.  Addresses count header-sized units.
 */
module Umalloc {
  import opened Basics

  type Sizes = map<nat, nat>

  // ---- the cycle ----------------------------------------------------------

  /** Marks a position whose order with another one is wanted. */
  predicate At(i: int) { true }

  ghost predicate Ascending(list: seq<nat>) {
    forall i, j {:trigger At(i), At(j)} :: 0 <= i < j < |list| ==> list[i] < list[j]
  }

  /** The list is one cycle in address order, with a single wrap at its end. */
  ghost predicate Ring(list: seq<nat>, ptr: map<nat, nat>) {
    && list != [] && Ascending(list)
    && (forall i :: 0 <= i < |list| ==> list[i] in ptr)
    && (forall i {:trigger At(i)} :: 0 <= i < |list| ==> ptr[list[i]] == list[if i + 1 < |list| then i + 1 else 0])
  }

  /** t is the place of bp: the last block below it. */
  ghost predicate Before(list: seq<nat>, bp: nat, t: nat) {
    t < |list| && list[t] < bp && (t + 1 < |list| ==> bp < list[t + 1])
  }

  /** free's test at a node p followed by next. */
  predicate Gap(p: nat, next: nat, bp: nat) {
    (bp > p && bp < next) || (p >= next && (bp > p || bp < next))
  }

  lemma PlaceExists(list: seq<nat>, bp: nat) returns (t: nat)
    requires list != [] && list[0] < bp && bp !in list
    ensures Before(list, bp, t)
  {
    t := 0;
    while t + 1 < |list| && list[t + 1] < bp
      invariant t < |list| && list[t] < bp
    {
      t := t + 1;
    }
  }

  /** free's test holds at the block before bp and at no other. */
  lemma GapIff(list: seq<nat>, ptr: map<nat, nat>, bp: nat, t: nat, k: nat)
    requires Ring(list, ptr) && list[0] < bp && bp !in list && Before(list, bp, t) && k < |list|
    ensures ptr[list[k]] == list[if k + 1 < |list| then k + 1 else 0]
    ensures Gap(list[k], ptr[list[k]], bp) <==> k == t
  {
    assert At(0) && At(k) && At(k + 1) && At(t) && At(t + 1);
    if k + 1 < |list| {
      assert ptr[list[k]] == list[k + 1] && list[k] < list[k + 1];
      if k < t { assert list[k + 1] <= list[t]; }
      if k > t { assert list[t + 1] <= list[k]; }
    } else {
      assert ptr[list[k]] == list[0];
      if k != t { assert list[t + 1] <= list[k]; }
    }
  }

  function With(list: seq<nat>, t: nat, bp: nat): (r: seq<nat>)
    requires t < |list|
    ensures |r| == |list| + 1
    ensures forall i :: 0 <= i < |r| ==> r[i] == if i <= t then list[i] else if i == t + 1 then bp else list[i - 1]
  {
    list[..t + 1] + [bp] + list[t + 1..]
  }

  function Without(list: seq<nat>, k: nat): (r: seq<nat>)
    requires k < |list|
    ensures |r| == |list| - 1
    ensures forall i :: 0 <= i < |r| ==> r[i] == if i < k then list[i] else list[i + 1]
  {
    list[..k] + list[k + 1..]
  }

  lemma AscendingInsert(list: seq<nat>, t: nat, bp: nat)
    requires Ascending(list) && Before(list, bp, t)
    ensures Ascending(With(list, t, bp))
  {
    var l := With(list, t, bp);
    forall i, j | 0 <= i < j < |l| ensures l[i] < l[j] {
      assert At(i) && At(j) && At(i - 1) && At(j - 1) && At(t) && At(t + 1);
    }
  }

  lemma AscendingDelete(list: seq<nat>, k: nat)
    requires Ascending(list) && k < |list|
    ensures Ascending(Without(list, k))
  {
    var l := Without(list, k);
    forall i, j | 0 <= i < j < |l| ensures l[i] < l[j] {
      assert At(i) && At(j) && At(i + 1) && At(j + 1);
    }
  }

  /** Different positions hold different nodes. */
  lemma Distinct(list: seq<nat>, i: nat, j: nat)
    requires Ascending(list) && i < |list| && j < |list| && i != j
    ensures list[i] != list[j]
  {
    assert At(i) && At(j);
  }

  lemma RingInsert(list: seq<nat>, ptr: map<nat, nat>, t: nat, bp: nat)
    requires Ring(list, ptr) && Before(list, bp, t) && bp !in list
    ensures Ring(With(list, t, bp), ptr[bp := ptr[list[t]]][list[t] := bp])
  {
    AscendingInsert(list, t, bp);
    var l, p := With(list, t, bp), ptr[bp := ptr[list[t]]][list[t] := bp];
    forall i | 0 <= i < |l| ensures l[i] in p && p[l[i]] == l[if i + 1 < |l| then i + 1 else 0] {
      assert At(i) && At(i - 1) && At(t);
      if i < t { Distinct(list, i, t); } else if i > t + 1 { Distinct(list, i - 1, t); }
    }
  }

  lemma RingDelete(list: seq<nat>, ptr: map<nat, nat>, k: nat)
    requires Ring(list, ptr) && 0 < k < |list|
    ensures Ring(Without(list, k), ptr[list[k - 1] := ptr[list[k]]])
  {
    AscendingDelete(list, k);
    var l, p := Without(list, k), ptr[list[k - 1] := ptr[list[k]]];
    forall i | 0 <= i < |l| ensures l[i] in p && p[l[i]] == l[if i + 1 < |l| then i + 1 else 0] {
      assert At(i) && At(i + 1) && At(k) && At(k - 1);
      if i < k - 1 { Distinct(list, i, k - 1); } else if i >= k { Distinct(list, i + 1, k - 1); }
    }
  }

  // ---- what is free -------------------------------------------------------

  predicate InBlock(a: nat, n: nat, x: nat) {
    a <= x < a + n
  }

  ghost predicate Sized(list: seq<nat>, size: Sizes) {
    forall i :: 0 <= i < |list| ==> list[i] in size
  }

  /** Unit x belongs to a block of the list. */
  ghost predicate IsFree(list: seq<nat>, size: Sizes, x: nat)
    requires Sized(list, size)
  {
    exists i :: 0 <= i < |list| && InBlock(list[i], size[list[i]], x)
  }

  /** Blocks do not overlap; a block may end where the next one starts only at the positions in `touching`. */
  ghost predicate Ordered(list: seq<nat>, size: Sizes, touching: set<int>)
    requires Sized(list, size)
  {
    forall i, j {:trigger At(i), At(j)} :: 0 <= i < j < |list| ==>
      && list[i] < list[j] && list[i] + size[list[i]] <= list[j]
      && (list[i] + size[list[i]] == list[j] ==> j == i + 1 && i in touching)
  }

  /** Putting in a block that overlaps nothing. */
  lemma InsertBlock(list: seq<nat>, size: Sizes, t: nat, bp: nat, n: nat)
    requires Sized(list, size) && Ordered(list, size, {}) && Before(list, bp, t) && 0 < n && bp !in list
    requires list[t] + size[list[t]] <= bp && (t + 1 < |list| ==> bp + n <= list[t + 1])
    requires bp in size && size[bp] == n
    ensures Sized(With(list, t, bp), size) && Ordered(With(list, t, bp), size, {t as int, t + 1})
    ensures forall x: nat :: IsFree(With(list, t, bp), size, x) <==> IsFree(list, size, x) || InBlock(bp, n, x)
  {
    var l := With(list, t, bp);
    forall i, j | 0 <= i < j < |l|
      ensures l[i] < l[j] && l[i] + size[l[i]] <= l[j]
      ensures l[i] + size[l[i]] == l[j] ==> j == i + 1 && (i == t || i == t + 1)
    {
      assert At(i) && At(j) && At(i - 1) && At(j - 1) && At(t) && At(t + 1);
    }
    forall x: nat ensures IsFree(l, size, x) <==> IsFree(list, size, x) || InBlock(bp, n, x) {
      InsertedUnit(list, size, t, bp, n, x);
    }
  }

  lemma InsertedUnit(list: seq<nat>, size: Sizes, t: nat, bp: nat, n: nat, x: nat)
    requires Sized(list, size) && t < |list| && bp in size && size[bp] == n && Sized(With(list, t, bp), size)
    ensures IsFree(With(list, t, bp), size, x) <==> IsFree(list, size, x) || InBlock(bp, n, x)
  {
    var l := With(list, t, bp);
    if i :| 0 <= i < |list| && InBlock(list[i], size[list[i]], x) {
      var i' := if i <= t then i else i + 1;
      assert InBlock(l[i'], size[l[i']], x);
    }
    if InBlock(bp, n, x) { assert InBlock(l[t + 1], size[l[t + 1]], x); }
    if i :| 0 <= i < |l| && InBlock(l[i], size[l[i]], x) {
      if i != t + 1 {
        var i' := if i <= t then i else i - 1;
        assert InBlock(list[i'], size[list[i']], x);
      }
    }
  }

  /** The sizes when block k takes in block k + 1. */
  function Joined(list: seq<nat>, size: Sizes, k: nat): (r: Sizes)
    requires k + 1 < |list| && list[k] in size && list[k + 1] in size
  {
    size[list[k] := size[list[k]] + size[list[k + 1]]]
  }

  /** Joining a block with the next one, which it touches, keeps the order. */
  lemma MergeOrdered(list: seq<nat>, size: Sizes, k: nat, touching: set<int>)
    requires Sized(list, size) && Ordered(list, size, touching) && k + 1 < |list|
    requires list[k] + size[list[k]] == list[k + 1] && 0 < size[list[k + 1]]
    requires forall i :: i in touching ==> i <= k
    ensures Sized(Without(list, k + 1), Joined(list, size, k))
    ensures Ordered(Without(list, k + 1), Joined(list, size, k), touching - {k as int})
  {
    var l, s := Without(list, k + 1), Joined(list, size, k);
    forall i, j | 0 <= i < j < |l|
      ensures l[i] in s && l[i] < l[j] && l[i] + s[l[i]] <= l[j]
      ensures l[i] + s[l[i]] == l[j] ==> j == i + 1 && i in touching - {k as int}
    {
      MergedPair(list, size, k, touching, i, j, l, s);
    }
  }

  lemma MergedPair(list: seq<nat>, size: Sizes, k: nat, touching: set<int>, i: nat, j: nat, l: seq<nat>, s: Sizes)
    requires Sized(list, size) && Ordered(list, size, touching) && k + 1 < |list|
    requires list[k] + size[list[k]] == list[k + 1] && 0 < size[list[k + 1]]
    requires forall i :: i in touching ==> i <= k
    requires l == Without(list, k + 1) && s == Joined(list, size, k) && i < j < |l|
    ensures l[i] in s && l[i] < l[j] && l[i] + s[l[i]] <= l[j]
    ensures l[i] + s[l[i]] == l[j] ==> j == i + 1 && i in touching - {k as int}
  {
    var i', j' := if i <= k then i else i + 1, if j <= k then j else j + 1;
    assert l[i] == list[i'] && l[j] == list[j'];
    assert At(i') && At(j') && At(k) && At(k + 1);
    assert list[i'] + size[list[i']] <= list[j'];
    if i == k {
      assert list[k + 1] + size[list[k + 1]] <= list[j'];
      assert k + 1 !in touching;
    } else if i < k {
      assert list[i] < list[k];
    } else {
      assert list[k] < list[i'];
      assert i' !in touching;
    }
  }

  /** Joining blocks changes nothing about what is free. */
  lemma MergeKeepsFree(list: seq<nat>, size: Sizes, k: nat, x: nat)
    requires Sized(list, size) && k + 1 < |list| && list[k] + size[list[k]] == list[k + 1] && Ascending(list)
    requires Sized(Without(list, k + 1), Joined(list, size, k))
    ensures IsFree(Without(list, k + 1), Joined(list, size, k), x) <==> IsFree(list, size, x)
  {
    var l, s := Without(list, k + 1), Joined(list, size, k);
    if i :| 0 <= i < |list| && InBlock(list[i], size[list[i]], x) {
      var i' := if i <= k then i else i - 1;
      if i != k { Distinct(list, i, k); }
      assert InBlock(l[i'], s[l[i']], x);
    }
    if i :| 0 <= i < |l| && InBlock(l[i], s[l[i]], x) {
      if i == k {
        assert InBlock(list[k], size[list[k]], x) || InBlock(list[k + 1], size[list[k + 1]], x);
      } else {
        var i' := if i <= k then i else i + 1;
        Distinct(list, i', k);
        assert InBlock(list[i'], size[list[i']], x);
      }
    }
  }

  /** Taking block k out of the list. */
  lemma DeleteBlock(list: seq<nat>, size: Sizes, k: nat)
    requires Sized(list, size) && Ordered(list, size, {}) && 0 < k < |list|
    ensures Sized(Without(list, k), size) && Ordered(Without(list, k), size, {})
    ensures forall x: nat :: IsFree(Without(list, k), size, x) <==>
      IsFree(list, size, x) && !InBlock(list[k], size[list[k]], x)
  {
    var l := Without(list, k);
    forall i, j | 0 <= i < j < |l| ensures l[i] + size[l[i]] < l[j] {
      var i', j' := if i < k then i else i + 1, if j < k then j else j + 1;
      assert At(i') && At(j');
    }
    forall x: nat ensures IsFree(l, size, x) <==> IsFree(list, size, x) && !InBlock(list[k], size[list[k]], x) {
      DeletedUnit(list, size, k, x);
    }
  }

  lemma DeletedUnit(list: seq<nat>, size: Sizes, k: nat, x: nat)
    requires Sized(list, size) && Ordered(list, size, {}) && 0 < k < |list| && Sized(Without(list, k), size)
    ensures IsFree(Without(list, k), size, x) <==> IsFree(list, size, x) && !InBlock(list[k], size[list[k]], x)
  {
    var l := Without(list, k);
    if i :| 0 <= i < |list| && InBlock(list[i], size[list[i]], x) {
      if i != k {
        var i' := if i < k then i else i - 1;
        assert InBlock(l[i'], size[l[i']], x);
      }
    }
    if i :| 0 <= i < |l| && InBlock(l[i], size[l[i]], x) {
      var i' := if i < k then i else i + 1;
      assert InBlock(list[i'], size[list[i']], x);
      assert At(i') && At(k);
    }
  }

  /** Cutting n units off the end of block k. */
  lemma TrimBlock(list: seq<nat>, size: Sizes, k: nat, n: nat)
    requires Sized(list, size) && Ordered(list, size, {}) && 0 < k < |list| && 0 < n < size[list[k]]
    ensures var s := size[list[k] := size[list[k]] - n];
      && Sized(list, s) && Ordered(list, s, {})
      && forall x: nat :: IsFree(list, s, x) <==> IsFree(list, size, x) && !InBlock(list[k] + (size[list[k]] - n), n, x)
  {
    var s := size[list[k] := size[list[k]] - n];
    forall i, j | 0 <= i < j < |list| ensures list[i] + s[list[i]] < list[j] {
      assert At(i) && At(j);
    }
    forall x: nat ensures IsFree(list, s, x) <==>
      IsFree(list, size, x) && !InBlock(list[k] + (size[list[k]] - n), n, x) {
      if i :| 0 <= i < |list| && InBlock(list[i], size[list[i]], x) {
        assert At(i) && At(k);
        if i != k || x < list[k] + (size[list[k]] - n) { assert InBlock(list[i], s[list[i]], x); }
      }
      if i :| 0 <= i < |list| && InBlock(list[i], s[list[i]], x) {
        assert InBlock(list[i], size[list[i]], x);
        assert At(i) && At(k);
      }
    }
  }

  // ---- the free list of the heap ------------------------------------------

  /**
   list is the free list: a cycle from the static header base, of size 0, through
   the free blocks in address order, no two of them adjacent except as allowed.
   */
  ghost predicate FreeList(list: seq<nat>, ptr: map<nat, nat>, size: Sizes, base: nat, touching: set<int>) {
    && Ring(list, ptr) && Sized(list, size) && Ordered(list, size, touching)
    && list[0] == base && size[base] == 0
    && forall i :: 0 < i < |list| ==> 0 < size[list[i]]
  }

  ghost predicate SameFree(l: seq<nat>, s: Sizes, l': seq<nat>, s': Sizes)
    requires Sized(l, s) && Sized(l', s')
  {
    forall x: nat :: IsFree(l', s', x) <==> IsFree(l, s, x)
  }

  /** free, first step: the block linked in behind list[t]. */
  lemma LinkIn(list: seq<nat>, ptr: map<nat, nat>, size: Sizes, base: nat, t: nat, bp: nat, n: nat)
    requires FreeList(list, ptr, size, base, {}) && Before(list, bp, t) && 0 < n && bp !in list
    requires list[t] + size[list[t]] <= bp && (t + 1 < |list| ==> bp + n <= list[t + 1])
    requires bp in size && size[bp] == n
    ensures FreeList(With(list, t, bp), ptr[bp := ptr[list[t]]][list[t] := bp], size, base, {t as int, t + 1})
    ensures forall x: nat :: IsFree(With(list, t, bp), size, x) <==> IsFree(list, size, x) || InBlock(bp, n, x)
  {
    RingInsert(list, ptr, t, bp);
    InsertBlock(list, size, t, bp, n);
  }

  lemma JoinPositive(list: seq<nat>, size: Sizes, k: nat, l: seq<nat>, s: Sizes)
    requires Sized(list, size) && 0 < k && k + 1 < |list| && l == Without(list, k + 1) && s == Joined(list, size, k)
    requires Ascending(list) && forall i :: 0 < i < |list| ==> 0 < size[list[i]]
    ensures Sized(l, s) && l[0] == list[0] && s[l[0]] == size[list[0]] && forall i :: 0 < i < |l| ==> 0 < s[l[i]]
  {
    Distinct(list, 0, k);
    forall i | 0 <= i < |l| ensures l[i] in s && (0 < i ==> 0 < s[l[i]]) {
      var i' := if i <= k then i else i + 1;
      assert l[i] == list[i'] && list[i'] in size;
    }
  }

  /** free: block k takes in block k + 1. */
  lemma JoinNext(list: seq<nat>, ptr: map<nat, nat>, size: Sizes, base: nat, k: nat, touching: set<int>,
                 l: seq<nat>, p: map<nat, nat>, s: Sizes)
    requires FreeList(list, ptr, size, base, touching) && 0 < k && k + 1 < |list|
    requires list[k] + size[list[k]] == list[k + 1] && forall i :: i in touching ==> i <= k
    requires l == Without(list, k + 1) && p == ptr[list[k] := ptr[list[k + 1]]] && s == Joined(list, size, k)
    ensures FreeList(l, p, s, base, touching - {k as int})
    ensures SameFree(list, size, l, s)
  {
    RingDelete(list, ptr, k + 1);
    MergeOrdered(list, size, k, touching);
    JoinPositive(list, size, k, l, s);
    forall x: nat ensures IsFree(l, s, x) <==> IsFree(list, size, x) {
      MergeKeepsFree(list, size, k, x);
    }
  }

  /** Blocks that do not touch need no exception. */
  lemma NotTouching(list: seq<nat>, ptr: map<nat, nat>, size: Sizes, base: nat, k: nat, touching: set<int>)
    requires FreeList(list, ptr, size, base, touching) && k < |list|
    requires k + 1 < |list| ==> list[k] + size[list[k]] != list[k + 1]
    ensures FreeList(list, ptr, size, base, touching - {k as int})
  {
    forall i, j | 0 <= i < j < |list|
      ensures list[i] < list[j] && list[i] + size[list[i]] <= list[j]
      ensures list[i] + size[list[i]] == list[j] ==> j == i + 1 && i in touching - {k as int}
    {
      assert At(i) && At(j);
    }
  }

  /** The pointers and sizes free leaves behind, for a block bp of n units put after p. */
  function FreedPtr(ptr: map<nat, nat>, size: Sizes, p: nat, bp: nat, n: nat): (r: map<nat, nat>)
    requires p in ptr && p in size && (ptr[p] in ptr)
  {
    var q := ptr[p];
    var next := if bp + n == q then ptr[q] else q;
    ptr[bp := next][p := if p + size[p] == bp then next else bp]
  }

  function FreedSize(ptr: map<nat, nat>, size: Sizes, p: nat, bp: nat, n: nat): (r: Sizes)
    requires p in ptr && p in size && ptr[p] in size
  {
    var q := ptr[p];
    var m := if bp + n == q then n + size[q] else n;
    if p + size[p] == bp then size[bp := m][p := size[p] + m] else size[bp := m]
  }

  /** Every node of l is one of list or bp. */
  ghost predicate NodesFrom(l: seq<nat>, list: seq<nat>, bp: nat) {
    forall x :: x in l ==> x in list || x == bp
  }

  /** What holds after the block is linked in and joined with the one after it. */
  ghost predicate UpDone(list: seq<nat>, size: Sizes, base: nat, t: nat, bp: nat, n: nat,
                         l: seq<nat>, p: map<nat, nat>, s: Sizes)
    requires Sized(list, size)
  {
    && FreeList(l, p, s, base, {t as int}) && t < |list| && t + 1 < |l| && l[t] == list[t] && l[t + 1] == bp
    && (forall x: nat :: IsFree(l, s, x) <==> IsFree(list, size, x) || InBlock(bp, n, x))
    && NodesFrom(l, list, bp)
  }

  lemma FreeUpApart(list: seq<nat>, size: Sizes, base: nat, t: nat, bp: nat, n: nat, l: seq<nat>, p: map<nat, nat>)
    requires Sized(list, size) && t < |list| && l == With(list, t, bp) && FreeList(l, p, size, base, {t as int, t + 1})
    requires forall x: nat :: IsFree(l, size, x) <==> IsFree(list, size, x) || InBlock(bp, n, x)
    requires bp in size && size[bp] == n && (t + 1 < |list| ==> bp + n != list[t + 1])
    ensures UpDone(list, size, base, t, bp, n, l, p, size)
  {
    var both: set<int> := {t, t + 1};
    assert both - {(t + 1) as int} == {t as int};
    NotTouching(l, p, size, base, t + 1, both);
  }

  lemma FreeUpJoin(list: seq<nat>, size: Sizes, base: nat, t: nat, bp: nat, n: nat, l: seq<nat>, p: map<nat, nat>,
                   q: nat, l': seq<nat>, p': map<nat, nat>, s': Sizes)
    requires Sized(list, size) && t + 1 < |list| && l == With(list, t, bp)
      && FreeList(l, p, size, base, {t as int, t + 1})
    requires forall x: nat :: IsFree(l, size, x) <==> IsFree(list, size, x) || InBlock(bp, n, x)
    requires bp in size && size[bp] == n && q == list[t + 1] == bp + n
    requires l' == Without(l, t + 2) && p' == p[bp := p[q]] && s' == size[bp := n + size[q]]
    ensures UpDone(list, size, base, t, bp, n, l', p', s')
  {
    var both: set<int> := {t, t + 1};
    assert both - {(t + 1) as int} == {t as int};
    assert l[t + 1] == bp && l[t + 2] == q;
    JoinNext(l, p, size, base, t + 1, both, l', p', s');
  }

  /** free on a block that overlaps nothing: the block after it is joined if they touch. */
  lemma FreeUp(list: seq<nat>, ptr: map<nat, nat>, size: Sizes, base: nat, t: nat, bp: nat, n: nat)
    returns (l: seq<nat>, p: map<nat, nat>, s: Sizes)
    requires FreeList(list, ptr, size, base, {}) && Before(list, bp, t) && 0 < n && bp !in list && base < bp
    requires list[t] + size[list[t]] <= bp && (t + 1 < |list| ==> bp + n <= list[t + 1])
    requires bp in size && size[bp] == n
    ensures UpDone(list, size, base, t, bp, n, l, p, s)
    ensures var q := ptr[list[t]];
      && q in ptr && q in size
      && p == ptr[bp := if bp + n == q then ptr[q] else q][list[t] := bp]
      && s == size[bp := if bp + n == q then n + size[q] else n]
  {
    var q := ptr[list[t]];
    assert At(t) && q == if t + 1 < |list| then list[t + 1] else base;
    l, p, s := With(list, t, bp), ptr[bp := q][list[t] := bp], size;
    LinkIn(list, ptr, size, base, t, bp, n);
    if bp + n == q {
      var l', p', s' := Without(l, t + 2), p[bp := p[q]], size[bp := n + size[q]];
      FreeUpJoin(list, size, base, t, bp, n, l, p, q, l', p', s');
      l, p, s := l', p', s';
    } else {
      FreeUpApart(list, size, base, t, bp, n, l, p);
    }
  }

  /** What holds after free: the block is free, the list is in order, and a block of its size can be found. */
  ghost predicate FreeDone(list: seq<nat>, size: Sizes, base: nat, t: nat, bp: nat, n: nat,
                           l: seq<nat>, p: map<nat, nat>, s: Sizes)
    requires Sized(list, size)
  {
    && FreeList(l, p, s, base, {}) && t < |list| && list[t] in l && NodesFrom(l, list, bp)
    && (forall x: nat :: IsFree(l, s, x) <==> IsFree(list, size, x) || InBlock(bp, n, x))
    && (exists i :: 0 <= i < |l| && n <= s[l[i]])
  }

  lemma FreeDownApart(list: seq<nat>, size: Sizes, base: nat, t: nat, bp: nat, n: nat, l: seq<nat>, p: map<nat, nat>,
                      s: Sizes)
    requires Sized(list, size) && UpDone(list, size, base, t, bp, n, l, p, s) && n <= s[bp]
    requires list[t] in s && list[t] + s[list[t]] != bp
    ensures FreeDone(list, size, base, t, bp, n, l, p, s)
  {
    var one: set<int> := {t};
    assert one - {t as int} == {};
    NotTouching(l, p, s, base, t, one);
    assert n <= s[l[t + 1]];
  }

  lemma FreeDownJoin(list: seq<nat>, size: Sizes, base: nat, t: nat, bp: nat, n: nat, l: seq<nat>, p: map<nat, nat>,
                     s: Sizes, l': seq<nat>, p': map<nat, nat>, s': Sizes)
    requires Sized(list, size) && UpDone(list, size, base, t, bp, n, l, p, s) && n <= s[bp] && 0 < t
    requires list[t] in s && list[t] + s[list[t]] == bp
    requires l' == Without(l, t + 1) && p' == p[list[t] := p[bp]] && s' == s[list[t] := s[list[t]] + s[bp]]
    ensures FreeDone(list, size, base, t, bp, n, l', p', s')
  {
    var one: set<int> := {t};
    assert one - {t as int} == {};
    assert l'[t] == list[t];
    JoinNext(l, p, s, base, t, one, l', p', s');
    assert n <= s'[l'[t]];
  }

  /** free on a block that overlaps nothing. */
  lemma FreeSplices(list: seq<nat>, ptr: map<nat, nat>, size: Sizes, base: nat, t: nat, bp: nat, n: nat)
    returns (list': seq<nat>)
    requires FreeList(list, ptr, size, base, {}) && Before(list, bp, t) && 0 < n && bp !in list && base < bp
    requires list[t] + size[list[t]] <= bp && (t + 1 < |list| ==> bp + n <= list[t + 1])
    requires bp in size && size[bp] == n
    ensures ptr[list[t]] in ptr && ptr[list[t]] in size
    ensures FreeDone(list, size, base, t, bp, n, list', FreedPtr(ptr, size, list[t], bp, n),
      FreedSize(ptr, size, list[t], bp, n))
  {
    var l, p, s := FreeUp(list, ptr, size, base, t, bp, n);
    var p', s' := FreedPtr(ptr, size, list[t], bp, n), FreedSize(ptr, size, list[t], bp, n);
    if list[t] + size[list[t]] == bp {
      list' := Without(l, t + 1);
      assert p' == p[list[t] := p[bp]] && s' == s[list[t] := s[list[t]] + s[bp]];
      FreeDownJoin(list, size, base, t, bp, n, l, p, s, list', p', s');
    } else {
      list' := l;
      FreeDownApart(list, size, base, t, bp, n, l, p, s);
    }
  }

  // ---- the heap -----------------------------------------------------------

  const UNIT := 8                   // sizeof(Header)
  const GRAIN := 4096               // fewest units asked of sbrk

  /** malloc's number of units for nbytes, header included, in uint arithmetic. */
  function Units(nbytes: nat): (n: nat)
    ensures 1 <= n
  {
    (nbytes + UNIT - 1) % TWO32 / UNIT + 1
  }

  /** The units hold the bytes asked for iff rounding up does not wrap round; then no fewer would. */
  lemma UnitsSuffice(nbytes: nat)
    requires nbytes < TWO32
    ensures nbytes <= (Units(nbytes) - 1) * UNIT <==> nbytes + UNIT - 1 < TWO32
    ensures nbytes + UNIT - 1 < TWO32 ==> (Units(nbytes) - 1) * UNIT < nbytes + UNIT
  {
  }

  /** A range no unit of which is free lies between the blocks around it. */
  lemma RangeFits(list: seq<nat>, ptr: map<nat, nat>, size: Sizes, base: nat, bp: nat, n: nat, t: nat)
    requires FreeList(list, ptr, size, base, {}) && Before(list, bp, t) && 0 < n
    requires forall x :: InBlock(bp, n, x) ==> !IsFree(list, size, x)
    ensures list[t] + size[list[t]] <= bp && (t + 1 < |list| ==> bp + n <= list[t + 1])
  {
    assert InBlock(bp, n, bp) && !IsFree(list, size, bp);
    assert !InBlock(list[t], size[list[t]], bp);
    if t + 1 < |list| {
      var q := list[t + 1];
      assert InBlock(q, size[q], q) && IsFree(list, size, q);
      assert !InBlock(bp, n, q);
    }
  }

  lemma NotListed(list: seq<nat>, ptr: map<nat, nat>, size: Sizes, base: nat, bp: nat)
    requires FreeList(list, ptr, size, base, {}) && base < bp && !IsFree(list, size, bp)
    ensures bp !in list
  {
    if i :| 0 <= i < |list| && list[i] == bp {
      assert InBlock(list[i], size[list[i]], bp);
    }
  }

  /** n units at a, free before, are no longer; nothing else changed. */
  ghost predicate Taken(list: seq<nat>, size: Sizes, list': seq<nat>, size': Sizes, a: nat, n: nat)
    requires Sized(list, size) && Sized(list', size')
  {
    && (forall x: nat :: InBlock(a, n, x) ==> IsFree(list, size, x))
    && (forall x: nat :: IsFree(list', size', x) <==> IsFree(list, size, x) && !InBlock(a, n, x))
    && (forall b :: b in size && !IsFree(list, size, b) && b !in list ==> b in size' && size'[b] == size[b])
  }

  /** malloc takes block k whole, or its last n units. */
  lemma TakeWhole(list: seq<nat>, ptr: map<nat, nat>, size: Sizes, base: nat, k: nat, l: seq<nat>, p: map<nat, nat>)
    requires FreeList(list, ptr, size, base, {}) && 0 < k < |list|
    requires l == Without(list, k) && p == ptr[list[k - 1] := ptr[list[k]]]
    ensures FreeList(l, p, size, base, {})
    ensures Taken(list, size, l, size, list[k], size[list[k]])
    ensures base < list[k] && list[k - 1] in l
  {
    assert At(0) && At(k) && l[k - 1] == list[k - 1];
    RingDelete(list, ptr, k);
    DeleteBlock(list, size, k);
  }

  lemma TakeEnd(list: seq<nat>, ptr: map<nat, nat>, size: Sizes, base: nat, k: nat, n: nat, a: nat, s: Sizes)
    requires FreeList(list, ptr, size, base, {}) && 0 < k < |list| && 0 < n < size[list[k]]
    requires a == list[k] + (size[list[k]] - n) && s == size[list[k] := size[list[k]] - n][a := n]
    ensures FreeList(list, ptr, s, base, {})
    ensures Taken(list, size, list, s, a, n)
    ensures base < a
  {
    assert At(0) && At(k);
    var s1 := size[list[k] := size[list[k]] - n];
    TrimBlock(list, size, k, n);
    forall i | 0 <= i < |list| ensures list[i] != a {
      assert At(i) && At(k);
    }
    SizeElsewhere(list, s1, s, a);
    Distinct(list, 0, k);
    forall x: nat | InBlock(a, n, x) ensures IsFree(list, size, x) {
      assert InBlock(list[k], size[list[k]], x);
    }
    assert InBlock(a, n, a);
  }

  /** Units morecore asks for. */
  function Asked(nu: nat): (n: nat)
    ensures nu <= n && 0 < n
  {
    if nu < GRAIN then GRAIN else nu
  }

  const MOST := 0x2000_0000         // most units malloc counts for any request

  /** The byte count morecore passes to sbrk, in uint arithmetic. */
  function SbrkBytes(nu: nat): (bytes: nat) {
    Asked(nu) * UNIT % TWO32
  }

  /** sbrk is asked for as many units as morecore takes, or for none: for which requests. */
  lemma SbrkAsksIff(nbytes: nat)
    requires nbytes < TWO32
    ensures var n := Units(nbytes);
      && n <= MOST && (n < MOST <==> SbrkBytes(n) == Asked(n) * UNIT) && (n == MOST <==> SbrkBytes(n) == 0)
      && (n == MOST <==> 0xFFFF_FFF1 <= nbytes <= 0xFFFF_FFF8)
  {
  }

  /** The size of a block that is not listed does not matter to the list. */
  lemma SizeElsewhere(list: seq<nat>, size: Sizes, size': Sizes, a: nat)
    requires Sized(list, size) && Ordered(list, size, {}) && a !in list && a in size' && size' == size[a := size'[a]]
    ensures Sized(list, size') && (forall x: nat :: IsFree(list, size', x) <==> IsFree(list, size, x))
    ensures Ordered(list, size', {})
  {
    forall i, j | 0 <= i < j < |list| ensures list[i] < list[j] && list[i] + size'[list[i]] < list[j] {
      assert At(i) && At(j);
    }
    forall x: nat ensures IsFree(list, size', x) <==> IsFree(list, size, x) {
      if i :| 0 <= i < |list| && InBlock(list[i], size[list[i]], x) { assert InBlock(list[i], size'[list[i]], x); }
      if i :| 0 <= i < |list| && InBlock(list[i], size'[list[i]], x) { assert InBlock(list[i], size[list[i]], x); }
    }
  }

  /** The position d steps after f on a cycle of n. */
  function Ahead(f: nat, d: nat, n: nat): (r: nat)
    requires f < n && d <= n
    ensures r < n
  {
    if f + d < n then f + d else f + d - n
  }

  /** No block is large enough. */
  ghost predicate NoneLarge(list: seq<nat>, size: Sizes, n: nat)
    requires Sized(list, size)
  {
    forall i :: 0 <= i < |list| ==> size[list[i]] < n
  }

  /** The blocks fewer than d steps after f are all too small. */
  ghost predicate SmallBefore(list: seq<nat>, size: Sizes, n: nat, f: nat, d: nat)
    requires Sized(list, size) && f < |list| && d <= |list| + 1
  {
    forall e :: 1 <= e < d ==> size[list[Ahead(f, e, |list|)]] < n
  }

  /** Once round the cycle is every block. */
  lemma AllSmall(list: seq<nat>, size: Sizes, n: nat, f: nat)
    requires Sized(list, size) && f < |list| && SmallBefore(list, size, n, f, |list| + 1)
    ensures NoneLarge(list, size, n)
  {
    forall i | 0 <= i < |list| ensures size[list[i]] < n {
      assert i == Ahead(f, if i > f then i - f else i - f + |list|, |list|);
    }
  }

  /** The block d steps after the one at `from` is the first that is large enough. */
  ghost predicate FirstLarge(list: seq<nat>, size: Sizes, from: nat, n: nat, f: nat, d: nat)
    requires Sized(list, size)
  {
    && f < |list| && list[f] == from && 1 <= d <= |list| && SmallBefore(list, size, n, f, d)
    && 0 < Ahead(f, d, |list|) && n <= size[list[Ahead(f, d, |list|)]]
  }

  /** Next fit: a is the end of the first block large enough behind the one at `from`; last is the one before it. */
  ghost predicate NextFit(list: seq<nat>, size: Sizes, from: nat, n: nat, a: nat, last: nat)
    requires Sized(list, size)
  {
    exists f: nat, d: nat :: FirstLarge(list, size, from, n, f, d)
      && var k := Ahead(f, d, |list|); a == list[k] + (size[list[k]] - n) && last == list[k - 1]
  }

  lemma FitsNext(list: seq<nat>, size: Sizes, from: nat, n: nat, f: nat, d: nat, k: nat)
    requires Sized(list, size) && FirstLarge(list, size, from, n, f, d) && k == Ahead(f, d, |list|)
    ensures NextFit(list, size, from, n, list[k] + (size[list[k]] - n), list[k - 1])
  {
  }

  lemma NodesAbove(list: seq<nat>, base: nat)
    requires list != [] && Ascending(list) && list[0] == base
    ensures forall x :: x in list ==> base <= x
  {
    forall i | 0 <= i < |list| ensures base <= list[i] { assert At(0) && At(i); }
  }

  ghost predicate IsHeld(held: map<nat, nat>, x: nat) {
    exists a :: a in held && InBlock(a, held[a], x)
  }

  /** Free and held blocks together are the pool; no unit is in two blocks; held headers keep their size. */
  ghost predicate Balanced(list: seq<nat>, size: Sizes, held: map<nat, nat>, pool: iset<nat>) {
    && Sized(list, size)
    && (forall x: nat :: x in pool <==> IsFree(list, size, x) || IsHeld(held, x))
    && (forall x: nat :: !(IsFree(list, size, x) && IsHeld(held, x)))
    && (forall a, b, x {:trigger InBlock(a, held[a], x), InBlock(b, held[b], x)} ::
          a in held && b in held && InBlock(a, held[a], x) && InBlock(b, held[b], x) ==> a == b)
    && (forall a :: a in held ==> a in size && size[a] == held[a] && 0 < held[a] && a !in list)
  }

  lemma BalancedAlloc(list: seq<nat>, size: Sizes, list': seq<nat>, size': Sizes, held: map<nat, nat>, pool: iset<nat>,
                      region: iset<nat>, a: nat, n: nat)
    requires Balanced(list, size, held, pool) && Sized(list', size') && 0 < n
    requires forall x: nat :: x in region ==> x !in pool
    requires a in size' && size'[a] == n && a !in list'
    requires forall x: nat :: InBlock(a, n, x) ==> IsFree(list, size, x) || x in region
    requires forall x: nat :: IsFree(list', size', x) <==> (IsFree(list, size, x) || x in region) && !InBlock(a, n, x)
    requires forall b :: b in held ==> b in size' && size'[b] == held[b] && b !in list'
    ensures a !in held && Balanced(list', size', held[a := n], pool + region)
  {
    var held' := held[a := n];
    assert forall b :: b in held ==> InBlock(b, held[b], b);
    assert InBlock(a, n, a);
    forall x: nat ensures IsHeld(held', x) <==> IsHeld(held, x) || InBlock(a, n, x) {
      if b :| b in held && InBlock(b, held[b], x) { assert InBlock(b, held'[b], x); }
      if InBlock(a, n, x) { assert InBlock(a, held'[a], x); }
      if b :| b in held' && InBlock(b, held'[b], x) { if b != a { assert InBlock(b, held[b], x); } }
    }
    forall b, c, x | b in held' && c in held' && InBlock(b, held'[b], x) && InBlock(c, held'[c], x) ensures b == c {
      if b != a { assert InBlock(b, held[b], x) && IsHeld(held, x); }
      if c != a { assert InBlock(c, held[c], x) && IsHeld(held, x); }
    }
  }

  lemma BalancedFree(list: seq<nat>, size: Sizes, list': seq<nat>, size': Sizes, held: map<nat, nat>,
                     pool: iset<nat>, bp: nat)
    requires Balanced(list, size, held, pool) && Sized(list', size') && bp in held
    requires forall x: nat :: IsFree(list', size', x) <==> IsFree(list, size, x) || InBlock(bp, held[bp], x)
    requires NodesFrom(list', list, bp)
    requires forall a :: a in size && a !in list && a != bp ==> a in size' && size'[a] == size[a]
    ensures Balanced(list', size', held - {bp}, pool)
  {
    var held' := held - {bp};
    forall x: nat ensures IsHeld(held, x) <==> IsHeld(held', x) || InBlock(bp, held[bp], x) {
      if b :| b in held && InBlock(b, held[b], x) { if b != bp { assert InBlock(b, held'[b], x); } }
      if b :| b in held' && InBlock(b, held'[b], x) { assert InBlock(b, held[b], x); }
    }
    forall x: nat ensures !(IsHeld(held', x) && InBlock(bp, held[bp], x)) {
      if b :| b in held' && InBlock(b, held'[b], x) {
        assert InBlock(b, held[b], x);
      }
    }
    forall b, c, x | b in held' && c in held' && InBlock(b, held'[b], x) && InBlock(c, held'[c], x) ensures b == c {
      assert InBlock(b, held[b], x) && InBlock(c, held[c], x);
    }
  }

  /** The units sbrk gave in a call of malloc. */
  ghost function Given(calls: nat, grant: Option<nat>, n: nat): (r: iset<nat>) {
    iset x | calls == 1 && grant.Some? && InBlock(grant.value, SbrkBytes(n) / UNIT, x)
  }

  /** They are the region put in the free list, unless the byte count wrapped to 0. */
  lemma GivenIff(calls: nat, grant: Option<nat>, n: nat)
    requires n <= MOST
    ensures n < MOST ==> Given(calls, grant, n) == Region(calls, grant, n)
    ensures n == MOST ==> forall x :: x !in Given(calls, grant, n)
    ensures calls == 1 && grant.Some? ==> grant.value in Region(calls, grant, n)
  {
    assert SbrkBytes(n) == if n < MOST then Asked(n) * UNIT else 0;
    assert grant.Some? ==> InBlock(grant.value, Asked(n), grant.value);
  }

  /** The books with what sbrk gave instead of what went to the free list. */
  lemma BooksIff(list: seq<nat>, size: Sizes, held: map<nat, nat>, pool: iset<nat>, calls: nat, grant: Option<nat>,
                 n: nat)
    requires n <= MOST && calls <= 1 && (calls == 1 ==> grant.Some? && grant.value !in pool)
    requires Balanced(list, size, held, pool + Region(calls, grant, n))
    ensures Balanced(list, size, held, pool + Given(calls, grant, n)) <==> calls == 0 || n < MOST
  {
    GivenIff(calls, grant, n);
    if calls == 0 || n < MOST {
      assert Given(calls, grant, n) == Region(calls, grant, n);
    } else {
      assert grant.value in pool + Region(calls, grant, n) && grant.value !in pool + Given(calls, grant, n);
    }
  }

  /** The units that go to the free list in a call of malloc. */
  ghost function Region(calls: nat, grant: Option<nat>, n: nat): (r: iset<nat>) {
    iset x | calls == 1 && grant.Some? && InBlock(grant.value, Asked(n), x)
  }

  /** n units at a, free before or in the new region, are the block handed out; the rest of both is free. */
  ghost predicate Served(list: seq<nat>, size: Sizes, list': seq<nat>, size': Sizes, region: iset<nat>, a: nat, n: nat)
    requires Sized(list, size) && Sized(list', size')
  {
    && a in size' && size'[a] == n
    && (forall x: nat :: InBlock(a, n, x) ==> IsFree(list, size, x) || x in region)
    && (forall x: nat :: IsFree(list', size', x) <==> (IsFree(list, size, x) || x in region) && !InBlock(a, n, x))
    && (forall b :: b in size && b !in list && !IsFree(list, size, b) && b !in region ==>
         b in size' && size'[b] == size[b])
  }

  /** A region is added to what is free; headers elsewhere are kept. */
  ghost predicate Grown(list: seq<nat>, size: Sizes, list': seq<nat>, size': Sizes, region: iset<nat>)
    requires Sized(list, size) && Sized(list', size')
  {
    && (forall x: nat :: IsFree(list', size', x) <==> IsFree(list, size, x) || x in region)
    && (forall b :: b in size && b !in list && b !in region ==> b in size' && size'[b] == size[b] && b !in list')
  }

  lemma NoGrowth(list: seq<nat>, size: Sizes, grant: Option<nat>, n: nat)
    requires Sized(list, size)
    ensures Grown(list, size, list, size, Region(0, grant, n))
  {
  }

  lemma RegionGrown(l0: seq<nat>, s0: Sizes, s1: Sizes, l2: seq<nat>, s2: Sizes, hp: nat, nu: nat)
    requires Sized(l0, s0) && Sized(l0, s1) && Sized(l2, s2) && s1 == s0[hp := Asked(nu)]
    requires forall x: nat :: IsFree(l0, s1, x) <==> IsFree(l0, s0, x)
    requires forall x: nat :: IsFree(l2, s2, x) <==> IsFree(l0, s1, x) || InBlock(hp, Asked(nu), x)
    requires NodesFrom(l2, l0, hp)
    requires forall a :: a in s1 && a !in l0 && a != hp ==> a in s2 && s2[a] == s1[a]
    ensures Grown(l0, s0, l2, s2, Region(1, Some(hp), nu))
  {
    var region := Region(1, Some(hp), nu);
    assert InBlock(hp, Asked(nu), hp) && hp in region;
    forall x: nat ensures IsFree(l2, s2, x) <==> IsFree(l0, s0, x) || x in region {
      assert x in region <==> InBlock(hp, Asked(nu), x);
    }
  }

  lemma ServedFrom(l0: seq<nat>, s0: Sizes, l1: seq<nat>, s1: Sizes, l2: seq<nat>, s2: Sizes, region: iset<nat>,
                   a: nat, n: nat)
    requires Sized(l0, s0) && Sized(l1, s1) && Sized(l2, s2)
    requires Grown(l0, s0, l1, s1, region) && Taken(l1, s1, l2, s2, a, n) && a in s2 && s2[a] == n
    ensures Served(l0, s0, l2, s2, region, a, n)
  {
  }

  /** The books after malloc. */
  lemma ServedBalanced(list: seq<nat>, size: Sizes, list': seq<nat>, ptr': map<nat, nat>, size': Sizes, base: nat,
                       held: map<nat, nat>, pool: iset<nat>, region: iset<nat>, a: nat, n: nat)
    requires Balanced(list, size, held, pool) && FreeList(list', ptr', size', base, {}) && 0 < n && base < a
    requires Served(list, size, list', size', region, a, n)
    requires (forall x :: x in pool ==> base < x) && (forall x: nat :: x in region ==> x !in pool)
    ensures a !in held && Balanced(list', size', held[a := n], pool + region)
  {
    assert InBlock(a, n, a);
    NotListed(list', ptr', size', base, a);
    forall b | b in held ensures b in size' && size'[b] == held[b] && b !in list' {
      assert InBlock(b, held[b], b) && IsHeld(held, b);
      NotListed(list', ptr', size', base, b);
    }
    BalancedAlloc(list, size, list', size', held, pool, region, a, n);
  }

  /** Free and held blocks are the pool, which lies above the static header. */
  ghost predicate Books(list: seq<nat>, size: Sizes, held: map<nat, nat>, pool: iset<nat>, base: nat) {
    Balanced(list, size, held, pool) && forall x :: x in pool ==> base < x
  }

  /** The books after a call that serves n units at a, with what sbrk gave. */
  lemma ServedBooks(list: seq<nat>, size: Sizes, list': seq<nat>, ptr': map<nat, nat>, size': Sizes, base: nat,
                    held: map<nat, nat>, pool: iset<nat>, calls: nat, grant: Option<nat>, a: nat, n: nat)
    requires Books(list, size, held, pool, base) && FreeList(list', ptr', size', base, {}) && 0 < n <= MOST && base < a
    requires Served(list, size, list', size', Region(calls, grant, n), a, n)
    requires calls <= 1 && (calls == 1 ==> grant.Some? && base < grant.value)
    requires grant.Some? ==> forall x :: InBlock(grant.value, Asked(n), x) ==> x !in pool
    ensures a !in held
    ensures Books(list', size', held[a := n], pool + Given(calls, grant, n), base) <==> calls == 0 || n < MOST
  {
    ServedBalanced(list, size, list', ptr', size', base, held, pool, Region(calls, grant, n), a, n);
    assert calls == 1 ==> InBlock(grant.value, Asked(n), grant.value);
    BooksIff(list', size', held[a := n], pool, calls, grant, n);
  }

  class Heap {
    const base: nat                 // the static header
    var ptr: map<nat, nat>          // s.ptr of the header at an address
    var size: Sizes                 // s.size of the header at an address
    var freep: nat                  // 0 before the first malloc
    ghost var list: seq<nat>
    ghost var held: map<nat, nat>   // blocks handed out: header address and units
    ghost var pool: iset<nat>       // units sbrk has given

    /** A process starts with the static header and no free list. */
    constructor (base: nat)
      requires 0 < base
      ensures Accounts() && this.base == base && freep == 0 && held == map[] && pool == iset{}
    {
      this.base := base;
      ptr, size, freep := map[], map[], 0;
      list, held, pool := [], map[], iset{};
    }

    ghost predicate Ready()
      reads this
    {
      0 < base && FreeList(list, ptr, size, base, {}) && freep in list
    }

    ghost predicate Free(x: nat)
      reads this
      requires Ready()
    {
      IsFree(list, size, x)
    }

    /** free's search for the block before bp, from freep round the cycle. */
    method Locate(bp: nat) returns (p: nat, ghost t: nat)
      requires Ready() && base < bp && bp !in list
      ensures Before(list, bp, t) && p == list[t]
      ensures p in ptr && Gap(p, ptr[p], bp)
    {
      t := PlaceExists(list, bp);
      ghost var f :| 0 <= f < |list| && list[f] == freep;
      ghost var far := if t >= f then t - f else t + |list| - f;   // steps still to go
      ghost var k := f;
      p := freep;
      while !(bp > p && bp < ptr[p])
        invariant 0 <= k < |list| && p == list[k]
        invariant 0 <= far < |list|
        invariant t == if k + far < |list| then k + far else k + far - |list|
        decreases far
      {
        GapIff(list, ptr, bp, t, k);
        if p >= ptr[p] && (bp > p || bp < ptr[p]) {
          break;
        }
        p := ptr[p];
        k := if k + 1 < |list| then k + 1 else 0;
        far := far - 1;
      }
      GapIff(list, ptr, bp, t, k);
    }

    /** free's way out: bp goes behind p, joined with the blocks it touches. */
    method Link(p: nat, bp: nat)
      requires p in ptr && p in size && bp in size && ptr[p] in ptr && ptr[p] in size && p != bp && ptr[p] != bp
      modifies `ptr, `size, `freep
      ensures ptr == FreedPtr(old(ptr), old(size), p, bp, old(size)[bp])
      ensures size == FreedSize(old(ptr), old(size), p, bp, old(size)[bp]) && freep == p
    {
      var q := ptr[p];
      if bp + size[bp] == q {
        ptr := ptr[bp := ptr[q]];
        size := size[bp := size[bp] + size[q]];
      } else {
        ptr := ptr[bp := q];
      }
      if p + size[p] == bp {
        size := size[p := size[p] + size[bp]];
        ptr := ptr[p := ptr[bp]];
      } else {
        ptr := ptr[p := bp];
      }
      freep := p;
    }

    /** free's body, for a block of size[bp] units none of which is free. */
    method FreeBlock(bp: nat)
      requires Ready() && base < bp && bp in size && 0 < size[bp]
      requires forall x :: InBlock(bp, size[bp], x) ==> !Free(x)
      modifies `ptr, `size, `freep, `list
      ensures Ready()
      ensures forall x: nat :: IsFree(list, size, x) <==>
        IsFree(old(list), old(size), x) || InBlock(bp, old(size)[bp], x)
      ensures NodesFrom(list, old(list), bp)
      ensures forall a :: a in old(size) && a !in old(list) && a != bp ==> a in size && size[a] == old(size)[a]
      ensures exists i :: 0 <= i < |list| && old(size[bp]) <= size[list[i]]
      ensures exists t: nat :: Before(old(list), bp, t) && freep == old(list)[t]
    {
      ghost var n := size[bp];
      assert InBlock(bp, n, bp);
      NotListed(list, ptr, size, base, bp);
      var p; ghost var t;
      p, t := Locate(bp);
      RangeFits(list, ptr, size, base, bp, n, t);
      ghost var list' := FreeSplices(list, ptr, size, base, t, bp, n);
      assert At(t);
      Link(p, bp);
      list := list';
    }

    /** morecore: a fresh region from sbrk goes to the free list; None when sbrk fails. */
    method Morecore(nu: nat, grant: Option<nat>) returns (p: Option<nat>)
      requires Ready()
      requires grant.Some? ==> base < grant.value
      requires grant.Some? ==> forall x :: InBlock(grant.value, Asked(nu), x) ==> !Free(x)
      modifies `ptr, `size, `freep, `list
      ensures Ready() && (p.Some? <==> grant.Some?)
      ensures p == None ==> unchanged(`ptr) && unchanged(`size) && unchanged(`freep) && unchanged(`list)
      ensures p.Some? ==>
        && p.value == freep
        && Grown(old(list), old(size), list, size, Region(1, grant, nu))
        && !NoneLarge(list, size, nu)
    {
      if grant == None {
        return None;
      }
      var hp := grant.value;
      assert InBlock(hp, Asked(nu), hp);
      NotListed(list, ptr, size, base, hp);
      ghost var l0, s0 := list, size;
      size := size[hp := Asked(nu)];
      SizeElsewhere(l0, s0, size, hp);
      ghost var s1 := size;
      FreeBlock(hp);
      RegionGrown(l0, s0, s1, list, size, hp, nu);
      p := Some(freep);
    }

    /** malloc's way out when block p, the k-th, has the right size. */
    method Unlink(prevp: nat, p: nat, ghost k: nat)
      requires Ready() && 0 < k < |list| && p == list[k] && prevp == list[k - 1]
      modifies `ptr, `size, `freep, `list
      ensures Ready() && size == old(size) && base < p && freep == prevp
      ensures Taken(old(list), old(size), list, size, p, size[p])
    {
      var ptr' := ptr[prevp := ptr[p]];
      TakeWhole(list, ptr, size, base, k, Without(list, k), ptr');
      ptr := ptr';
      list := Without(list, k);
      freep := prevp;
    }

    /** malloc's way out when block p, the k-th, is larger: its last n units. */
    method Split(prevp: nat, p: nat, n: nat, ghost k: nat) returns (a: nat)
      requires Ready() && 0 < k < |list| && p == list[k] && prevp in list && 0 < n < size[p]
      modifies `ptr, `size, `freep, `list
      ensures Ready() && a in size && size[a] == n && base < a && a == p + (old(size)[p] - n) && freep == prevp
      ensures Taken(old(list), old(size), list, size, a, n)
    {
      a := p + (size[p] - n);
      var size' := size[p := size[p] - n][a := n];
      TakeEnd(list, ptr, size, base, k, n, a, size');
      size := size';
      freep := prevp;
    }

    method Take(prevp: nat, p: nat, n: nat, ghost k: nat) returns (a: nat)
      requires Ready() && 0 < k < |list| && p == list[k] && prevp == list[k - 1] && 0 < n <= size[p]
      modifies `ptr, `size, `freep, `list
      ensures Ready() && a in size && size[a] == n && base < a && a == p + (old(size)[p] - n) && freep == prevp
      ensures Taken(old(list), old(size), list, size, a, n)
    {
      if size[p] == n {
        Unlink(prevp, p, k);
        a := p;
      } else {
        a := Split(prevp, p, n, k);
      }
    }

    /** malloc's loop, once round the cycle from the block after freep to freep. */
    method Scan(n: nat) returns (found: bool, prevp: nat, p: nat, ghost k: nat, ghost f: nat, ghost d: nat)
      requires Ready() && 0 < n
      ensures found <==> !NoneLarge(list, size, n)
      ensures found ==> 0 < k < |list| && p == list[k] && prevp == list[k - 1] && n <= size[p]
      ensures found ==> FirstLarge(list, size, freep, n, f, d) && k == Ahead(f, d, |list|)
      ensures !found ==> p == freep
    {
      f :| 0 <= f < |list| && list[f] == freep;
      prevp := freep;
      p := ptr[prevp];
      d := 1;
      k := Ahead(f, d, |list|);
      assert At(f);
      while size[p] < n && p != freep
        invariant 1 <= d <= |list| && k == Ahead(f, d, |list|)
        invariant p == list[k] && prevp == list[if k > 0 then k - 1 else |list| - 1]
        invariant SmallBefore(list, size, n, f, d)
        decreases |list| - d
      {
        assert At(k);
        prevp, p := p, ptr[p];
        d := d + 1;
        k := Ahead(f, d, |list|);
      }
      found := size[p] >= n;
      if !found {
        if d < |list| { Distinct(list, k, f); }
        AllSmall(list, size, n, f);
      }
    }

    /** malloc's loop: a block of n units or more; morecore is called iff there is none. */
    method Find(n: nat, grant: Option<nat>)
      returns (found: bool, calls: nat, prevp: nat, p: nat, ghost k: nat, ghost f: nat, ghost d: nat)
      requires Ready() && 0 < n
      requires grant.Some? ==> base < grant.value
      requires grant.Some? ==> forall x :: InBlock(grant.value, Asked(n), x) ==> !Free(x)
      modifies `ptr, `size, `freep, `list
      ensures Ready() && calls <= 1 && (calls == 1 <==> NoneLarge(old(list), old(size), n))
      ensures !found <==> calls == 1 && grant == None
      ensures !found || calls == 0 ==> unchanged(`ptr) && unchanged(`size) && unchanged(`freep) && unchanged(`list)
      ensures found ==> 0 < k < |list| && p == list[k] && prevp == list[k - 1] && n <= size[p]
      ensures found ==> FirstLarge(list, size, freep, n, f, d) && k == Ahead(f, d, |list|)
      ensures found ==> Grown(old(list), old(size), list, size, Region(calls, grant, n))
    {
      calls := 0;
      NoGrowth(list, size, grant, n);
      found, prevp, p, k, f, d := Scan(n);
      if !found {
        var more := Morecore(n, grant);
        calls := 1;
        if more.Some? {
          found, prevp, p, k, f, d := Scan(n);
          assert found;
        }
      }
    }

    /**
     malloc's search, next fit from freep: the end of the first block large enough.
     Iff there is none, morecore is called, once: the second time round finds one.
     */
    method Search(n: nat, grant: Option<nat>) returns (r: Option<nat>, calls: nat)
      requires Ready() && 0 < n
      requires grant.Some? ==> base < grant.value
      requires grant.Some? ==> forall x :: InBlock(grant.value, Asked(n), x) ==> !Free(x)
      modifies `ptr, `size, `freep, `list
      ensures Ready() && calls <= 1 && (calls == 1 <==> NoneLarge(old(list), old(size), n))
      ensures r == None <==> calls == 1 && grant == None
      ensures r == None ==> unchanged(`ptr) && unchanged(`size) && unchanged(`freep) && unchanged(`list)
      ensures calls == 0 ==> NextFit(old(list), old(size), old(freep), n, r.value, freep)
      ensures r.Some? ==> base < r.value
      ensures r.Some? ==> Served(old(list), old(size), list, size, Region(calls, grant, n), r.value, n)
    {
      var found, prevp, p; ghost var k, f, d;
      found, calls, prevp, p, k, f, d := Find(n, grant);
      if !found {
        return None, calls;
      }
      ghost var l1, s1, from := list, size, freep;
      var a := Take(prevp, p, n, k);
      FitsNext(l1, s1, from, n, f, d, k);
      ServedFrom(old(list), old(size), l1, s1, list, size, Region(calls, grant, n), a, n);
      r := Some(a);
    }

    /**
     Every unit sbrk gave is in exactly one free block or one block handed out.
     */
    ghost predicate Accounts()
      reads this
    {
      && 0 < base
      && (if freep == 0 then list == [] && held == map[] && (forall x :: x !in pool)
          else Ready() && Books(list, size, held, pool, base))
    }

    /**
     malloc: the address of the first unit behind the header, None for 0.  grant is
     what sbrk would return: an address above the static header behind which nothing
     has been given, or None.  Free and held blocks stay a partition of what sbrk
     gave, unless the byte count asked of sbrk wraps to 0.
     */
    method Malloc(nbytes: nat, grant: Option<nat>) returns (r: Option<nat>, calls: nat)
      requires Accounts() && nbytes < TWO32
      requires grant.Some? ==> base < grant.value
      requires grant.Some? ==> forall x :: InBlock(grant.value, Asked(Units(nbytes)), x) ==> x !in pool
      modifies this
      ensures calls <= 1 && (calls == 1 <==> NoneLarge(old(list), old(size), Units(nbytes)))
      ensures Accounts() <==> r == None || calls == 0 || Units(nbytes) < MOST
      ensures r == None <==> grant == None && NoneLarge(old(list), old(size), Units(nbytes))
      ensures r == None ==> held == old(held) && pool == old(pool)
      ensures r.Some? ==>
        && 0 < r.value && r.value - 1 !in old(held)
        && held == old(held)[r.value - 1 := Units(nbytes)]
        && r.value - 1 in size && size[r.value - 1] == Units(nbytes)
        && pool == old(pool) + Given(calls, grant, Units(nbytes))
        && (calls == 0 ==> NextFit(old(list), old(size), old(freep), Units(nbytes), r.value - 1, freep))
    {
      if freep == 0 {
        Start();
      }
      SbrkAsksIff(nbytes);
      var a;
      a, calls := Allocate(Units(nbytes), grant);
      r := if a == None then None else Some(a.value + 1);
    }

    /** The list of the static header alone, at the first malloc. */
    method Start()
      requires Accounts() && freep == 0
      modifies `ptr, `size, `freep, `list
      ensures Accounts() && freep != 0 && list == [base] && size[base] == 0
    {
      ptr := ptr[base := base];
      size := size[base := 0];
      freep := base;
      list := [base];
    }

    method Allocate(n: nat, grant: Option<nat>) returns (r: Option<nat>, calls: nat)
      requires Accounts() && freep != 0 && 0 < n <= MOST
      requires grant.Some? ==> base < grant.value
      requires grant.Some? ==> forall x :: InBlock(grant.value, Asked(n), x) ==> x !in pool
      modifies this
      ensures calls <= 1 && (Accounts() <==> r == None || calls == 0 || n < MOST)
      ensures calls == 1 <==> NoneLarge(old(list), old(size), n)
      ensures r == None <==> calls == 1 && grant == None
      ensures r == None ==> held == old(held) && pool == old(pool)
      ensures calls == 0 ==> NextFit(old(list), old(size), old(freep), n, r.value, freep)
      ensures r.Some? ==> r.value !in old(held) && held == old(held)[r.value := n]
      ensures r.Some? ==> r.value in size && size[r.value] == n && pool == old(pool) + Given(calls, grant, n)
    {
      ghost var l0, s0 := list, size;
      r, calls := Search(n, grant);
      NodesAbove(list, base);
      if r.Some? {
        ServedBooks(l0, s0, list, ptr, size, base, held, pool, calls, grant, r.value, n);
        held := held[r.value := n];
        pool := pool + Given(calls, grant, n);
      }
    }

    /** free: the block whose header is in front of ap, which malloc handed out. */
    method FreeUser(ap: nat)
      requires Accounts() && 0 < ap && ap - 1 in held
      modifies this
      ensures Accounts() && held == old(held) - {ap - 1} && pool == old(pool)
      ensures exists t: nat :: Before(old(list), ap - 1, t) && freep == old(list)[t]
    {
      var bp := ap - 1;
      ghost var l0, s0 := list, size;
      assert InBlock(bp, held[bp], bp) && IsHeld(held, bp);
      FreeBlock(bp);
      BalancedFree(l0, s0, list, size, held, pool, bp);
      held := held - {bp};
      NodesAbove(list, base);
    }
  }

  /** A request so large that rounding it up wraps round is served with the header alone. */
  method MallocWraps() returns (nbytes: nat, units: nat)
    ensures nbytes == 0xFFFF_FFFC && units == 1 == Units(nbytes)
  {
    nbytes := 0xFFFF_FFFC;
    var h := new Heap(1);
    var r, calls := h.Malloc(nbytes, Some(2));
    var a := r.value - 1;
    assert a in h.held && h.freep != 0;
    units := h.size[a];
  }

  /** In a new process: sbrk is asked for nothing, and a block of 2^29 units is handed out. */
  method SbrkWraps() returns (nbytes: nat, bytes: nat, units: nat, calls: nat)
    ensures nbytes == 0xFFFF_FFF1 && bytes == 0 == SbrkBytes(Units(nbytes))
    ensures units == MOST == Units(nbytes) && calls == 1
  {
    nbytes := 0xFFFF_FFF1;
    SbrkAsksIff(nbytes);
    bytes := SbrkBytes(Units(nbytes));
    var h := new Heap(1);
    var r;
    r, calls := h.Malloc(nbytes, Some(2));
    var a := r.value - 1;
    units := h.size[a];
    assert InBlock(a, h.held[a], a) && IsHeld(h.held, a);
    GivenIff(calls, Some(2), MOST);
    assert a !in h.pool;
    assert !h.Accounts();
  }
}
