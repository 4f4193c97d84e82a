/**
 The page allocator's code: the free runs as a list linked through headers that
 lie in the free pages themselves, where kfree's fill can overwrite them.
 */
module PageList {
  import opened Basics
  import opened PageRuns

  const JUNK := 0x0101_0101    // a word of memory filled with ones

  /** One word of the header at each address. */
  type Words = map<nat, nat>

  /** The address of run i; null behind the last. */
  function At(runs: seq<Run>, i: nat): (a: nat)
    requires i <= |runs|
  {
    if i < |runs| then runs[i].start else 0
  }

  /** The header of run i: its length, and where the next run is. */
  ghost predicate HeaderAt(next: Words, len: Words, runs: seq<Run>, i: nat)
    requires i < |runs|
  {
    var a := runs[i].start;
    0 < a && a in next && a in len && next[a] == At(runs, i + 1) && len[a] == runs[i].len
  }

  /** The list from head on is runs. */
  ghost predicate Links(head: nat, next: Words, len: Words, runs: seq<Run>) {
    head == At(runs, 0) && forall i :: 0 <= i < |runs| ==> HeaderAt(next, len, runs, i)
  }

  ghost predicate Distinct(runs: seq<Run>) {
    forall i, j :: 0 <= i < j < |runs| ==> runs[i].start != runs[j].start
  }

  // ---- the fill -----------------------------------------------------------

  /** `memset(v, 1, n)` as it changes headers. */
  function Junked(m: Words, v: nat, n: nat): (r: Words)
    ensures r.Keys == m.Keys && forall a :: a in m ==> r[a] == if v <= a < v + n then JUNK else m[a]
  {
    map a | a in m :: if v <= a < v + n then JUNK else m[a]
  }

  /** A run starts in the range. */
  ghost predicate StartsIn(runs: seq<Run>, v: nat, n: nat) {
    exists i :: 0 <= i < |runs| && v <= runs[i].start < v + n
  }

  /** The fill leaves the list as it is iff no run starts in the range. */
  lemma FillKeepsListIff(head: nat, next: Words, len: Words, runs: seq<Run>, v: nat, n: nat)
    requires Links(head, next, len, runs) && Good(runs)
    ensures Links(head, Junked(next, v, n), Junked(len, v, n), runs) <==> !StartsIn(runs, v, n)
  {
    if i :| 0 <= i < |runs| && v <= runs[i].start < v + n {
      assert HeaderAt(next, len, runs, i);
      assert !HeaderAt(Junked(next, v, n), Junked(len, v, n), runs, i);
    } else {
      forall i | 0 <= i < |runs| ensures HeaderAt(Junked(next, v, n), Junked(len, v, n), runs, i) {
        assert HeaderAt(next, len, runs, i);
      }
    }
  }

  /** A run starts in a range whose first byte is not free iff the range meets free memory. */
  lemma StartsInIff(runs: seq<Run>, v: nat, n: nat)
    requires Good(runs) && v !in Cover(runs)
    ensures StartsIn(runs, v, n) <==> !(Cover(runs) !! Span(v, n))
  {
    CoverIn(runs, v);
    if i :| 0 <= i < |runs| && v <= runs[i].start < v + n {
      CoverIn(runs, runs[i].start);
    }
    if x :| x in Cover(runs) && x in Span(v, n) {
      CoverIn(runs, x);
      var i :| 0 <= i < |runs| && runs[i].start <= x < runs[i].End();
      assert v <= runs[i].start < v + n;
    }
  }

  /** The header of run i is right, or the run is at v and its length not 0. */
  ghost predicate RightBut(next: Words, len: Words, runs: seq<Run>, v: nat, i: nat)
    requires i < |runs|
  {
    if runs[i].start == v then 0 < v && v in len && 0 < len[v] else HeaderAt(next, len, runs, i)
  }

  // ---- changes of the list ------------------------------------------------

  /** Where rp points when the walk is at run i: the list's head, or the link of the run before. */
  ghost predicate Behind(runs: seq<Run>, i: nat, prev: nat)
    requires i <= |runs|
  {
    prev == if i == 0 then 0 else runs[i - 1].start
  }

  /** `*rp = a` for that place. */
  ghost predicate LinkSet(head: nat, next: Words, head': nat, next': Words, prev: nat, a: nat) {
    if prev == 0 then head' == a && next' == next else head' == head && next' == next[prev := a]
  }

  /** Runs i to j replaced by one at v, which rp is made to point to. */
  lemma Replaced(head: nat, next: Words, len: Words, runs: seq<Run>, i: nat, j: nat, v: nat, m: nat, prev: nat,
                 head': nat, next': Words)
    requires Links(head, next, len, runs) && Distinct(runs) && i <= j <= |runs| && 0 < v && Behind(runs, i, prev)
    requires forall k :: 0 <= k < |runs| && !(i <= k < j) ==> runs[k].start != v
    requires LinkSet(head, next[v := At(runs, j)], head', next', prev, v)
    ensures Links(head', next', len[v := m], runs[..i] + [Run(v, m)] + runs[j..])
  {
    var after, len' := runs[..i] + [Run(v, m)] + runs[j..], len[v := m];
    assert i > 0 ==> HeaderAt(next, len, runs, i - 1);
    forall k | 0 <= k < |after| ensures HeaderAt(next', len', after, k) {
      if k < i {
        assert HeaderAt(next, len, runs, k);
      } else if k > i {
        assert HeaderAt(next, len, runs, j + (k - i - 1));
      }
    }
  }

  /** Runs i to j made one, at the address of the first. */
  lemma Grown(head: nat, next: Words, len: Words, runs: seq<Run>, i: nat, j: nat, m: nat, next': Words)
    requires Links(head, next, len, runs) && Distinct(runs) && i < j <= |runs|
    requires next' == next[runs[i].start := At(runs, j)]
    ensures Links(head, next', len[runs[i].start := m], runs[..i] + [Run(runs[i].start, m)] + runs[j..])
  {
    var prev := if i == 0 then 0 else runs[i - 1].start;
    assert HeaderAt(next, len, runs, i);
    assert i > 0 ==> HeaderAt(next, len, runs, i - 1);
    Replaced(head, next, len, runs, i, j, runs[i].start, m, prev, head, next');
  }

  /** Run i taken out. */
  lemma Dropped(head: nat, next: Words, len: Words, runs: seq<Run>, i: nat, prev: nat, head': nat, next': Words)
    requires Links(head, next, len, runs) && Distinct(runs) && i < |runs| && Behind(runs, i, prev)
    requires LinkSet(head, next, head', next', prev, At(runs, i + 1))
    ensures Links(head', next', len, runs[..i] + runs[i + 1..])
  {
    var after := runs[..i] + runs[i + 1..];
    assert i > 0 ==> HeaderAt(next, len, runs, i - 1);
    forall k | 0 <= k < |after| ensures HeaderAt(next', len, after, k) {
      assert HeaderAt(next, len, runs, if k < i then k else k + 1);
    }
  }

  // ---- the code -----------------------------------------------------------

  class Allocator {
    var freelist: nat         // 0 for none
    var next: Words
    var len: Words
    ghost var runs: seq<Run>

    ghost predicate Valid()
      reads this
    {
      Links(freelist, next, len, runs) && Good(runs)
    }

    constructor ()
      ensures Valid() && runs == []
    {
      freelist, next, len := 0, map[], map[];
      runs := [];
    }

    /** `memset(v, 1, n)`. */
    method Fill(v: nat, n: nat)
      modifies `next, `len
      ensures next == Junked(old(next), v, n) && len == Junked(old(len), v, n)
    {
      next, len := Junked(next, v, n), Junked(len, v, n);
    }

    /** `*rp = a`. */
    method SetLink(prev: nat, a: nat)
      modifies `freelist, `next
      ensures LinkSet(old(freelist), old(next), freelist, next, prev, a)
    {
      if prev == 0 {
        freelist := a;
      } else {
        next := next[prev := a];
      }
    }

    /** kfree's loop, up to the run that ends it: one past the range, holding v, or touching the range. */
    method Walk(v: nat, n: nat) returns (prev: nat, r: nat, ghost i: nat)
      requires freelist == At(runs, 0) && Good(runs) && 0 < n
      requires forall i :: 0 <= i < |runs| ==> RightBut(next, len, runs, v, i)
      ensures i <= |runs| && r == At(runs, i) && Behind(runs, i, prev) && (i < |runs| ==> 0 < r && r in len)
      ensures i < |runs| ==> runs[i].start > v + n || Stops(runs[i], v, n)
      ensures forall j :: 0 <= j < i ==> runs[j].start <= v + n && !Stops(runs[j], v, n)
      ensures i < |runs| ==> (r <= v < r + len[r] <==> runs[i].start <= v < runs[i].End())
    {
      prev, r := 0, freelist;
      i := 0;
      while r != 0 && r <= v + n
        invariant i <= |runs| && r == At(runs, i) && Behind(runs, i, prev)
        invariant i < |runs| ==> RightBut(next, len, runs, v, i)
        invariant forall j :: 0 <= j < i ==> runs[j].start <= v + n && !Stops(runs[j], v, n)
        decreases |runs| - i
      {
        var rend := r + len[r];
        if (r <= v < rend) || v + n == r || rend == v {
          return;
        }
        assert r != v && HeaderAt(next, len, runs, i);
        prev, r := r, next[r];
        i := i + 1;
      }
    }

    /** The range goes into the list where the walk stopped. */
    method Splice(prev: nat, r: nat, v: nat, n: nat, ghost i: nat, ghost all: seq<Run>)
      requires Links(freelist, next, len, runs) && Distinct(runs) && 0 < v && NotIn(runs, v)
      requires i <= |runs| && r == At(runs, i) && Behind(runs, i, prev)
      requires (i < |runs| && runs[i].start <= v + n ==> Stops(runs[i], v, n)) && Spliced(runs, i, v, n, all)
      modifies this
      ensures runs == all && Links(freelist, next, len, all)
    {
      assert i < |runs| ==> HeaderAt(next, len, runs, i);
      if r == 0 || v + n < r {
        Join(prev, r, v, n, i, i, all);
      } else if v + n == r {
        Join(prev, next[r], v, n + len[r], i, i + 1, all);
      } else {
        Extend(r, n, i, v, all);
      }
      runs := all;
    }

    /** p goes in at rp, in place of the run there or before it. */
    method Join(prev: nat, after: nat, v: nat, m: nat, ghost i: nat, ghost j: nat, ghost all: seq<Run>)
      requires Links(freelist, next, len, runs) && Distinct(runs) && 0 < v && i <= j <= |runs| && Behind(runs, i, prev)
      requires after == At(runs, j) && forall k :: 0 <= k < |runs| ==> runs[k].start != v
      requires all == runs[..i] + [Run(v, m)] + runs[j..]
      modifies `freelist, `next, `len
      ensures Links(freelist, next, len, all)
    {
      len := len[v := m];
      next := next[v := after];
      SetLink(prev, v);
      Replaced(old(freelist), old(next), old(len), runs, i, j, v, m, prev, freelist, next);
    }

    /** The range follows run r, and perhaps fills the space up to the next. */
    method Extend(r: nat, n: nat, ghost i: nat, ghost v: nat, ghost all: seq<Run>)
      requires Links(freelist, next, len, runs) && Distinct(runs) && i < |runs| && r == runs[i].start
        && runs[i].End() == v
      requires all ==
        if i + 1 < |runs| && runs[i + 1].start == v + n
        then runs[..i] + [Run(runs[i].start, runs[i].len + n + runs[i + 1].len)] + runs[i + 2..]
        else runs[..i] + [Run(runs[i].start, runs[i].len + n)] + runs[i + 1..]
      modifies `next, `len
      ensures Links(freelist, next, len, all)
    {
      assert HeaderAt(next, len, runs, i);
      assert i + 1 < |runs| ==> HeaderAt(next, len, runs, i + 1);
      var pend, q, m := r + len[r] + n, next[r], len[r] + n;
      if q != 0 && q == pend {
        m := m + len[q];
        next := next[r := next[q]];
        Grown(freelist, old(next), len, runs, i, i + 2, m, next);
      } else {
        assert next == next[r := At(runs, i + 1)];
        Grown(freelist, next, len, runs, i, i + 1, m, next);
      }
      len := len[r := m];
    }

    /**
     kfree: false stands for the panics, a bad length or a first byte that is free
     already.  It is for ranges in which no run starts but perhaps at their first
     byte; the fill would overwrite that run's header.
     */
    method KFree(v: nat, n: int) returns (ok: bool)
      requires Valid() && 0 < v && forall i :: 0 <= i < |runs| ==> !(v < runs[i].start < v + n)
      modifies this
      ensures ok <==> 0 < n && n % PAGE == 0 && v !in Cover(old(runs))
      ensures ok ==> runs == Insert(old(runs), v, n) && Links(freelist, next, len, runs)
      ensures ok && v % PAGE == 0 ==> Valid() && Cover(runs) == Cover(old(runs)) + Span(v, n)
    {
      if n <= 0 || n % PAGE != 0 {
        return false;
      }
      ghost var l0, n0, r0 := len, next, runs;
      Fill(v, n);
      FilledRightBut(freelist, n0, l0, runs, v, n);
      var prev, r; ghost var i;
      prev, r, i := Walk(v, n);
      FreeByte(runs, i, v, n);
      if r != 0 && r <= v < r + len[r] {
        return false;
      }
      StartsInIff(runs, v, n);
      NoneInside(runs, v, n);
      FillKeepsListIff(freelist, n0, l0, runs, v, n);
      InsertSpliced(runs, i, v, n);
      Splice(prev, r, v, n, i, Insert(runs, v, n));
      InsertCover(r0, v, n);
      if v % PAGE == 0 { InsertGood(r0, v, n); }
      ok := true;
    }

    /** kalloc: None stands for the return value 0; a bad length panics. */
    method KAlloc(n: int) returns (ok: bool, r: Option<nat>)
      requires Valid()
      modifies this
      ensures ok <==> 0 < n && n % PAGE == 0
      ensures !ok ==> unchanged(this)
      ensures Valid()
      ensures ok ==>
        match Take(old(runs), n)
        case None => r == None && runs == old(runs)
        case Some((a, rest)) => r == Some(a) && runs == rest
    {
      if n % PAGE != 0 || n <= 0 {
        return false, None;
      }
      var prev, p; ghost var i;
      prev, p, i := FindRun(n);
      if p == 0 {
        TakeAt(runs, i, n);
        return true, None;
      }
      ghost var rest := TakenRest(runs, i, n);
      var a := TakeRun(prev, p, n, i, rest);
      ok, r := true, Some(a);
    }

    /** kalloc's loop: the first run of n bytes or more. */
    method FindRun(n: nat) returns (prev: nat, p: nat, ghost i: nat)
      requires Links(freelist, next, len, runs)
      ensures i <= |runs| && p == At(runs, i) && Behind(runs, i, prev) && (p == 0 <==> i == |runs|)
      ensures (forall j :: 0 <= j < i ==> runs[j].len < n) && (i < |runs| ==> n <= runs[i].len)
    {
      prev, p := 0, freelist;
      i := 0;
      while p != 0
        invariant i <= |runs| && p == At(runs, i) && Behind(runs, i, prev)
        invariant i < |runs| ==> HeaderAt(next, len, runs, i)
        invariant forall j :: 0 <= j < i ==> runs[j].len < n
        decreases |runs| - i
      {
        if len[p] >= n {
          return;
        }
        prev, p := p, next[p];
        i := i + 1;
      }
    }

    /** kalloc's two ways out: the whole run, or its end. */
    method TakeRun(prev: nat, p: nat, n: nat, ghost i: nat, ghost rest: seq<Run>) returns (a: nat)
      requires Links(freelist, next, len, runs) && Distinct(runs) && i < |runs| && p == runs[i].start
        && Behind(runs, i, prev) && n <= runs[i].len
      requires runs[i].len == n ==> rest == runs[..i] + runs[i + 1..]
      requires n < runs[i].len ==> rest == runs[..i] + [Run(runs[i].start, runs[i].len - n)] + runs[i + 1..]
      modifies this
      ensures Links(freelist, next, len, rest) && runs == rest && a == old(runs)[i].start + (old(runs)[i].len - n)
    {
      assert HeaderAt(next, len, runs, i);
      if len[p] == n {
        SetLink(prev, next[p]);
        Dropped(old(freelist), old(next), len, runs, i, prev, freelist, next);
        a := p;
      } else {
        assert next == next[p := At(runs, i + 1)];
        Grown(freelist, next, len, runs, i, i + 1, len[p] - n, next);
        len := len[p := len[p] - n];
        a := p + len[p];
      }
      runs := rest;
    }
  }

  /** The fill leaves all headers right but perhaps one at v. */
  lemma FilledRightBut(head: nat, next: Words, len: Words, runs: seq<Run>, v: nat, n: nat)
    requires Links(head, next, len, runs) && 0 < n && forall i :: 0 <= i < |runs| ==> !(v < runs[i].start < v + n)
    ensures forall i :: 0 <= i < |runs| ==> RightBut(Junked(next, v, n), Junked(len, v, n), runs, v, i)
  {
    forall i | 0 <= i < |runs| ensures RightBut(Junked(next, v, n), Junked(len, v, n), runs, v, i) {
      assert HeaderAt(next, len, runs, i);
    }
  }

  /** v is in no run. */
  ghost predicate NotIn(runs: seq<Run>, v: nat) {
    forall k :: 0 <= k < |runs| ==> runs[k].start != v && !(runs[k].start <= v < runs[k].End())
  }

  /** The list with the range put in where the walk stopped. */
  ghost predicate Spliced(runs: seq<Run>, i: nat, v: nat, n: nat, all: seq<Run>)
    requires i <= |runs|
  {
    && (i == |runs| || v + n < runs[i].start ==> all == runs[..i] + [Run(v, n)] + runs[i..])
    && (i < |runs| && v + n == runs[i].start ==> all == runs[..i] + [Run(v, n + runs[i].len)] + runs[i + 1..])
    && (i < |runs| && runs[i].start <= v && runs[i].End() == v ==>
         all == if i + 1 < |runs| && runs[i + 1].start == v + n
                then runs[..i] + [Run(runs[i].start, runs[i].len + n + runs[i + 1].len)] + runs[i + 2..]
                else runs[..i] + [Run(runs[i].start, runs[i].len + n)] + runs[i + 1..])
  }

  lemma InsertSpliced(runs: seq<Run>, i: nat, v: nat, n: nat)
    requires Good(runs) && 0 < n && i <= |runs| && v !in Cover(runs)
    requires forall j :: 0 <= j < i ==> runs[j].start <= v + n && !Stops(runs[j], v, n)
    ensures Spliced(runs, i, v, n, Insert(runs, v, n)) && NotIn(runs, v) && Distinct(runs)
  {
    CoverIn(runs, v);
    InsertPast(runs, i, v, n);
    InsertHere(runs, i, v, n);
  }

  lemma TakenRest(runs: seq<Run>, i: nat, n: nat) returns (rest: seq<Run>)
    requires Good(runs) && 0 < n && n % PAGE == 0 && i < |runs| && n <= runs[i].len
    requires forall j :: 0 <= j < i ==> runs[j].len < n
    ensures Take(runs, n) == Some((runs[i].start + (runs[i].len - n), rest)) && Good(rest) && Distinct(runs)
    ensures runs[i].len == n ==> rest == runs[..i] + runs[i + 1..]
    ensures n < runs[i].len ==> rest == runs[..i] + [Run(runs[i].start, runs[i].len - n)] + runs[i + 1..]
  {
    TakeAt(runs, i, n);
    TakeGood(runs, n);
    rest := Take(runs, n).value.1;
  }

  lemma NoneInside(runs: seq<Run>, v: nat, n: nat)
    requires Good(runs) && v !in Cover(runs) && forall i :: 0 <= i < |runs| ==> !(v < runs[i].start < v + n)
    ensures !StartsIn(runs, v, n)
  {
    CoverIn(runs, v);
  }

  /** A range that was handed out and not yet given back meets no free memory and no header. */
  lemma HeldIsApart(m: Memory, v: nat, n: nat, pool: set<nat>)
    requires Accounts(m, pool) && Legal(m, Op.Free(v, n))
    ensures v !in Cover(m.runs) && !StartsIn(m.runs, v, n)
  {
    assert v in Span(v, n);
    StartsInIff(m.runs, v, n);
  }

  /** kfree of the third page; the fill of the second and third then leads the list to address 0x01010101. */
  method FreeOverlaps() returns (first: bool, link: nat)
    ensures first && link == JUNK
  {
    var m := new Allocator();
    first := m.KFree(2 * PAGE, PAGE);
    assert Insert([], 2 * PAGE, PAGE) == [Run(2 * PAGE, PAGE)];
    assert HeaderAt(m.next, m.len, m.runs, 0);
    m.Fill(PAGE, 2 * PAGE);
    link := m.next[m.freelist];
  }
}
