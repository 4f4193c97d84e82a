/**
 Pipes: the stretches of pipewrite, piperead and pipeclose between acquiring the
 pipe's lock and giving it up, first on the bytes that have gone in and out, then
 on the ring buffer with its 32-bit counters.
 */
module Pipe {
  const PIPESIZE := 512

  /** How a stretch of pipewrite or piperead ends: returns a count, returns -1, or sleeps. */
  datatype Outcome = Done | Failed | Asleep

  /** A pipe by the bytes ever written to and read from it, and who sleeps on which end. */
  datatype State = State(
    readopen: bool, writeopen: bool, written: seq<char>, read: seq<char>,
    readers: set<nat>, writers: set<nat>)

  function Room(s: State): (n: int) {
    PIPESIZE - (|s.written| - |s.read|)
  }

  /** Bytes leave in the order they came, and at most PIPESIZE are in flight. */
  predicate Fifo(s: State) {
    s.read <= s.written && |s.written| - |s.read| <= PIPESIZE
  }

  /** Nobody sleeps who could go on. */
  predicate NoStuck(s: State) {
    && (s.readers != {} ==> s.read == s.written && s.writeopen)
    && (s.writers != {} ==> Room(s) == 0 && s.readopen)
  }

  // ---- the stretches ------------------------------------------------------

  /** How far into src, from i on, pipewrite gets before the pipe is full. */
  function Stored(s: State, src: seq<char>, i: nat): (j: nat)
    requires i <= |src| && Fifo(s)
    ensures i <= j <= |src|
    ensures j < |src| ==> j - i == Room(s)
  {
    if |src| - i <= Room(s) then |src| else i + Room(s)
  }

  function WriteOutcome(s: State, src: seq<char>, i: nat, killed: bool): (o: Outcome)
    requires i <= |src| && Fifo(s)
  {
    if Stored(s, src, i) == |src| then Done else if !s.readopen || killed then Failed else Asleep
  }

  /** pipewrite by p, from byte i of src on, until it returns or sleeps. */
  function WriteStretch(s: State, p: nat, src: seq<char>, i: nat, killed: bool): (r: State)
    requires i <= |src| && Fifo(s)
    ensures Fifo(r) && r.read == s.read && r.written == s.written + src[i..Stored(s, src, i)]
    ensures WriteOutcome(s, src, i, killed) == Asleep ==> p in r.writers && p !in r.readers
  {
    var stored := s.(written := s.written + src[i..Stored(s, src, i)]);
    match WriteOutcome(s, src, i, killed)
    case Done => stored.(readers := {})
    case Failed => stored
    case Asleep => stored.(readers := {}, writers := s.writers + {p})
  }

  function ReadOutcome(s: State, killed: bool): (o: Outcome) {
    if s.read == s.written && s.writeopen then if killed then Failed else Asleep else Done
  }

  /** The bytes piperead takes: the oldest, as many as are asked for and there are. */
  function Taken(s: State, n: int): (bytes: seq<char>)
    requires Fifo(s)
    ensures s.read + bytes <= s.written
    ensures |bytes| == if n <= 0 then 0 else if n <= |s.written| - |s.read| then n else |s.written| - |s.read|
  {
    var waiting := s.written[|s.read|..];
    if n <= 0 then [] else if n <= |waiting| then waiting[..n] else waiting
  }

  /** piperead of n bytes by p until it returns or sleeps. */
  function ReadStretch(s: State, p: nat, n: int, killed: bool): (r: State)
    requires Fifo(s)
    ensures Fifo(r) && r.written == s.written
    ensures r.read == s.read + if ReadOutcome(s, killed) == Done then Taken(s, n) else []
    ensures ReadOutcome(s, killed) == Asleep ==> p in r.readers
  {
    match ReadOutcome(s, killed)
    case Done => s.(read := s.read + Taken(s, n), writers := {})
    case Failed => s
    case Asleep => s.(readers := s.readers + {p})
  }

  function Close(s: State, writable: bool): (r: State) {
    if writable then s.(writeopen := false, readers := {}) else s.(readopen := false, writers := {})
  }

  // ---- who is left asleep -------------------------------------------------

  /** pipewrite fills the pipe, returns -1 and leaves a reader asleep. */
  predicate LosesWakeup(s: State, src: seq<char>, i: nat, killed: bool)
    requires i <= |src| && Fifo(s)
  {
    s.readers != {} && 0 < Room(s) < |src| - i && (!s.readopen || killed)
  }

  lemma WriteNoStuckIff(s: State, p: nat, src: seq<char>, i: nat, killed: bool)
    requires i <= |src| && Fifo(s) && NoStuck(s)
    ensures NoStuck(WriteStretch(s, p, src, i, killed)) <==> !LosesWakeup(s, src, i, killed)
  {
  }

  lemma ReadNoStuck(s: State, p: nat, n: int, killed: bool)
    requires Fifo(s) && NoStuck(s)
    ensures NoStuck(ReadStretch(s, p, n, killed))
  {
  }

  // ---- all interleavings --------------------------------------------------

  /** A call in progress: the id-th pipewrite, at byte i of src, or piperead of n bytes. */
  datatype Call = Writing(src: seq<char>, i: nat, id: nat) | Reading(n: int)

  /**
   The pipe, the calls of processes inside it, the killed, and how many pipewrites
   returned -1.  Beside them the history: the bytes of every pipewrite ever called,
   which of them have returned with all bytes written, which one wrote each byte,
   and what each piperead that returned has handed out, in order.
   */
  datatype World = World(
    pipe: State, calls: map<nat, Call>, killed: set<nat>, failures: nat,
    sources: seq<seq<char>>, done: set<nat>, from: seq<nat>, handed: seq<seq<char>>)

  /**
   A process calls or goes on with its call; an end is closed; a process is killed,
   and woken unless the kill falls between its test and its sleep.
   */
  datatype Event = Start(p: nat, call: Call) | Resume(p: nat) | Shut(writable: bool) | Kill(p: nat) | KillUnseen(p: nat)

  predicate Enabled(w: World, e: Event) {
    match e
    case Start(p, call) => p !in w.calls && (call.Writing? ==> call.i == 0 && call.id == |w.sources|)
    case Resume(p) => p in w.calls && p !in w.pipe.readers && p !in w.pipe.writers
    case Shut(_) => true
    case Kill(_) => true
    case KillUnseen(_) => true
  }

  predicate Calling(c: Call) {
    c.Writing? ==> c.i <= |c.src|
  }

  /** Sleepers are inside calls of their kind. */
  ghost predicate Inside(w: World) {
    && (forall p :: p in w.calls ==> Calling(w.calls[p]))
    && (forall p :: p in w.pipe.readers ==> p in w.calls && w.calls[p].Reading?)
    && (forall p :: p in w.pipe.writers ==> p in w.calls && w.calls[p].Writing?)
  }

  /** n times the same number. */
  function Times(id: nat, n: nat): (r: seq<nat>)
    ensures |r| == n && forall k :: 0 <= k < n ==> r[k] == id
  {
    seq(n, _ => id)
  }

  /** One stretch of p's call. */
  function Proceed(w: World, p: nat, call: Call): (r: World)
    requires Fifo(w.pipe) && Calling(call)
    ensures Fifo(r.pipe)
    ensures call.Writing? && WriteOutcome(w.pipe, call.src, call.i, p in w.killed) == Done ==> call.id in r.done
  {
    var dead := p in w.killed;
    match call
    case Writing(src, i, id) =>
      var o, j := WriteOutcome(w.pipe, src, i, dead), Stored(w.pipe, src, i);
      w.(pipe := WriteStretch(w.pipe, p, src, i, dead),
         calls := if o == Asleep then w.calls[p := Writing(src, j, id)] else w.calls - {p},
         failures := w.failures + (if o == Failed then 1 else 0), from := w.from + Times(id, j - i),
         done := if o == Done then w.done + {id} else w.done)
    case Reading(n) =>
      var o := ReadOutcome(w.pipe, dead);
      w.(pipe := ReadStretch(w.pipe, p, n, dead), calls := if o == Asleep then w.calls[p := call] else w.calls - {p},
         handed := if o == Done then w.handed + [Taken(w.pipe, n)] else w.handed)
  }

  ghost function Next(w: World, e: Event): (r: World)
    requires Fifo(w.pipe) && Inside(w) && Enabled(w, e)
    ensures Fifo(r.pipe)
  {
    match e
    case Start(p, call) => Proceed(if call.Writing? then w.(sources := w.sources + [call.src]) else w, p, call)
    case Resume(p) => Proceed(w, p, w.calls[p])
    case Shut(writable) => w.(pipe := Close(w.pipe, writable))
    case Kill(p) =>
      w.(pipe := w.pipe.(readers := w.pipe.readers - {p}, writers := w.pipe.writers - {p}), killed := w.killed + {p})
    case KillUnseen(p) => w.(killed := w.killed + {p})
  }

  /** The step is the stretch of pipewrite that leaves a reader asleep. */
  ghost predicate Loses(w: World, e: Event)
    requires Fifo(w.pipe) && Inside(w) && Enabled(w, e)
  {
    match e
    case Start(p, Writing(src, i, _)) => LosesWakeup(w.pipe, src, i, p in w.killed)
    case Resume(p) => w.calls[p].Writing? && LosesWakeup(w.pipe, w.calls[p].src, w.calls[p].i, p in w.killed)
    case _ => false
  }

  lemma ProceedInside(w: World, p: nat, call: Call)
    requires Fifo(w.pipe) && Inside(w) && Calling(call) && p !in w.pipe.readers && p !in w.pipe.writers
    ensures Inside(Proceed(w, p, call))
  {
  }

  lemma StepInside(w: World, e: Event)
    requires Fifo(w.pipe) && Inside(w) && Enabled(w, e)
    ensures Inside(Next(w, e))
  {
    match e
    case Start(p, call) =>
      ProceedInside(if call.Writing? then w.(sources := w.sources + [call.src]) else w, p, call);
    case Resume(p) => ProceedInside(w, p, w.calls[p]);
    case _ =>
  }

  lemma StepNoStuckIff(w: World, e: Event)
    requires Fifo(w.pipe) && Inside(w) && Enabled(w, e) && NoStuck(w.pipe)
    ensures NoStuck(Next(w, e).pipe) <==> !Loses(w, e)
    ensures Loses(w, e) ==> Next(w, e).failures > w.failures
  {
    match e
    case Start(p, Writing(src, i, _)) => WriteNoStuckIff(w.pipe, p, src, i, p in w.killed);
    case Resume(p) =>
      if w.calls[p].Writing? { WriteNoStuckIff(w.pipe, p, w.calls[p].src, w.calls[p].i, p in w.killed); }
    case _ =>
  }

  ghost predicate IsRun(w: World, es: seq<Event>)
    requires Fifo(w.pipe) && Inside(w)
    decreases |es|
  {
    es == [] || (Enabled(w, es[0]) && (StepInside(w, es[0]); IsRun(Next(w, es[0]), es[1..])))
  }

  ghost function After(w: World, es: seq<Event>): (r: World)
    requires Fifo(w.pipe) && Inside(w) && IsRun(w, es)
    ensures Fifo(r.pipe) && Inside(r)
    decreases |es|
  {
    if es == [] then w else (StepInside(w, es[0]); After(Next(w, es[0]), es[1..]))
  }

  /** Bytes once written or read stay so. */
  lemma {:induction false} RunGrows(w: World, es: seq<Event>)
    requires Fifo(w.pipe) && Inside(w) && IsRun(w, es)
    ensures var r := After(w, es).pipe; w.pipe.written <= r.written && w.pipe.read <= r.read
    ensures w.failures <= After(w, es).failures
    decreases |es|
  {
    if es != [] {
      StepInside(w, es[0]);
      RunGrows(Next(w, es[0]), es[1..]);
    }
  }

  /** No step of the run leaves a reader asleep beside data. */
  ghost predicate NeverLoses(w: World, es: seq<Event>)
    requires Fifo(w.pipe) && Inside(w) && IsRun(w, es)
    decreases |es|
  {
    es == [] || (!Loses(w, es[0]) && (StepInside(w, es[0]); NeverLoses(Next(w, es[0]), es[1..])))
  }

  /** In every state of the run, nobody sleeps who could go on. */
  ghost predicate NeverStuck(w: World, es: seq<Event>)
    requires Fifo(w.pipe) && Inside(w) && IsRun(w, es)
    decreases |es|
  {
    NoStuck(w.pipe) && (es == [] || (StepInside(w, es[0]); NeverStuck(Next(w, es[0]), es[1..])))
  }

  lemma {:induction false} NeverStuckIff(w: World, es: seq<Event>)
    requires Fifo(w.pipe) && Inside(w) && IsRun(w, es) && NoStuck(w.pipe)
    ensures NeverStuck(w, es) <==> NeverLoses(w, es)
    ensures NeverLoses(w, es) ==> NoStuck(After(w, es).pipe)
    ensures After(w, es).failures == w.failures ==> NeverLoses(w, es)
    decreases |es|
  {
    if es != [] {
      StepInside(w, es[0]);
      StepNoStuckIff(w, es[0]);
      RunGrows(Next(w, es[0]), es[1..]);
      if !Loses(w, es[0]) {
        NeverStuckIff(Next(w, es[0]), es[1..]);
      } else {
        StuckIsStuck(Next(w, es[0]), es[1..]);
      }
    }
  }

  lemma StuckIsStuck(w: World, es: seq<Event>)
    requires Fifo(w.pipe) && Inside(w) && IsRun(w, es) && !NoStuck(w.pipe)
    ensures !NeverStuck(w, es)
  {
  }

  // ---- what calls wrote and what they got ---------------------------------

  /** All the pieces, one after another. */
  function Joined(pieces: seq<seq<char>>): (s: seq<char>) {
    if pieces == [] then [] else Joined(pieces[..|pieces| - 1]) + pieces[|pieces| - 1]
  }

  /** The bytes of s that call id wrote. */
  function Of(s: seq<char>, from: seq<nat>, id: nat): (r: seq<char>)
    requires |from| == |s|
  {
    if s == [] then []
    else Of(s[..|s| - 1], from[..|s| - 1], id) + if from[|s| - 1] == id then [s[|s| - 1]] else []
  }

  /** More bytes by one call. */
  lemma {:induction false} OfMore(s: seq<char>, from: seq<nat>, more: seq<char>, writer: nat, id: nat)
    requires |from| == |s|
    ensures Of(s + more, from + Times(writer, |more|), id) == Of(s, from, id) + if writer == id then more else []
  {
    if more == [] {
      assert s + more == s && from + Times(writer, 0) == from;
    } else {
      var n := |more| - 1;
      OfMore(s, from, more[..n], writer, id);
      assert (s + more)[..|s| + n] == s + more[..n];
      assert (from + Times(writer, n + 1))[..|s| + n] == from + Times(writer, n);
      assert more[..n] + [more[n]] == more;
    }
  }

  /** Every byte was written by one pipewrite, each one's in its order, and all of those of one that has returned. */
  ghost predicate Shuffled(written: seq<char>, from: seq<nat>, sources: seq<seq<char>>, done: set<nat>) {
    && |from| == |written| && (forall k :: 0 <= k < |from| ==> from[k] < |sources|)
    && (forall id :: 0 <= id < |sources| ==> Of(written, from, id) <= sources[id])
    && (forall id :: id in done ==> id < |sources| && Of(written, from, id) == sources[id])
  }

  /** A pipewrite that is still inside has written its bytes up to where it is. */
  ghost predicate WritingOk(written: seq<char>, from: seq<nat>, sources: seq<seq<char>>, done: set<nat>, c: Call)
    requires c.Writing? && |from| == |written|
  {
    && c.id < |sources| && sources[c.id] == c.src && c.id !in done && c.i <= |c.src|
    && Of(written, from, c.id) == c.src[..c.i]
  }

  ghost predicate CallsOk(calls: map<nat, Call>, written: seq<char>, from: seq<nat>, sources: seq<seq<char>>,
                          done: set<nat>)
    requires |from| == |written|
  {
    && (forall p :: p in calls && calls[p].Writing? ==> WritingOk(written, from, sources, done, calls[p]))
    && (forall p, q :: p in calls && q in calls && p != q && calls[p].Writing? && calls[q].Writing? ==>
         calls[p].id != calls[q].id)
  }

  /** And every piperead got the bytes behind those handed out before it. */
  ghost predicate Accounted(w: World) {
    && Joined(w.handed) == w.pipe.read && Shuffled(w.pipe.written, w.from, w.sources, w.done)
    && CallsOk(w.calls, w.pipe.written, w.from, w.sources, w.done)
  }

  /** No byte is a call's that has not started. */
  lemma {:induction false} OfNone(s: seq<char>, from: seq<nat>, id: nat)
    requires |from| == |s| && forall k :: 0 <= k < |from| ==> from[k] != id
    ensures Of(s, from, id) == []
  {
    if s != [] { OfNone(s[..|s| - 1], from[..|s| - 1], id); }
  }

  lemma StartAccounted(w: World, call: Call, w': World)
    requires Accounted(w) && call.Writing? && call.i == 0 && call.id == |w.sources|
    requires w' == w.(sources := w.sources + [call.src])
    ensures Accounted(w') && WritingOk(w.pipe.written, w.from, w'.sources, w.done, call)
    ensures forall q :: q in w.calls && w.calls[q].Writing? ==> w.calls[q].id != call.id
  {
    OfNone(w.pipe.written, w.from, call.id);
  }

  /** The pipewrite c adds its bytes up to j. */
  lemma MoreShuffled(written: seq<char>, from: seq<nat>, sources: seq<seq<char>>, done: set<nat>, c: Call, j: nat,
                     written': seq<char>, from': seq<nat>)
    requires Shuffled(written, from, sources, done) && c.Writing? && WritingOk(written, from, sources, done, c)
    requires c.i <= j <= |c.src| && written' == written + c.src[c.i..j] && from' == from + Times(c.id, j - c.i)
    ensures Shuffled(written', from', sources, done) && Of(written', from', c.id) == c.src[..j]
    ensures forall id: nat :: id != c.id ==> Of(written', from', id) == Of(written, from, id)
  {
    assert c.src[..c.i] + c.src[c.i..j] == c.src[..j];
    forall id: nat ensures Of(written', from', id) ==
      Of(written, from, id) + if id == c.id then c.src[c.i..j] else []
    {
      OfMore(written, from, c.src[c.i..j], c.id, id);
    }
  }

  lemma OthersOk(calls: map<nat, Call>, written: seq<char>, from: seq<nat>, sources: seq<seq<char>>, done: set<nat>,
                 p: nat, id: nat, written': seq<char>, from': seq<nat>)
    requires |from| == |written| && |from'| == |written'| && CallsOk(calls, written, from, sources, done)
    requires forall q :: q in calls && q != p && calls[q].Writing? ==> calls[q].id != id
    requires forall x: nat :: x != id ==> Of(written', from', x) == Of(written, from, x)
    ensures CallsOk(calls - {p}, written', from', sources, done + {id})
    ensures CallsOk(calls - {p}, written', from', sources, done)
  {
    forall q | q in calls - {p} && calls[q].Writing?
      ensures WritingOk(written', from', sources, done, calls[q])
      ensures WritingOk(written', from', sources, done + {id}, calls[q])
    {
      assert WritingOk(written, from, sources, done, calls[q]);
    }
  }

  lemma WriteAccounted(w: World, p: nat, call: Call)
    requires Fifo(w.pipe) && Accounted(w) && call.Writing?
    requires WritingOk(w.pipe.written, w.from, w.sources, w.done, call)
    requires forall q :: q in w.calls && q != p && w.calls[q].Writing? ==> w.calls[q].id != call.id
    ensures Accounted(Proceed(w, p, call))
  {
    var r, j := Proceed(w, p, call), Stored(w.pipe, call.src, call.i);
    MoreShuffled(w.pipe.written, w.from, w.sources, w.done, call, j, r.pipe.written, r.from);
    OthersOk(w.calls, w.pipe.written, w.from, w.sources, w.done, p, call.id, r.pipe.written, r.from);
    assert j == |call.src| ==> call.src[..j] == call.src;
    if WriteOutcome(w.pipe, call.src, call.i, p in w.killed) == Asleep {
      assert r.calls == (w.calls - {p})[p := Writing(call.src, j, call.id)];
    }
  }

  lemma ReadAccounted(w: World, p: nat, call: Call)
    requires Fifo(w.pipe) && Accounted(w) && call.Reading?
    ensures Accounted(Proceed(w, p, call))
  {
    var r := Proceed(w, p, call);
    assert ReadOutcome(w.pipe, p in w.killed) == Done ==> r.handed[..|r.handed| - 1] == w.handed;
  }

  lemma StepAccounted(w: World, e: Event)
    requires Fifo(w.pipe) && Inside(w) && Accounted(w) && Enabled(w, e)
    ensures Accounted(Next(w, e))
  {
    match e
    case Start(p, call) =>
      if call.Writing? {
        var w' := w.(sources := w.sources + [call.src]);
        StartAccounted(w, call, w');
        WriteAccounted(w', p, call);
      } else {
        ReadAccounted(w, p, call);
      }
    case Resume(p) =>
      if w.calls[p].Writing? { WriteAccounted(w, p, w.calls[p]); } else { ReadAccounted(w, p, w.calls[p]); }
    case _ =>
  }

  lemma {:induction false} RunAccounted(w: World, es: seq<Event>)
    requires Fifo(w.pipe) && Inside(w) && Accounted(w) && IsRun(w, es)
    ensures Accounted(After(w, es))
    decreases |es|
  {
    if es != [] {
      StepInside(w, es[0]);
      StepAccounted(w, es[0]);
      RunAccounted(Next(w, es[0]), es[1..]);
    }
  }

  /** Nobody sleeps on the other side of an end that is closed. */
  ghost predicate ShutSeen(w: World) {
    (!w.pipe.writeopen ==> w.pipe.readers == {}) && (!w.pipe.readopen ==> w.pipe.writers == {})
  }

  lemma ShutStep(w: World, e: Event)
    requires Fifo(w.pipe) && Inside(w) && Enabled(w, e) && ShutSeen(w)
    ensures var r := Next(w, e);
      ShutSeen(r) && (r.pipe.writeopen ==> w.pipe.writeopen) && (r.pipe.readopen ==> w.pipe.readopen)
  {
  }

  /** A closed end stays closed, and nobody sleeps on it from then on. */
  lemma {:induction false} ShutStays(w: World, es: seq<Event>)
    requires Fifo(w.pipe) && Inside(w) && IsRun(w, es) && ShutSeen(w)
    ensures ShutSeen(After(w, es))
    ensures !w.pipe.writeopen ==> !After(w, es).pipe.writeopen
    ensures !w.pipe.readopen ==> !After(w, es).pipe.readopen
    decreases |es|
  {
    if es != [] {
      StepInside(w, es[0]);
      ShutStep(w, es[0]);
      ShutStays(Next(w, es[0]), es[1..]);
    }
  }

  /** Once the write end is closed every piperead returns, and once the read end is, every pipewrite. */
  lemma ShutEnds(w: World, writable: bool, es: seq<Event>)
    requires Fifo(w.pipe) && Inside(w) && ShutSeen(w) && IsRun(w, [Shut(writable)] + es)
    ensures var r := After(w, [Shut(writable)] + es).pipe;
      if writable then !r.writeopen && r.readers == {} else !r.readopen && r.writers == {}
  {
    StepInside(w, Shut(writable));
    assert ([Shut(writable)] + es)[1..] == es;
    ShutStays(Next(w, Shut(writable)), es);
  }

  // ---- kills --------------------------------------------------------------

  predicate Sleeps(w: World, p: nat) {
    p in w.pipe.readers || p in w.pipe.writers
  }

  lemma KilledStep(w: World, e: Event, p: nat)
    requires Fifo(w.pipe) && Inside(w) && Enabled(w, e) && p in w.killed && !Sleeps(w, p)
    ensures p in Next(w, e).killed && !Sleeps(Next(w, e), p)
  {
  }

  lemma {:induction false} KilledStays(w: World, es: seq<Event>, p: nat)
    requires Fifo(w.pipe) && Inside(w) && IsRun(w, es) && p in w.killed && !Sleeps(w, p)
    ensures p in After(w, es).killed && !Sleeps(After(w, es), p)
    decreases |es|
  {
    if es != [] {
      StepInside(w, es[0]);
      KilledStep(w, es[0], p);
      KilledStays(Next(w, es[0]), es[1..], p);
    }
  }

  /** A process killed, in its sleep or before it, never sleeps on the pipe again. */
  lemma KillEnds(w: World, e: Event, p: nat, es: seq<Event>)
    requires Fifo(w.pipe) && Inside(w) && IsRun(w, [e] + es)
    requires e == Kill(p) || (e == KillUnseen(p) && !Sleeps(w, p))
    ensures p in After(w, [e] + es).killed && !Sleeps(After(w, [e] + es), p)
  {
    StepInside(w, e);
    assert ([e] + es)[1..] == es;
    KilledStays(Next(w, e), es, p);
  }

  const FRESH := World(State(true, true, [], [], {}, {}), map[], {}, 0, [], {}, [], [])

  /**
   In every interleaving on a new pipe, the bytes the pipereads have handed out, one
   after another, are a prefix of what has been written with at most PIPESIZE bytes
   between; what has been written is a shuffle of the pipewrites' bytes, each in its
   order, and all of those of one that has returned.  And in every state of the run
   a sleeping reader sees an empty pipe open for writing and a sleeping writer a full
   one open for reading, if and only if no pipewrite fills the pipe and returns -1
   beside a sleeping reader; so as long as none has returned -1.
   */
  lemma PipeRun(es: seq<Event>)
    requires IsRun(FRESH, es)
    ensures var w := After(FRESH, es);
      && Joined(w.handed) <= w.pipe.written && |w.pipe.written| - |Joined(w.handed)| <= PIPESIZE
      && Shuffled(w.pipe.written, w.from, w.sources, w.done)
    ensures NeverStuck(FRESH, es) <==> NeverLoses(FRESH, es)
    ensures After(FRESH, es).failures == 0 ==> NeverStuck(FRESH, es) && NoStuck(After(FRESH, es).pipe)
  {
    NeverStuckIff(FRESH, es);
    RunAccounted(FRESH, es);
  }

  /** A killed writer that overfills the pipe leaves a reader asleep beside 512 bytes. */
  lemma ReaderLeftAsleep() returns (es: seq<Event>)
    ensures IsRun(FRESH, es) && After(FRESH, es).pipe.readers == {1} && Room(After(FRESH, es).pipe) == 0
  {
    var src := seq(PIPESIZE + 1, i => 'x');
    es := [Start(1, Reading(1)), Kill(2), Start(2, Writing(src, 0, 0))];
    var w1 := Next(FRESH, es[0]);
    var w2 := Next(w1, es[1]);
    var w3 := Next(w2, es[2]);
    assert w1.pipe.readers == {1} && w2.pipe.readers == {1};
    assert es[1..][1..][1..] == [] && es[1..][1..] == [es[2]] && es[1..] == [es[1], es[2]];
    assert IsRun(w2, [es[2]]) && After(w2, [es[2]]) == w3 by { assert [es[2]][1..] == []; }
    assert IsRun(w1, es[1..]) && After(w1, es[1..]) == w3;
  }
}
