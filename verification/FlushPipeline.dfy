/**
 Flushing and freeing shared cache units while threads run, as a state machine whose steps are
 the regions of code that run under one lock or at a flush synch point.

 A unit goes from its cache's list to the units to flush, to the local list of the thread that
 flushes it, to the units to free, and is freed.  Its fragments are unlinked when it is flushed
 but deleted only when every thread that ran at that time has passed a point outside the cache;
 each flush has a timestamp, each thread the timestamp it last signed off, and each batch of
 unlinked fragments a count of the threads still to do so.
 */
module FlushPipeline {
  import opened UnitLists
  import opened FifoRing

  /** What a thread is doing about units to flush. */
  datatype Phase = Idle | Marked | Grabbing | Holding(held: seq<nat>) | Stamped(flushed: seq<nat>, time: nat)

  /**
   Where a thread runs: outside the cache, or in a fragment.  A thread that has chosen its target
   and signed off counts as inside it already; a unit flush is started by such a thread.
   */
  datatype Where = Outside | Inside(frag: nat)

  datatype Thread = Thread(last: nat, pending: bool, phase: Phase, at: Where)

  /** A fragment can be entered only while it is linked. */
  datatype Life = Linked | Lazy(time: nat) | Unlinked(time: nat) | Deleted

  /** A batch of fragments unlinked together, and how many threads have yet to sign off. */
  datatype Batch = Batch(time: nat, count: int, frags: set<nat>)

  /** The one place of a unit. */
  datatype Place = OnCache | ToFlush | Local(thread: nat) | ToFree | Freed

  /** `batches` has the newest first; `place`, `adder` and `flushes` record history. */
  datatype State = State(
    time: nat, threads: map<nat, Thread>,
    live: set<nat>, toFlush: seq<nat>, toFree: seq<nat>, freed: set<nat>, flushtime: map<nat, nat>,
    home: map<nat, nat>, life: map<nat, Life>, batches: seq<Batch>,
    place: map<nat, Place>, adder: map<nat, nat>, flushes: map<nat, nat>)

  datatype Step =
    | NewUnit(unit: nat)
    | NewFrag(frag: nat, unit: nat)
    | Mark(t: nat, unit: nat)
    | SetPending(t: nat)
    | ClearPending(t: nat)
    | Grab(t: nat)
    | Flush(t: nat)
    | FlushFrags(t: nat, frags: set<nat>)
    | DeleteLazily(frag: nat)
    | MoveLazy(t: nat)
    | Append(t: nat)
    | Enter(t: nat, frag: nat)
    | Leave(t: nat)
    | SignOff(t: nat)
    | Join(t: nat)
    | Exit(t: nat)

  // ---------------------------------------------------------------- steps

  /**
   Units in which a new fragment may be placed.  A unit that was handed over to be flushed keeps
   its free slots on the free lists until its flush takes them off.
   */
  ghost predicate Accepts(s: State, u: nat) {
    || u in s.live || u in s.toFlush
    || exists t :: t in s.threads && s.threads[t].phase.Holding? && u in s.threads[t].phase.held
  }

  ghost predicate Can(s: State, x: Step) {
    match x
    case NewUnit(u) => u !in s.place
    case NewFrag(f, u) => f !in s.life && f !in s.home && Accepts(s, u)
    case Mark(t, u) => t in s.threads && s.threads[t].phase == Idle && u in s.live
    case SetPending(t) => t in s.threads && s.threads[t].phase == Marked
    case ClearPending(t) => t in s.threads && s.threads[t].phase == Idle && s.threads[t].pending
    case Grab(t) => t in s.threads && s.threads[t].phase == Grabbing
    case Flush(t) => t in s.threads && s.threads[t].phase.Holding?
    case FlushFrags(t, fs) => t in s.threads && fs != {} && forall f :: f in fs ==> f in s.life && s.life[f] == Linked
    case DeleteLazily(f) => f in s.life && s.life[f] == Linked
    case MoveLazy(t) => t in s.threads && Lazies(s) != {}
    case Append(t) => t in s.threads && s.threads[t].phase.Stamped?
    case Enter(t, f) => t in s.threads && f in s.life && s.life[f] == Linked
    case Leave(t) => t in s.threads
    case SignOff(t) => t in s.threads && s.threads[t].at == Outside
    case Join(t) => t !in s.threads
    case Exit(t) => t in s.threads && s.threads[t].at == Outside && s.threads[t].phase == Idle
  }

  ghost function Do(s: State, x: Step): State
    requires Can(s, x)
  {
    match x
    case NewUnit(u) => s.(live := s.live + {u}, place := s.place[u := OnCache], flushes := s.flushes[u := 0])
    case NewFrag(f, u) => s.(life := s.life[f := Linked], home := s.home[f := u])
    case Mark(t, u) =>
      s.(live := s.live - {u}, toFlush := [u] + s.toFlush, threads := s.threads[t := s.threads[t].(phase := Marked)],
         place := s.place[u := ToFlush], adder := s.adder[u := t])
    case SetPending(t) => s.(threads := s.threads[t := s.threads[t].(phase := Idle, pending := true)])
    case ClearPending(t) => s.(threads := s.threads[t := s.threads[t].(phase := Grabbing, pending := false)])
    case Grab(t) =>
      if s.toFlush == [] then s.(threads := s.threads[t := s.threads[t].(phase := Idle)])
      else s.(threads := s.threads[t := s.threads[t].(phase := Holding(s.toFlush))], toFlush := [],
              place := Moved(s.place, s.toFlush, Local(t)))
    case Flush(t) => Flushed(s, t)
    case FlushFrags(_, fs) => Unlink(s, fs)
    case DeleteLazily(f) => s.(life := s.life[f := Lazy(s.time + 1)])
    case MoveLazy(_) => Unlink(s, Lazies(s))
    case Append(t) =>
      var th := s.threads[t];
      s.(toFree := s.toFree + th.phase.flushed, threads := s.threads[t := th.(phase := Idle)],
         flushtime := Stamp(s.flushtime, th.phase.flushed, th.phase.time),
         place := Moved(s.place, th.phase.flushed, ToFree))
    case Enter(t, f) => s.(threads := s.threads[t := s.threads[t].(at := Inside(f))])
    case Leave(t) => s.(threads := s.threads[t := s.threads[t].(at := Outside)])
    case SignOff(t) => Signed(s, t)
    case Join(t) => s.(threads := s.threads[t := Thread(s.time, false, Idle, Outside)])
    case Exit(t) => Signed(s, t).(threads := Signed(s, t).threads - {t})
  }

  ghost function Lazies(s: State): set<nat> {
    set f | f in s.life && s.life[f].Lazy?
  }

  function Moved(place: map<nat, Place>, us: seq<nat>, p: Place): map<nat, Place> {
    map u | u in place.Keys + (set x | x in us) :: if u in us then p else place[u]
  }

  function Stamp(flushtime: map<nat, nat>, us: seq<nat>, time: nat): map<nat, nat> {
    map u | u in flushtime.Keys + (set x | x in us) :: if u in us then time else flushtime[u]
  }

  /** The flush timestamp advances and the fragments become a batch that every thread must sign off. */
  ghost function Unlink(s: State, fs: set<nat>): State {
    s.(time := s.time + 1,
       life := map f | f in s.life :: if f in fs then Unlinked(s.time + 1) else s.life[f],
       batches := if fs == {} then s.batches else [Batch(s.time + 1, |s.threads|, fs)] + s.batches)
  }

  /** The fragments of the units that are not yet unlinked, or only lazily. */
  ghost function Resident(s: State, us: seq<nat>): set<nat> {
    set f | f in s.life && f in s.home && s.home[f] in us && (s.life[f].Linked? || s.life[f].Lazy?)
  }

  ghost function Flushed(s: State, t: nat): State
    requires t in s.threads && s.threads[t].phase.Holding?
  {
    var us := s.threads[t].phase.held;
    Unlink(s, Resident(s, us)).(
      threads := s.threads[t := s.threads[t].(phase := Stamped(us, s.time + 1))],
      flushes := map u | u in s.flushes :: if u in us then s.flushes[u] + 1 else s.flushes[u])
  }

  /** The walk over the batches newer than `last`: one less to sign off, and the complete ones leave. */
  function Remaining(b: seq<Batch>, last: nat): seq<Batch> {
    if b == [] || b[0].time <= last then b
    else (if b[0].count == 1 then [] else [b[0].(count := b[0].count - 1)]) + Remaining(b[1..], last)
  }

  function Completed(b: seq<Batch>, last: nat): seq<Batch> {
    if b == [] || b[0].time <= last then []
    else (if b[0].count == 1 then [b[0]] else []) + Completed(b[1..], last)
  }

  ghost predicate Deletable(s: State, done: seq<Batch>, f: nat) {
    && f in s.life
    && exists i :: 0 <= i < |done| && (f in done[i].frags || (s.life[f].Lazy? && s.life[f].time <= done[i].time))
  }

  /** Units flushed up to this time may be freed: nothing older waits for a thread. */
  function SafeTime(now: nat, b: seq<Batch>): int {
    if b == [] then now else b[|b| - 1].time - 1
  }

  /** How many units the sign-off frees. */
  ghost function FreeCount(s: State, t: nat): (k: nat)
    requires t in s.threads
    ensures k <= |s.toFree|
  {
    var last := s.threads[t].last;
    if Completed(s.batches, last) == [] then 0
    else Due(s.toFree, s.flushtime, SafeTime(s.time, Remaining(s.batches, last)))
  }

  ghost function Signed(s: State, t: nat): State
    requires t in s.threads
  {
    var last := s.threads[t].last;
    var done, left := Completed(s.batches, last), Remaining(s.batches, last);
    var due := FreeCount(s, t);
    s.(threads := s.threads[t := s.threads[t].(last := s.time)],
       batches := left,
       life := map f | f in s.life :: if Deletable(s, done, f) then Deleted else s.life[f],
       toFree := s.toFree[due..],
       freed := s.freed + (set u | u in s.toFree[..due]),
       place := Moved(s.place, s.toFree[..due], Freed))
  }

  // ---------------------------------------------------------------- invariants

  /** Threads that have not signed off `time`. */
  ghost function Behind(threads: map<nat, Thread>, time: nat): set<nat> {
    set t | t in threads && threads[t].last < time
  }

  ghost predicate BatchOk(s: State, i: int) {
    0 <= i < |s.batches| ==>
      && s.batches[i].time <= s.time
      && s.batches[i].count == |Behind(s.threads, s.batches[i].time)| > 0
      && (forall f :: f in s.batches[i].frags ==> f in s.life && s.life[f] == Unlinked(s.batches[i].time))
  }

  /** Each batch counts exactly the threads still behind it; batches are in order of time. */
  ghost predicate Batches(s: State) {
    && (forall t :: t in s.threads ==> s.threads[t].last <= s.time)
    && (forall i {:trigger BatchOk(s, i)} :: BatchOk(s, i))
    && (forall i, j :: 0 <= i < j < |s.batches| ==> s.batches[j].time <= s.batches[i].time)
  }

  ghost predicate InBatch(b: seq<Batch>, f: nat, time: nat) {
    exists i :: 0 <= i < |b| && b[i].time == time && f in b[i].frags
  }

  /** An unlinked fragment is in a batch of its time. */
  ghost predicate Batched(s: State) {
    forall f :: f in s.life && s.life[f].Unlinked? ==> InBatch(s.batches, f, s.life[f].time)
  }

  /** A thread inside a fragment that is no longer linked has not signed off since. */
  ghost predicate InsideOk(s: State, t: nat) {
    t in s.threads && s.threads[t].at.Inside? ==>
      && s.threads[t].at.frag in s.life
      && match s.life[s.threads[t].at.frag] {
           case Linked => true
           case Lazy(time) => s.threads[t].last < time
           case Unlinked(time) => s.threads[t].last < time
           case Deleted => false
         }
  }

  ghost predicate Insides(s: State) {
    forall t {:trigger InsideOk(s, t)} :: InsideOk(s, t)
  }

  /** Nothing in the unit is linked, and what is not deleted was unlinked by `time`. */
  ghost predicate Vacated(s: State, u: nat, time: nat) {
    forall f :: f in s.life && f in s.home && s.home[f] == u ==>
                  s.life[f] == Deleted || (s.life[f].Unlinked? && s.life[f].time <= time)
  }

  ghost predicate Vacant(s: State, u: nat) {
    forall f :: f in s.life && f in s.home && s.home[f] == u ==> s.life[f] == Deleted
  }

  ghost predicate Emptied(s: State) {
    && (forall u :: u in s.toFree ==> u in s.flushtime && Vacated(s, u, s.flushtime[u]))
    && (forall t, u :: t in s.threads && s.threads[t].phase.Stamped? && u in s.threads[t].phase.flushed ==>
                         Vacated(s, u, s.threads[t].phase.time))
    && (forall u :: u in s.freed ==> Vacant(s, u))
  }

  /** The units on thread `t`'s local list. */
  ghost function Locals(s: State, t: nat): seq<nat> {
    if t !in s.threads then [] else
      match s.threads[t].phase
      case Holding(us) => us
      case Stamped(us, _) => us
      case _ => []
  }

  ghost predicate On(s: State, u: nat, p: Place) {
    match p
    case OnCache => u in s.live
    case ToFlush => u in s.toFlush
    case Local(t) => u in Locals(s, t)
    case ToFree => u in s.toFree
    case Freed => u in s.freed
  }

  ghost predicate PlaceOk(s: State, u: nat, p: Place) {
    On(s, u, p) <==> u in s.place && s.place[u] == p
  }

  /** Every unit is in exactly one place, and at most once in a list. */
  ghost predicate Places(s: State) {
    && (forall u, p {:trigger PlaceOk(s, u, p)} :: PlaceOk(s, u, p))
    && NoRepeat(s.toFlush) && NoRepeat(s.toFree) && (forall t :: NoRepeat(Locals(s, t)))
  }

  /** A unit has been flushed once if it is past its flush, and never before. */
  ghost predicate FlushCount(s: State, u: nat) {
    u in s.place ==>
      && u in s.flushes
      && match s.place[u] {
           case OnCache => s.flushes[u] == 0
           case ToFlush => s.flushes[u] == 0
           case Local(t) => s.flushes[u] == if t in s.threads && s.threads[t].phase.Stamped? then 1 else 0
           case ToFree => s.flushes[u] == 1
           case Freed => s.flushes[u] == 1
         }
  }

  ghost predicate FlushedOnce(s: State) {
    forall u {:trigger FlushCount(s, u)} :: FlushCount(s, u)
  }

  ghost predicate Inv(s: State) {
    Batches(s) && Batched(s) && Insides(s) && Emptied(s) && Places(s) && FlushedOnce(s)
  }

  ghost predicate Init(s: State) {
    && s.batches == [] && s.life == map[] && s.home == map[] && s.toFlush == [] && s.toFree == [] && s.freed == {}
    && s.live == {} && s.place == map[]
    && forall t :: t in s.threads ==> s.threads[t] == Thread(s.time, false, Idle, Outside)
  }

  lemma InitInv(s: State)
    requires Init(s)
    ensures Inv(s)
  {
  }

  // ---------------------------------------------------------------- unlinking a batch

  lemma UnlinkBatches(s: State, fs: set<nat>)
    requires Batches(s) && forall f :: f in fs ==> f in s.life && !s.life[f].Unlinked?
    requires s.threads != map[]
    ensures Batches(Unlink(s, fs))
  {
    var w := Unlink(s, fs);
    assert Behind(s.threads, s.time + 1) == s.threads.Keys;
    forall i ensures BatchOk(w, i) {
      if fs == {} {
        assert BatchOk(s, i);
      } else if i > 0 {
        assert BatchOk(s, i - 1);
      }
    }
    forall i, j | 0 <= i < j < |w.batches| ensures w.batches[j].time <= w.batches[i].time {
      if fs != {} { assert BatchOk(s, j - 1); }
    }
  }

  lemma UnlinkBatched(s: State, fs: set<nat>)
    requires Batched(s)
    ensures Batched(Unlink(s, fs))
  {
    var w := Unlink(s, fs);
    forall f | f in w.life && w.life[f].Unlinked? ensures InBatch(w.batches, f, w.life[f].time) {
      if f in fs {
        assert f in w.batches[0].frags;
      } else {
        var i :| 0 <= i < |s.batches| && s.batches[i].time == s.life[f].time && f in s.batches[i].frags;
        assert w.batches[if fs == {} then i else i + 1] == s.batches[i];
      }
    }
  }

  lemma UnlinkInsides(s: State, fs: set<nat>)
    requires Batches(s) && Insides(s) && forall f :: f in fs && f in s.life ==> s.life[f] != Deleted
    ensures Insides(Unlink(s, fs))
  {
    forall t ensures InsideOk(Unlink(s, fs), t) {
      assert InsideOk(s, t);
    }
  }

  // ---------------------------------------------------------------- signing off

  lemma {:induction false} RemainingAt(b: seq<Batch>, last: nat, i: nat) returns (j: nat)
    requires i < |Remaining(b, last)| && forall k, m :: 0 <= k < m < |b| ==> b[m].time <= b[k].time
    ensures i <= j < |b| && Remaining(b, last)[i].time == b[j].time && Remaining(b, last)[i].frags == b[j].frags
    ensures Remaining(b, last)[i].count == if b[j].time > last then b[j].count - 1 else b[j].count
    ensures b[j].time > last ==> b[j].count != 1
  {
    if b == [] || b[0].time <= last {
      j := i;
      assert b[j].time <= b[0].time;
    } else if b[0].count == 1 {
      j := RemainingAt(b[1..], last, i);
      j := j + 1;
    } else if i == 0 {
      j := 0;
    } else {
      j := RemainingAt(b[1..], last, i - 1);
      j := j + 1;
    }
  }

  lemma {:induction false} RemainingOrder(b: seq<Batch>, last: nat)
    requires forall k, m :: 0 <= k < m < |b| ==> b[m].time <= b[k].time
    ensures var r := Remaining(b, last);
            && (forall k, m :: 0 <= k < m < |r| ==> r[m].time <= r[k].time)
            && (r != [] ==> b != [] && r[0].time <= b[0].time)
  {
    if b != [] && b[0].time > last {
      RemainingOrder(b[1..], last);
    }
  }

  /** Every batch is either completed or remains. */
  lemma {:induction false} RemainingOrCompleted(b: seq<Batch>, last: nat, j: nat)
    requires j < |b|
    ensures || (exists i :: 0 <= i < |Completed(b, last)| && Completed(b, last)[i] == b[j])
            || (exists i :: 0 <= i < |Remaining(b, last)| &&
                  Remaining(b, last)[i].time == b[j].time && Remaining(b, last)[i].frags == b[j].frags)
  {
    if b[0].time > last {
      var r, c := Remaining(b[1..], last), Completed(b[1..], last);
      if j == 0 {
        if b[0].count == 1 {
          assert Completed(b, last)[0] == b[0];
        } else {
          assert Remaining(b, last)[0].frags == b[0].frags;
        }
      } else {
        RemainingOrCompleted(b[1..], last, j - 1);
        if i :| 0 <= i < |c| && c[i] == b[j] {
          var k := if b[0].count == 1 then i + 1 else i;
          assert Completed(b, last) == (if b[0].count == 1 then [b[0]] else []) + c;
          assert 0 <= k < |Completed(b, last)| && Completed(b, last)[k] == b[j];
        } else {
          var i :| 0 <= i < |r| && r[i].time == b[j].time && r[i].frags == b[j].frags;
          assert Remaining(b, last)[if b[0].count == 1 then i else i + 1] == r[i];
        }
      }
    } else {
      assert Remaining(b, last)[j] == b[j];
    }
  }

  lemma {:induction false} CompletedAt(b: seq<Batch>, last: nat, i: nat) returns (j: nat)
    requires i < |Completed(b, last)|
    ensures j < |b| && Completed(b, last)[i] == b[j] && b[j].time > last && b[j].count == 1
  {
    if b[0].count == 1 && i == 0 {
      j := 0;
    } else {
      j := CompletedAt(b[1..], last, if b[0].count == 1 then i - 1 else i);
      j := j + 1;
    }
  }

  /** A completed batch has only the signing thread behind it. */
  lemma LastBehind(s: State, t: nat, i: nat)
    requires Batches(s) && t in s.threads && i < |Completed(s.batches, s.threads[t].last)|
    ensures Behind(s.threads, Completed(s.batches, s.threads[t].last)[i].time) == {t}
  {
    var j := CompletedAt(s.batches, s.threads[t].last, i);
    assert BatchOk(s, j);
    var b := Behind(s.threads, s.batches[j].time);
    assert t in b;
    forall x | x in b ensures x == t {
      if x != t { assert {x, t} <= b; SubsetSize({x, t}, b); }
    }
  }

  lemma SubsetSize(x: set<nat>, y: set<nat>)
    requires x <= y
    ensures |x| <= |y|
  {
    if x != {} {
      var e :| e in x;
      SubsetSize(x - {e}, y - {e});
    }
  }

  lemma SignedBatches(s: State, t: nat)
    requires Batches(s) && t in s.threads
    ensures Batches(Signed(s, t))
  {
    var w, last := Signed(s, t), s.threads[t].last;
    RemainingOrder(s.batches, last);
    forall i ensures BatchOk(w, i) {
      if 0 <= i < |w.batches| {
        var j := RemainingAt(s.batches, last, i);
        assert BatchOk(s, j);
        SignedBehind(s, t, s.batches[j].time);
        SignedKeeps(s, t, i, j);
      }
    }
  }

  lemma SignedBehind(s: State, t: nat, time: nat)
    requires t in s.threads && time <= s.time
    ensures Behind(Signed(s, t).threads, time) == Behind(s.threads, time) - {t}
    ensures |Behind(Signed(s, t).threads, time)|
              == |Behind(s.threads, time)| - if s.threads[t].last < time then 1 else 0
  {
  }

  /** The fragments of a batch that remains are not deleted. */
  lemma SignedKeeps(s: State, t: nat, i: nat, j: nat)
    requires Batches(s) && t in s.threads && i < |Remaining(s.batches, s.threads[t].last)| && j < |s.batches|
    requires Remaining(s.batches, s.threads[t].last)[i].frags == s.batches[j].frags
    requires s.batches[j].time > s.threads[t].last ==> s.batches[j].count != 1
    ensures forall f :: f in s.batches[j].frags ==> f in s.life && Signed(s, t).life[f] == Unlinked(s.batches[j].time)
  {
    var last := s.threads[t].last;
    var done := Completed(s.batches, last);
    assert BatchOk(s, j);
    forall f | f in s.batches[j].frags ensures !Deletable(s, done, f) {
      forall k | 0 <= k < |done| ensures f !in done[k].frags {
        var m := CompletedAt(s.batches, last, k);
        assert BatchOk(s, m);
      }
    }
  }

  lemma SignedBatched(s: State, t: nat)
    requires Batched(s) && t in s.threads
    ensures Batched(Signed(s, t))
  {
    var w, last := Signed(s, t), s.threads[t].last;
    forall f | f in w.life && w.life[f].Unlinked? ensures InBatch(w.batches, f, w.life[f].time) {
      var j :| 0 <= j < |s.batches| && s.batches[j].time == s.life[f].time && f in s.batches[j].frags;
      RemainingOrCompleted(s.batches, last, j);
    }
  }

  /** No thread inside a fragment is behind a completed batch, so what is deleted is not in use. */
  lemma SignedInsides(s: State, t: nat)
    requires Batches(s) && Insides(s) && t in s.threads && s.threads[t].at == Outside
    ensures Insides(Signed(s, t))
  {
    var w, done := Signed(s, t), Completed(s.batches, s.threads[t].last);
    forall x ensures InsideOk(w, x) {
      assert InsideOk(s, x);
      if x in s.threads && s.threads[x].at.Inside? {
        var f := s.threads[x].at.frag;
        forall i | 0 <= i < |done| ensures f !in done[i].frags && !(s.life[f].Lazy? && s.life[f].time <= done[i].time) {
          LastBehind(s, t, i);
          var j := CompletedAt(s.batches, s.threads[t].last, i);
          assert BatchOk(s, j);
          assert x !in Behind(s.threads, done[i].time);
        }
      }
    }
  }

  /** A unit is freed only when all its fragments are deleted. */
  lemma SignedEmptied(s: State, t: nat)
    requires Inv(s) && t in s.threads
    ensures Emptied(Signed(s, t))
  {
    var w, last := Signed(s, t), s.threads[t].last;
    var done, left := Completed(s.batches, last), Remaining(s.batches, last);
    SignedBatches(s, t);
    SignedBatched(s, t);
    if done != [] {
      var arg := SafeTime(s.time, left);
      var due := Due(s.toFree, s.flushtime, arg);
      forall u | u in s.toFree[..due] ensures Vacant(w, u) {
        var i :| 0 <= i < due && s.toFree[i] == u;
        DueVacant(s, w, u, arg);
      }
    }
    assert forall u, time :: Vacated(s, u, time) ==> Vacated(w, u, time);
    assert forall u :: Vacant(s, u) ==> Vacant(w, u);
  }

  /** Fragments still waiting for a thread were unlinked after the safe time. */
  lemma SafeIsOlder(s: State, f: nat)
    requires Batched(s) && Batches(s) && f in s.life && s.life[f].Unlinked?
    ensures SafeTime(s.time, s.batches) < s.life[f].time
  {
    var i :| 0 <= i < |s.batches| && s.batches[i].time == s.life[f].time && f in s.batches[i].frags;
    assert i < |s.batches| - 1 ==> s.batches[|s.batches| - 1].time <= s.batches[i].time;
  }

  lemma DueVacant(s: State, w: State, u: nat, arg: int)
    requires Emptied(s) && u in s.toFree && Key(s.flushtime, u) <= arg && Batched(w) && Batches(w)
    requires w.home == s.home && w.life.Keys == s.life.Keys && arg == SafeTime(s.time, w.batches) && w.time == s.time
    requires forall f :: f in s.life ==> w.life[f] == s.life[f] || w.life[f] == Deleted
    ensures Vacant(w, u)
  {
    forall f | f in w.life && f in w.home && w.home[f] == u ensures w.life[f] == Deleted {
      if w.life[f].Unlinked? { SafeIsOlder(w, f); }
    }
  }

  // ---------------------------------------------------------------- every step

  lemma StepBatches(s: State, x: Step)
    requires Inv(s) && Can(s, x)
    ensures Batches(Do(s, x)) && Batched(Do(s, x)) && Insides(Do(s, x))
  {
    hide Batches, Batched, Insides, Emptied, Places, FlushedOnce, Signed, Unlink, Flushed;
    match x {
      case Flush(t) => FlushedBatches(s, t);
      case FlushFrags(_, fs) => UnlinkAll(s, fs);
      case MoveLazy(_) => UnlinkAll(s, Lazies(s));
      case SignOff(t) => SignedAll(s, t);
      case Exit(t) =>
        SignedAll(s, t);
        LeftBatches(Signed(s, t), t);
      case Join(t) => JoinedBatches(s, t);
      case NewFrag(_, _) => FragBatches(s, Do(s, x));
      case DeleteLazily(_) => FragBatches(s, Do(s, x));
      case _ => QuietBatches(s, x);
    }
  }

  lemma QuietBatches(s: State, x: Step)
    requires Inv(s) && Can(s, x)
    requires x.NewUnit? || x.Mark? || x.SetPending? || x.ClearPending? || x.Grab? || x.Append? || x.Enter? || x.Leave?
    ensures Batches(Do(s, x)) && Batched(Do(s, x)) && Insides(Do(s, x))
  {
    hide Batches, Batched, Insides, Emptied, Places, FlushedOnce, Signed, Unlink, Flushed, Moved, Stamp, Accepts;
    if x.NewUnit? || x.Mark? || x.Grab? || x.Append? {
      SameSignatures(s, Do(s, x), if x.NewUnit? then 0 else x.t);
    } else {
      SameSignatures(s, Do(s, x), x.t);
    }
  }

  lemma FlushedBatches(s: State, t: nat)
    requires Inv(s) && t in s.threads && s.threads[t].phase.Holding?
    ensures Batches(Flushed(s, t)) && Batched(Flushed(s, t)) && Insides(Flushed(s, t))
  {
    hide Batches, Batched, Insides, Emptied, Places, FlushedOnce;
    var fs := Resident(s, s.threads[t].phase.held);
    UnlinkAll(s, fs);
    SameSignatures(Unlink(s, fs), Flushed(s, t), t);
  }

  lemma UnlinkAll(s: State, fs: set<nat>)
    requires Inv(s) && s.threads != map[]
    requires forall f :: f in fs ==> f in s.life && (s.life[f].Linked? || s.life[f].Lazy?)
    ensures Batches(Unlink(s, fs)) && Batched(Unlink(s, fs)) && Insides(Unlink(s, fs))
  {
    UnlinkBatches(s, fs);
    UnlinkBatched(s, fs);
    UnlinkInsides(s, fs);
  }

  lemma SignedAll(s: State, t: nat)
    requires Inv(s) && t in s.threads && s.threads[t].at == Outside
    ensures Batches(Signed(s, t)) && Batched(Signed(s, t)) && Insides(Signed(s, t))
    ensures t in Signed(s, t).threads && Signed(s, t).threads[t].last == Signed(s, t).time
  {
    SignedBatches(s, t);
    SignedBatched(s, t);
    SignedInsides(s, t);
  }

  /** Steps that sign nothing off and leave fragments as they are. */
  lemma SameSignatures(s: State, w: State, t: nat)
    requires Batches(s) && Batched(s) && Insides(s)
    requires w.time == s.time && w.batches == s.batches && w.life == s.life
    requires w.threads == s.threads ||
             (t in s.threads && t in w.threads && w.threads == s.threads[t := w.threads[t]] &&
              w.threads[t].last == s.threads[t].last &&
              (w.threads[t].at.Inside? && w.threads[t].at != s.threads[t].at ==>
                 w.threads[t].at.frag in w.life && w.life[w.threads[t].at.frag] == Linked))
    ensures Batches(w) && Batched(w) && Insides(w)
  {
    assert forall time :: Behind(w.threads, time) == Behind(s.threads, time);
    forall i ensures BatchOk(w, i) {
      assert BatchOk(s, i);
    }
    forall t ensures InsideOk(w, t) {
      assert InsideOk(s, t);
    }
  }

  lemma FragBatches(s: State, w: State)
    requires Batches(s) && Batched(s) && Insides(s)
    requires w.time == s.time && w.batches == s.batches && w.threads == s.threads && s.life.Keys <= w.life.Keys
    requires forall f :: f in w.life ==> if f in s.life && w.life[f] == s.life[f] then true
                                         else (f !in s.life && w.life[f] == Linked)
                                              || (f in s.life && s.life[f] == Linked && w.life[f] == Lazy(s.time + 1))
    ensures Batches(w) && Batched(w) && Insides(w)
  {
    forall i ensures BatchOk(w, i) {
      assert BatchOk(s, i);
    }
    forall t ensures InsideOk(w, t) {
      assert InsideOk(s, t);
    }
  }

  /** A new thread starts at the current time, so no batch counts it. */
  lemma JoinedBatches(s: State, t: nat)
    requires Batches(s) && Batched(s) && Insides(s) && t !in s.threads
    ensures var w := s.(threads := s.threads[t := Thread(s.time, false, Idle, Outside)]);
            Batches(w) && Batched(w) && Insides(w)
  {
    var w := s.(threads := s.threads[t := Thread(s.time, false, Idle, Outside)]);
    forall i ensures BatchOk(w, i) {
      assert BatchOk(s, i);
      if 0 <= i < |s.batches| { assert Behind(w.threads, s.batches[i].time) == Behind(s.threads, s.batches[i].time); }
    }
    forall x ensures InsideOk(w, x) {
      assert InsideOk(s, x);
    }
  }

  /** A thread that has signed off everything can go without any batch noticing. */
  lemma LeftBatches(s: State, t: nat)
    requires Batches(s) && Batched(s) && Insides(s) && t in s.threads && s.threads[t].last == s.time
    ensures var w := s.(threads := s.threads - {t}); Batches(w) && Batched(w) && Insides(w)
  {
    var w := s.(threads := s.threads - {t});
    forall i ensures BatchOk(w, i) {
      assert BatchOk(s, i);
      if 0 <= i < |s.batches| { assert Behind(w.threads, s.batches[i].time) == Behind(s.threads, s.batches[i].time); }
    }
    forall x ensures InsideOk(w, x) {
      assert InsideOk(s, x);
    }
  }

  // ---------------------------------------------------------------- units stay vacated

  lemma StepEmptied(s: State, x: Step)
    requires Inv(s) && Can(s, x)
    ensures Emptied(Do(s, x))
  {
    hide Batches, Batched, Insides, Places, FlushedOnce, Signed, Unlink, Flushed, Emptied;
    match x {
      case Flush(t) => FlushedEmptied(s, t);
      case FlushFrags(_, fs) => UnlinkEmptied(s, fs);
      case MoveLazy(_) => UnlinkEmptied(s, Lazies(s));
      case SignOff(t) => SignedEmptied(s, t);
      case Exit(t) =>
        SignedEmptied(s, t);
        SameVacancy(Signed(s, t), Do(s, x), t);
      case NewFrag(f, u) => NewFragEmptied(s, f, u);
      case Append(t) => AppendEmptied(s, t);
      case DeleteLazily(f) => LazyEmptied(s, f);
      case NewUnit(_) => HandoverEmptied(s, x);
      case Mark(_, _) => HandoverEmptied(s, x);
      case Grab(_) => HandoverEmptied(s, x);
      case _ => QuietEmptied(s, x);
    }
  }

  lemma QuietEmptied(s: State, x: Step)
    requires Emptied(s) && Can(s, x)
    requires x.SetPending? || x.ClearPending? || x.Enter? || x.Leave? || x.Join?
    ensures Emptied(Do(s, x))
  {
    hide Signed, Unlink, Flushed, Emptied, Moved, Stamp, Accepts, Lazies;
    SameVacancy(s, Do(s, x), x.t);
  }

  lemma HandoverEmptied(s: State, x: Step)
    requires Emptied(s) && Can(s, x) && (x.NewUnit? || x.Mark? || x.Grab?)
    ensures Emptied(Do(s, x))
  {
    hide Signed, Unlink, Flushed, Emptied, Moved, Stamp, Accepts, Lazies;
    SameVacancy(s, Do(s, x), if x.NewUnit? then 0 else x.t);
  }

  lemma SameVacancy(s: State, w: State, t: nat)
    requires Emptied(s) && w.life == s.life && w.home == s.home && w.toFree == s.toFree && w.freed == s.freed
    requires w.flushtime == s.flushtime
    requires w.threads == s.threads || w.threads == s.threads - {t} ||
             (t in w.threads && w.threads == s.threads[t := w.threads[t]] &&
              (w.threads[t].phase.Stamped? ==> t in s.threads && s.threads[t].phase == w.threads[t].phase))
    ensures Emptied(w)
  {
    assert forall u, time :: Vacated(s, u, time) ==> Vacated(w, u, time);
    assert forall u :: Vacant(s, u) ==> Vacant(w, u);
  }

  lemma UnlinkEmptied(s: State, fs: set<nat>)
    requires Emptied(s) && forall f :: f in fs ==> f in s.life && (s.life[f].Linked? || s.life[f].Lazy?)
    ensures Emptied(Unlink(s, fs))
  {
    var w := Unlink(s, fs);
    forall u, time | Vacated(s, u, time) ensures Vacated(w, u, time) {
    }
    forall u | Vacant(s, u) ensures Vacant(w, u) {
    }
    hide Vacated, Vacant;
  }

  lemma LazyEmptied(s: State, f: nat)
    requires Emptied(s) && f in s.life && s.life[f] == Linked
    ensures Emptied(s.(life := s.life[f := Lazy(s.time + 1)]))
  {
    var w := s.(life := s.life[f := Lazy(s.time + 1)]);
    assert forall u, time :: Vacated(s, u, time) ==> Vacated(w, u, time);
    assert forall u :: Vacant(s, u) ==> Vacant(w, u);
  }

  /** Flushing a unit leaves nothing linked in it. */
  lemma FlushedEmptied(s: State, t: nat)
    requires Inv(s) && t in s.threads && s.threads[t].phase.Holding?
    ensures Emptied(Flushed(s, t))
  {
    var us, w := s.threads[t].phase.held, Flushed(s, t);
    UnlinkEmptied(s, Resident(s, us));
    forall u | u in us ensures Vacated(w, u, s.time + 1) {
      forall f | f in w.life && f in w.home && w.home[f] == u
        ensures w.life[f] == Deleted || (w.life[f].Unlinked? && w.life[f].time <= s.time + 1)
      {
        if s.life[f].Unlinked? { UnlinkedBefore(s, f); }
      }
    }
    assert forall u, time :: Vacated(Unlink(s, Resident(s, us)), u, time) ==> Vacated(w, u, time);
    assert forall u :: Vacant(Unlink(s, Resident(s, us)), u) ==> Vacant(w, u);
  }

  lemma UnlinkedBefore(s: State, f: nat)
    requires Batches(s) && Batched(s) && f in s.life && s.life[f].Unlinked?
    ensures s.life[f].time <= s.time
  {
    var i :| 0 <= i < |s.batches| && s.batches[i].time == s.life[f].time && f in s.batches[i].frags;
    assert BatchOk(s, i);
  }

  lemma NewFragEmptied(s: State, f: nat, u: nat)
    requires Emptied(s) && Places(s) && f !in s.life && f !in s.home && Accepts(s, u)
    ensures Emptied(s.(life := s.life[f := Linked], home := s.home[f := u]))
  {
    var w := s.(life := s.life[f := Linked], home := s.home[f := u]);
    assert PlaceOk(s, u, OnCache) && PlaceOk(s, u, ToFlush) && PlaceOk(s, u, ToFree) && PlaceOk(s, u, Freed);
    if u !in s.live && u !in s.toFlush {
      var h :| h in s.threads && s.threads[h].phase.Holding? && u in s.threads[h].phase.held;
      assert PlaceOk(s, u, Local(h));
    }
    forall t | t in s.threads && s.threads[t].phase.Stamped? ensures u !in s.threads[t].phase.flushed {
      assert PlaceOk(s, u, Local(t));
    }
    assert forall x, time :: x != u && Vacated(s, x, time) ==> Vacated(w, x, time);
    assert forall x :: x != u && Vacant(s, x) ==> Vacant(w, x);
  }

  lemma AppendEmptied(s: State, t: nat)
    requires Emptied(s) && t in s.threads && s.threads[t].phase.Stamped?
    ensures Emptied(Do(s, Append(t)))
  {
    var w := Do(s, Append(t));
    assert forall u, time :: Vacated(s, u, time) ==> Vacated(w, u, time);
    assert forall u :: Vacant(s, u) ==> Vacant(w, u);
  }

  // ---------------------------------------------------------------- places

  lemma StepPlaces(s: State, x: Step)
    requires Inv(s) && Can(s, x)
    ensures Places(Do(s, x))
  {
    hide Batches, Batched, Insides, Emptied, FlushedOnce, Signed, Unlink, Flushed, Places, Moved;
    match x {
      case NewUnit(u) => NewUnitPlaces(s, u);
      case Mark(t, u) => MarkPlaces(s, t, u);
      case Grab(t) => GrabPlaces(s, t);
      case Append(t) => AppendPlaces(s, t);
      case SignOff(t) => SignedPlaces(s, t);
      case Exit(t) =>
        SignedPlaces(s, t);
        SamePlaces(Signed(s, t), Do(s, x));
      case Flush(t) => FlushedPlaces(s, t);
      case FlushFrags(_, fs) => UnlinkPlaces(s, fs);
      case MoveLazy(_) => UnlinkPlaces(s, Lazies(s));
      case _ => SamePlaces(s, Do(s, x));
    }
  }

  lemma SamePlaces(s: State, w: State)
    requires Places(s) && w.live == s.live && w.toFlush == s.toFlush && w.toFree == s.toFree && w.freed == s.freed
    requires w.place == s.place
    requires forall t :: Locals(w, t) == Locals(s, t)
    ensures Places(w)
  {
    forall u, p ensures PlaceOk(w, u, p) {
      assert PlaceOk(s, u, p);
    }
  }

  lemma UnlinkPlaces(s: State, fs: set<nat>)
    requires Places(s)
    ensures Places(Unlink(s, fs))
  {
    SamePlaces(s, Unlink(s, fs));
  }

  lemma FlushedPlaces(s: State, t: nat)
    requires Places(s) && t in s.threads && s.threads[t].phase.Holding?
    ensures Places(Flushed(s, t))
  {
    SamePlaces(s, Flushed(s, t));
  }

  lemma NewUnitPlaces(s: State, u: nat)
    requires Places(s) && u !in s.place
    ensures Places(Do(s, NewUnit(u)))
  {
    var w := Do(s, NewUnit(u));
    forall x, p ensures PlaceOk(w, x, p) {
      assert PlaceOk(s, x, p);
    }
    forall t ensures NoRepeat(Locals(w, t)) {
      assert NoRepeat(Locals(s, t));
    }
  }

  lemma MarkPlaces(s: State, t: nat, u: nat)
    requires Places(s) && Can(s, Mark(t, u))
    ensures Places(Do(s, Mark(t, u)))
  {
    var w := Do(s, Mark(t, u));
    assert PlaceOk(s, u, OnCache) && PlaceOk(s, u, ToFlush);
    forall x, p ensures PlaceOk(w, x, p) {
      assert PlaceOk(s, x, p);
    }
    forall i, j | 0 <= i < j < |w.toFlush| ensures w.toFlush[i] != w.toFlush[j] {
      if i == 0 { assert s.toFlush[j - 1] in s.toFlush; }
    }
    forall x ensures NoRepeat(Locals(w, x)) {
      assert NoRepeat(Locals(s, x));
    }
  }

  lemma GrabPlaces(s: State, t: nat)
    requires Places(s) && Can(s, Grab(t))
    ensures Places(Do(s, Grab(t)))
  {
    var w := Do(s, Grab(t));
    if s.toFlush == [] {
      SamePlaces(s, w);
    } else {
      TakenPlaces(s, w, t);
    }
  }

  lemma TakenPlaces(s: State, w: State, t: nat)
    requires Places(s) && w.live == s.live && w.toFlush == [] && w.toFree == s.toFree && w.freed == s.freed
    requires w.place == Moved(s.place, s.toFlush, Local(t))
    requires Locals(s, t) == [] && Locals(w, t) == s.toFlush && forall x :: x != t ==> Locals(w, x) == Locals(s, x)
    ensures Places(w)
  {
    hide Locals;
    forall u, p ensures PlaceOk(w, u, p) {
      assert PlaceOk(s, u, p) && PlaceOk(s, u, ToFlush) && PlaceOk(s, u, Local(t));
    }
    forall x ensures NoRepeat(Locals(w, x)) {
      assert NoRepeat(Locals(s, x));
    }
  }

  lemma AppendPlaces(s: State, t: nat)
    requires Places(s) && Can(s, Append(t))
    ensures Places(Do(s, Append(t)))
  {
    var w, us := Do(s, Append(t)), s.threads[t].phase.flushed;
    assert us == Locals(s, t);
    forall u, p ensures PlaceOk(w, u, p) {
      assert PlaceOk(s, u, p) && PlaceOk(s, u, Local(t)) && PlaceOk(s, u, ToFree);
    }
    forall x ensures NoRepeat(Locals(w, x)) {
      assert NoRepeat(Locals(s, x));
    }
    forall i, j | 0 <= i < j < |w.toFree| ensures w.toFree[i] != w.toFree[j] {
      assert NoRepeat(Locals(s, t));
      if i < |s.toFree| <= j {
        assert s.toFree[i] in s.toFree && us[j - |s.toFree|] in us;
        assert PlaceOk(s, s.toFree[i], Local(t)) && PlaceOk(s, s.toFree[i], ToFree);
      }
    }
  }

  lemma SignedPlaces(s: State, t: nat)
    requires Places(s) && t in s.threads
    ensures Places(Signed(s, t)) && (forall x :: Locals(Signed(s, t), x) == Locals(s, x))
  {
    forall x ensures Locals(Signed(s, t), x) == Locals(s, x) {
    }
    FreePlaces(s, Signed(s, t), FreeCount(s, t));
  }

  lemma FreePlaces(s: State, w: State, k: nat)
    requires Places(s) && k <= |s.toFree| && w.live == s.live && w.toFlush == s.toFlush
    requires forall t :: Locals(w, t) == Locals(s, t)
    requires w.toFree == s.toFree[k..] && w.freed == s.freed + (set u | u in s.toFree[..k])
    requires w.place == Moved(s.place, s.toFree[..k], Freed)
    ensures Places(w)
  {
    assert s.toFree == s.toFree[..k] + s.toFree[k..];
    forall u | u in s.toFree[..k] ensures u !in s.toFree[k..] {
      var i :| 0 <= i < k && s.toFree[i] == u;
      forall j | k <= j < |s.toFree| ensures s.toFree[j] != u {
      }
    }
    forall u, p ensures PlaceOk(w, u, p) {
      assert PlaceOk(s, u, p) && PlaceOk(s, u, ToFree) && PlaceOk(s, u, Freed);
      assert p.Local? ==> (On(w, u, p) <==> On(s, u, p));
      hide Locals;
    }
  }

  // ---------------------------------------------------------------- flushed exactly once

  lemma StepFlushedOnce(s: State, x: Step)
    requires Inv(s) && Can(s, x)
    ensures FlushedOnce(Do(s, x))
  {
    hide Batches, Batched, Insides, Emptied, FlushedOnce, Signed, Unlink, Flushed, Places, Moved;
    match x {
      case NewUnit(u) => NewUnitOnce(s, u);
      case Mark(t, u) => MarkOnce(s, t, u);
      case Grab(t) => GrabOnce(s, t);
      case Append(t) => AppendOnce(s, t);
      case SignOff(t) => SignedOnce(s, t);
      case Exit(t) =>
        SignedOnce(s, t);
        SignedPhases(s, t);
        ExitOnce(Signed(s, t), t);
      case Flush(t) => FlushedFlushedOnce(s, t);
      case FlushFrags(_, fs) => UnlinkOnce(s, fs);
      case MoveLazy(_) => UnlinkOnce(s, Lazies(s));
      case _ => SameOnce(s, Do(s, x));
    }
  }

  ghost predicate InFlush(s: State, t: nat) {
    t in s.threads && s.threads[t].phase.Stamped?
  }

  lemma SameOnce(s: State, w: State)
    requires FlushedOnce(s) && w.place == s.place && w.flushes == s.flushes
    requires forall t :: InFlush(w, t) <==> InFlush(s, t)
    ensures FlushedOnce(w)
  {
    forall u ensures FlushCount(w, u) {
      assert FlushCount(s, u);
      if u in s.place && s.place[u].Local? {
        assert InFlush(w, s.place[u].thread) <==> InFlush(s, s.place[u].thread);
      }
    }
  }

  lemma UnlinkOnce(s: State, fs: set<nat>)
    requires FlushedOnce(s)
    ensures FlushedOnce(Unlink(s, fs))
  {
    SameOnce(s, Unlink(s, fs));
  }

  lemma NewUnitOnce(s: State, u: nat)
    requires FlushedOnce(s) && u !in s.place
    ensures FlushedOnce(Do(s, NewUnit(u)))
  {
    forall x ensures FlushCount(Do(s, NewUnit(u)), x) {
      assert FlushCount(s, x);
    }
  }

  lemma MarkOnce(s: State, t: nat, u: nat)
    requires FlushedOnce(s) && Places(s) && Can(s, Mark(t, u))
    ensures FlushedOnce(Do(s, Mark(t, u)))
  {
    assert PlaceOk(s, u, OnCache);
    forall x ensures FlushCount(Do(s, Mark(t, u)), x) {
      assert FlushCount(s, x);
    }
  }

  lemma GrabOnce(s: State, t: nat)
    requires FlushedOnce(s) && Places(s) && Can(s, Grab(t))
    ensures FlushedOnce(Do(s, Grab(t)))
  {
    forall u ensures FlushCount(Do(s, Grab(t)), u) {
      assert FlushCount(s, u) && PlaceOk(s, u, ToFlush) && PlaceOk(s, u, Local(t));
    }
  }

  lemma AppendOnce(s: State, t: nat)
    requires FlushedOnce(s) && Places(s) && Can(s, Append(t))
    ensures FlushedOnce(Do(s, Append(t)))
  {
    forall u ensures FlushCount(Do(s, Append(t)), u) {
      assert FlushCount(s, u) && PlaceOk(s, u, Local(t));
    }
  }

  lemma FlushedFlushedOnce(s: State, t: nat)
    requires FlushedOnce(s) && Places(s) && t in s.threads && s.threads[t].phase.Holding?
    ensures FlushedOnce(Flushed(s, t))
  {
    forall u ensures FlushCount(Flushed(s, t), u) {
      assert FlushCount(s, u) && PlaceOk(s, u, Local(t));
    }
  }

  lemma SignedOnce(s: State, t: nat)
    requires FlushedOnce(s) && Places(s) && t in s.threads
    ensures FlushedOnce(Signed(s, t))
  {
    var w, k := Signed(s, t), FreeCount(s, t);
    forall u ensures FlushCount(w, u) {
      assert FlushCount(s, u) && PlaceOk(s, u, ToFree);
      assert u in s.toFree[..k] ==> u in s.toFree;
    }
  }

  lemma SignedPhases(s: State, t: nat)
    requires Places(s) && t in s.threads
    ensures Places(Signed(s, t)) && Signed(s, t).threads.Keys == s.threads.Keys
    ensures forall x :: x in s.threads ==> Signed(s, t).threads[x].phase == s.threads[x].phase
  {
    SignedPlaces(s, t);
  }

  lemma ExitOnce(s: State, t: nat)
    requires FlushedOnce(s) && Places(s) && t in s.threads && s.threads[t].phase == Idle
    ensures FlushedOnce(s.(threads := s.threads - {t}))
  {
    var w := s.(threads := s.threads - {t});
    SameOnce(s, w);
  }

  // ---------------------------------------------------------------- runs

  lemma StepInv(s: State, x: Step)
    requires Inv(s) && Can(s, x)
    ensures Inv(Do(s, x))
  {
    hide Batches, Batched, Insides, Emptied, FlushedOnce, Places, Do, Can;
    StepBatches(s, x);
    StepEmptied(s, x);
    StepPlaces(s, x);
    StepFlushedOnce(s, x);
  }

  ghost predicate StepOk(run: seq<State>, steps: seq<Step>, i: int)
    requires |run| == |steps| + 1
  {
    0 <= i < |steps| ==> Can(run[i], steps[i]) && run[i + 1] == Do(run[i], steps[i])
  }

  /** A run from an initial state, by any interleaving of the threads' steps. */
  ghost predicate Run(run: seq<State>, steps: seq<Step>) {
    && |run| == |steps| + 1 && Init(run[0])
    && forall i {:trigger StepOk(run, steps, i)} :: StepOk(run, steps, i)
  }

  lemma RunStep(run: seq<State>, steps: seq<Step>, i: nat)
    requires Run(run, steps) && i < |steps|
    ensures i + 1 < |run| && Can(run[i], steps[i]) && run[i + 1] == Do(run[i], steps[i])
  {
    hide Can, Do, Init;
    assert StepOk(run, steps, i);
  }

  lemma {:induction false} RunInv(run: seq<State>, steps: seq<Step>, i: nat)
    requires Run(run, steps) && i < |run|
    ensures Inv(run[i])
  {
    if i == 0 {
      InitInv(run[0]);
    } else {
      hide Can, Do;
      RunInv(run, steps, i - 1);
      RunStep(run, steps, i - 1);
      StepInv(run[i - 1], steps[i - 1]);
    }
  }

  /** Where a step leaves thread `t`, which was at `at`. */
  function NextAt(x: Step, t: nat, at: Where): Where {
    match x
    case Enter(y, f) => if y == t then Inside(f) else at
    case Leave(y) => if y == t then Outside else at
    case Join(y) => if y == t then Outside else at
    case _ => at
  }

  /** Where thread `t` is after the first `n` steps: in the fragment it entered last, unless it has left since. */
  function LastAt(steps: seq<Step>, t: nat, n: nat): Where
    requires n <= |steps|
  {
    if n == 0 then Outside else NextAt(steps[n - 1], t, LastAt(steps, t, n - 1))
  }

  /** One step moves no thread but the one that enters, leaves or joins. */
  lemma StepMoves(s: State, x: Step, t: nat)
    requires Can(s, x) && t in Do(s, x).threads
    ensures t in s.threads || x == Join(t)
    ensures Do(s, x).threads[t].at == NextAt(x, t, if t in s.threads then s.threads[t].at else Outside)
  {
    hide Moved, Stamp, Accepts, Signed, Flushed, Unlink;
    match x {
      case Flush(y) => FlushedMoves(s, y, t);
      case FlushFrags(_, fs) => UnlinkMoves(s, fs);
      case MoveLazy(_) => UnlinkMoves(s, Lazies(s));
      case SignOff(y) => SignedMoves(s, y, t);
      case Exit(y) => SignedMoves(s, y, t);
      case Enter(_, _) =>
      case Leave(_) =>
      case Join(_) =>
      case _ => QuietMoves(s, x, t);
    }
  }

  lemma QuietMoves(s: State, x: Step, t: nat)
    requires Can(s, x) && t in Do(s, x).threads
    requires x.NewUnit? || x.NewFrag? || x.Mark? || x.SetPending? || x.ClearPending? || x.Grab? || x.DeleteLazily? ||
             x.Append?
    ensures t in s.threads && Do(s, x).threads[t].at == s.threads[t].at
  {
    hide Moved, Stamp, Accepts, Signed, Flushed, Unlink;
  }

  lemma UnlinkMoves(s: State, fs: set<nat>)
    ensures Unlink(s, fs).threads == s.threads
    ensures Unlink(s, fs).life.Keys == s.life.Keys && Unlink(s, fs).home == s.home
  {
  }

  lemma FlushedMoves(s: State, y: nat, t: nat)
    requires y in s.threads && s.threads[y].phase.Holding?
    ensures Flushed(s, y).threads.Keys == s.threads.Keys
    ensures t in s.threads ==> Flushed(s, y).threads[t].at == s.threads[t].at
    ensures Flushed(s, y).life.Keys == s.life.Keys && Flushed(s, y).home == s.home
  {
  }

  lemma SignedMoves(s: State, y: nat, t: nat)
    requires y in s.threads
    ensures Signed(s, y).threads.Keys == s.threads.Keys
    ensures t in s.threads ==> Signed(s, y).threads[t].at == s.threads[t].at
    ensures Signed(s, y).life.Keys == s.life.Keys && Signed(s, y).home == s.home
  {
  }

  lemma {:induction false} AtLast(run: seq<State>, steps: seq<Step>, n: nat, t: nat)
    requires Run(run, steps) && n < |run| && t in run[n].threads
    ensures run[n].threads[t].at == LastAt(steps, t, n)
  {
    hide Can, Do;
    if n > 0 {
      RunStep(run, steps, n - 1);
      StepMoves(run[n - 1], steps[n - 1], t);
      if t in run[n - 1].threads { AtLast(run, steps, n - 1, t); }
    }
  }

  lemma {:induction false} Housed(run: seq<State>, steps: seq<Step>, n: nat)
    requires Run(run, steps) && n < |run|
    ensures run[n].life.Keys == run[n].home.Keys
  {
    if n > 0 {
      hide Can, Do;
      Housed(run, steps, n - 1);
      RunStep(run, steps, n - 1);
      StepHouses(run[n - 1], steps[n - 1]);
    }
  }

  lemma StepHouses(s: State, x: Step)
    requires Can(s, x) && s.life.Keys == s.home.Keys
    ensures Do(s, x).life.Keys == Do(s, x).home.Keys
  {
    hide Moved, Stamp, Accepts, Signed, Flushed, Unlink;
    match x {
      case Flush(t) => FlushedMoves(s, t, t);
      case FlushFrags(_, fs) => UnlinkMoves(s, fs);
      case MoveLazy(_) => UnlinkMoves(s, Lazies(s));
      case SignOff(t) => SignedMoves(s, t, t);
      case Exit(t) => SignedMoves(s, t, t);
      case _ =>
    }
  }

  /** At no time of any run is a thread in, or about to enter, a deleted fragment or a freed unit. */
  lemma NoUseAfterFree(run: seq<State>, steps: seq<Step>, i: nat, t: nat)
    requires Run(run, steps) && i < |run| && t in run[i].threads && LastAt(steps, t, i).Inside?
    ensures var f := LastAt(steps, t, i).frag;
            && f in run[i].life && run[i].life[f] != Deleted
            && f in run[i].home && run[i].home[f] !in run[i].freed
  {
    hide Can, Do;
    AtLast(run, steps, i, t);
    RunInv(run, steps, i);
    Housed(run, steps, i);
    assert InsideOk(run[i], t);
  }

  /**
   At all times every unit is in exactly one place, and it has been flushed once when it is past
   its flush, else never.
   */
  lemma ExactlyOnePlace(run: seq<State>, steps: seq<Step>, i: nat, u: nat)
    requires Run(run, steps) && i < |run| && u in run[i].place
    ensures forall p :: On(run[i], u, p) <==> p == run[i].place[u]
    ensures u in run[i].flushes
    ensures run[i].flushes[u] == match run[i].place[u]
                                 case OnCache => 0
                                 case ToFlush => 0
                                 case Local(t) => if InFlush(run[i], t) then 1 else 0
                                 case ToFree => 1
                                 case Freed => 1
  {
    RunInv(run, steps, i);
    assert FlushCount(run[i], u);
    forall p ensures On(run[i], u, p) <==> p == run[i].place[u] {
      assert PlaceOk(run[i], u, p);
    }
  }

  /** A unit that exists keeps existing. */
  lemma {:induction false} NeverLost(run: seq<State>, steps: seq<Step>, i: nat, j: nat, u: nat)
    requires Run(run, steps) && i <= j < |run| && u in run[i].place
    ensures u in run[j].place
  {
    if i < j {
      NeverLost(run, steps, i, j - 1, u);
      RunStep(run, steps, j - 1);
      hide Run, Can, Do;
      StepKeeps(run[j - 1], steps[j - 1], u);
    }
  }

  lemma StepKeeps(s: State, x: Step, u: nat)
    requires Can(s, x) && u in s.place
    ensures u in Do(s, x).place
  {
    hide Stamp, Resident, Accepts, Signed, Flushed;
    match x {
      case Flush(t) => FlushedKeeps(s, t);
      case SignOff(t) => SignedKeepsPlace(s, t);
      case Exit(t) => SignedKeepsPlace(s, t);
      case _ =>
    }
  }

  lemma FlushedKeeps(s: State, t: nat)
    requires t in s.threads && s.threads[t].phase.Holding?
    ensures s.place.Keys <= Flushed(s, t).place.Keys
  {
  }

  lemma SignedKeepsPlace(s: State, t: nat)
    requires t in s.threads
    ensures s.place.Keys <= Signed(s, t).place.Keys
  {
  }

  /** What a sign-off frees was flushed, and no older batch waits for a thread. */
  lemma FreedWhenSafe(s: State, t: nat, u: nat)
    requires Inv(s) && t in s.threads && s.threads[t].at == Outside && u in Signed(s, t).freed && u !in s.freed
    ensures u in s.toFree && u in s.flushtime
    ensures forall b :: b in Signed(s, t).batches ==> s.flushtime[u] < b.time
  {
    var w, k := Signed(s, t), FreeCount(s, t);
    assert u in s.toFree[..k];
    var i :| 0 <= i < k && s.toFree[i] == u;
    SignedBatches(s, t);
    forall b | b in w.batches ensures s.flushtime[u] < b.time {
      var j :| 0 <= j < |w.batches| && w.batches[j] == b;
      assert j < |w.batches| - 1 ==> w.batches[|w.batches| - 1].time <= b.time;
    }
  }

  /** Thread `t` is the only one that has yet to sign off batch `i`. */
  ghost predicate Awaits(s: State, t: nat, i: int) {
    0 <= i < |s.batches| && Behind(s.threads, s.batches[i].time) == {t}
  }

  lemma {:induction false} CompletedHas(b: seq<Batch>, last: nat, j: nat)
    requires j < |b| && b[j].time > last && b[j].count == 1
    requires forall k, m :: 0 <= k < m < |b| ==> b[m].time <= b[k].time
    ensures b[j] in Completed(b, last)
  {
    assert b[0].time > last;
    if j > 0 { CompletedHas(b[1..], last, j - 1); }
  }

  /** The batches a sign-off completes are those that wait for nobody else. */
  lemma CompletesAwaited(s: State, t: nat, j: nat)
    requires Batches(s) && t in s.threads && j < |s.batches|
    ensures s.batches[j] in Completed(s.batches, s.threads[t].last) <==> Awaits(s, t, j)
  {
    var b, done := s.batches[j], Completed(s.batches, s.threads[t].last);
    assert BatchOk(s, j);
    if b in done {
      var i :| 0 <= i < |done| && done[i] == b;
      LastBehind(s, t, i);
    } else if Awaits(s, t, j) {
      assert t in Behind(s.threads, b.time);
      CompletedHas(s.batches, s.threads[t].last, j);
    }
  }

  /** Nothing that waits for a thread is as old as the flush of unit `u`. */
  ghost predicate SafeToFree(s: State, w: State, u: nat) {
    u in s.flushtime && s.flushtime[u] <= s.time && forall b :: b in w.batches ==> s.flushtime[u] < b.time
  }

  /** A sign-off that completes a batch frees every unit up to the first that is not safe to free; others free none. */
  lemma FreesAllSafe(s: State, t: nat) returns (k: nat)
    requires Inv(s) && t in s.threads
    ensures var w := Signed(s, t);
            && k <= |s.toFree| && w.toFree == s.toFree[k..] && w.freed == s.freed + (set u | u in s.toFree[..k])
            && ((exists j :: Awaits(s, t, j)) ==>
                  && (forall i :: 0 <= i < k ==> SafeToFree(s, w, s.toFree[i]))
                  && (k < |s.toFree| ==> !SafeToFree(s, w, s.toFree[k])))
            && ((forall j :: !Awaits(s, t, j)) ==> k == 0)
  {
    var w, done := Signed(s, t), Completed(s.batches, s.threads[t].last);
    k := FreeCount(s, t);
    SignedBatches(s, t);
    if j :| Awaits(s, t, j) {
      CompletesAwaited(s, t, j);
      forall i | 0 <= i < |s.toFree| && i <= k ensures SafeToFree(s, w, s.toFree[i]) <==> i < k {
        SafeByTime(s, w, s.toFree[i]);
      }
    } else if done != [] {
      var i := CompletedAt(s.batches, s.threads[t].last, 0);
      CompletesAwaited(s, t, i);
    }
  }

  lemma SafeByTime(s: State, w: State, u: nat)
    requires Batches(w) && w.time == s.time && u in s.toFree && Emptied(s)
    ensures SafeToFree(s, w, u) <==> Key(s.flushtime, u) <= SafeTime(s.time, w.batches)
  {
    if w.batches != [] {
      var last := |w.batches| - 1;
      assert BatchOk(w, last) && w.batches[last] in w.batches;
      forall b | b in w.batches ensures w.batches[last].time <= b.time {
        var j :| 0 <= j < |w.batches| && w.batches[j] == b;
      }
    }
  }

  /**
   A batch leaves exactly when its last thread signs it off, and then its fragments, and those
   lazily deleted no later, are exactly what is deleted.
   */
  lemma DeletesAllSafe(s: State, t: nat, f: nat)
    requires Inv(s) && t in s.threads && f in s.life
    ensures Signed(s, t).life[f] == Deleted <==>
              || s.life[f] == Deleted
              || exists j :: Awaits(s, t, j) && (f in s.batches[j].frags ||
                                                 (s.life[f].Lazy? && s.life[f].time <= s.batches[j].time))
    ensures forall j :: 0 <= j < |s.batches| ==> (Awaits(s, t, j) <==>
              forall b :: b in Signed(s, t).batches ==> b.time != s.batches[j].time)
  {
    var done := Completed(s.batches, s.threads[t].last);
    if i :| 0 <= i < |done| && (f in done[i].frags || (s.life[f].Lazy? && s.life[f].time <= done[i].time)) {
      var j := CompletedAt(s.batches, s.threads[t].last, i);
      CompletesAwaited(s, t, j);
      assert Awaits(s, t, j);
    }
    if j :| Awaits(s, t, j) && (f in s.batches[j].frags || (s.life[f].Lazy? && s.life[f].time <= s.batches[j].time)) {
      CompletesAwaited(s, t, j);
    }
    forall j | 0 <= j < |s.batches|
      ensures Awaits(s, t, j) <==> forall b :: b in Signed(s, t).batches ==> b.time != s.batches[j].time
    {
      BatchLeaves(s, t, j);
    }
  }

  lemma BatchLeaves(s: State, t: nat, j: nat)
    requires Inv(s) && t in s.threads && j < |s.batches|
    ensures Awaits(s, t, j) <==> forall b :: b in Signed(s, t).batches ==> b.time != s.batches[j].time
  {
    var w := Signed(s, t);
    if Awaits(s, t, j) {
      AwaitedLeaves(s, t, j);
    } else {
      CompletesAwaited(s, t, j);
      RemainingOrCompleted(s.batches, s.threads[t].last, j);
      var i :| 0 <= i < |w.batches| && w.batches[i].time == s.batches[j].time;
      assert w.batches[i] in w.batches;
    }
  }

  lemma AwaitedLeaves(s: State, t: nat, j: nat)
    requires Batches(s) && t in s.threads && Awaits(s, t, j)
    ensures forall b :: b in Signed(s, t).batches ==> b.time != s.batches[j].time
  {
    hide Remaining, Completed, Deletable, Moved;
    var w, time := Signed(s, t), s.batches[j].time;
    assert BatchOk(s, j);
    SignedBatches(s, t);
    SignedBehind(s, t, time);
    assert t in Behind(s.threads, time);
    forall i | 0 <= i < |w.batches| ensures w.batches[i].time != time {
      assert BatchOk(w, i);
    }
  }

  /** A fragment that waits to be deleted waits for a thread that ran before it was unlinked. */
  lemma WaitsForSomeone(s: State, f: nat) returns (t: nat)
    requires Inv(s) && f in s.life && s.life[f].Unlinked?
    ensures t in s.threads && s.threads[t].last < s.life[f].time
  {
    var i :| 0 <= i < |s.batches| && s.batches[i].time == s.life[f].time && f in s.batches[i].frags;
    assert BatchOk(s, i);
    t :| t in Behind(s.threads, s.batches[i].time);
  }

  /** How far a fragment's life has gone. */
  function Age(l: Life): nat {
    match l
    case Linked => 0
    case Lazy(_) => 1
    case Unlinked(_) => 2
    case Deleted => 3
  }

  ghost predicate Older(s: State, w: State, f: nat) {
    f in s.life ==> f in w.life && Age(s.life[f]) <= Age(w.life[f])
  }

  lemma StepAges(s: State, x: Step, f: nat)
    requires Can(s, x)
    ensures Older(s, Do(s, x), f)
  {
    hide Remaining, Completed, Moved, Stamp, Accepts, Deletable, FreeCount;
    match x {
      case Exit(t) => assert Older(s, Signed(s, t), f);
      case _ =>
    }
  }

  lemma {:induction false} RunAges(run: seq<State>, steps: seq<Step>, i: nat, j: nat, f: nat)
    requires Run(run, steps) && i <= j < |run|
    ensures Older(run[i], run[j], f)
  {
    hide Can, Do, Init;
    if i < j {
      RunAges(run, steps, i, j - 1, f);
      RunStep(run, steps, j - 1);
      StepAges(run[j - 1], steps[j - 1], f);
    }
  }

  /** The step flushes fragment `f`: alone, with others, or with its unit. */
  ghost predicate Flushes(s: State, x: Step, f: nat) {
    match x
    case FlushFrags(_, fs) => f in fs
    case DeleteLazily(g) => g == f
    case Flush(t) => t in s.threads && s.threads[t].phase.Holding? && f in s.life && f in s.home &&
                     s.home[f] in s.threads[t].phase.held
    case _ => false
  }

  /** No thread enters a fragment after it was flushed. */
  lemma NeverEnteredAgain(run: seq<State>, steps: seq<Step>, i: nat, k: nat, f: nat)
    requires Run(run, steps) && i < k < |steps| && Flushes(run[i], steps[i], f)
    ensures !(steps[k].Enter? && steps[k].frag == f)
  {
    hide Do, Init, Flushes;
    RunStep(run, steps, i);
    RunStep(run, steps, k);
    FlushAges(run[i], steps[i], f);
    RunAges(run, steps, i + 1, k, f);
  }

  lemma FlushAges(s: State, x: Step, f: nat)
    requires Can(s, x) && Flushes(s, x, f)
    ensures f in Do(s, x).life && Age(Do(s, x).life[f]) > 0
  {
    hide Remaining, Completed, Moved, Stamp, Accepts, Signed;
  }

  /** Moving the lazily deleted fragments leaves none, and each now waits for every thread. */
  lemma LaziesWait(s: State, t: nat, f: nat)
    requires Inv(s) && Can(s, MoveLazy(t)) && f in s.life && s.life[f].Lazy?
    ensures var w := Do(s, MoveLazy(t));
            && (forall g :: g in w.life ==> !w.life[g].Lazy?)
            && InBatch(w.batches, f, w.time) && Behind(w.threads, w.time) == w.threads.Keys
  {
    hide Emptied, Places, FlushedOnce, Insides, Batched;
    var w := Do(s, MoveLazy(t));
    assert w.batches[0].time == w.time && f in w.batches[0].frags;
  }

  // ---------------------------------------------------------------- who flushes

  /** The thread will look at the units to flush before it does anything else in the cache. */
  predicate Committed(th: Thread) {
    th.pending || th.phase == Marked || th.phase == Grabbing
  }

  ghost predicate AdderOk(s: State, u: nat) {
    u in s.toFlush ==> u in s.adder && s.adder[u] in s.threads && Committed(s.threads[s.adder[u]])
  }

  ghost predicate Adders(s: State) {
    forall u {:trigger AdderOk(s, u)} :: AdderOk(s, u)
  }

  /** Every unit to flush has a thread that will see to it, unless that thread exits first. */
  lemma StepAdders(s: State, x: Step)
    requires Inv(s) && Can(s, x) && Adders(s)
    ensures Adders(Do(s, x)) <==> !(x.Exit? && exists u :: u in s.toFlush && u in s.adder && s.adder[u] == x.t)
  {
    hide Inv, Signed, Unlink, Flushed, Moved, Stamp;
    var w := Do(s, x);
    match x {
      case Exit(t) => ExitAdders(s, t);
      case SignOff(t) => SignedAdders(s, t);
      case Flush(t) => FlushedAdders(s, t);
      case FlushFrags(_, fs) => UnlinkAdders(s, fs);
      case MoveLazy(_) => UnlinkAdders(s, Lazies(s));
      case Mark(t, u) => ThreadAdders(s, w, t, u);
      case Grab(t) => ThreadAdders(s, w, t, 0);
      case SetPending(t) => ThreadAdders(s, w, t, 0);
      case ClearPending(t) => ThreadAdders(s, w, t, 0);
      case Append(t) => ThreadAdders(s, w, t, 0);
      case Enter(t, _) => ThreadAdders(s, w, t, 0);
      case Leave(t) => ThreadAdders(s, w, t, 0);
      case Join(t) => SameAdders(s, w);
      case _ => SameAdders(s, w);
    }
  }

  lemma SameAdders(s: State, w: State)
    requires Adders(s) && w.toFlush == s.toFlush && w.adder == s.adder
    requires forall t :: t in s.threads ==> t in w.threads && (Committed(s.threads[t]) ==> Committed(w.threads[t]))
    ensures Adders(w)
  {
    forall u ensures AdderOk(w, u) {
      assert AdderOk(s, u);
    }
  }

  /** One thread changes; it stays committed unless nothing is left to flush. */
  lemma ThreadAdders(s: State, w: State, t: nat, added: nat)
    requires Adders(s) && t in s.threads && t in w.threads && w.threads == s.threads[t := w.threads[t]]
    requires w.toFlush == [] || (Committed(s.threads[t]) ==> Committed(w.threads[t]))
    requires w.toFlush == [] || (w.toFlush == s.toFlush && w.adder == s.adder) ||
             (w.toFlush == [added] + s.toFlush && w.adder == s.adder[added := t] && Committed(w.threads[t]))
    ensures Adders(w)
  {
    forall u ensures AdderOk(w, u) {
      assert AdderOk(s, u);
    }
  }

  lemma UnlinkAdders(s: State, fs: set<nat>)
    requires Adders(s)
    ensures Adders(Unlink(s, fs))
  {
    SameAdders(s, Unlink(s, fs));
  }

  lemma FlushedAdders(s: State, t: nat)
    requires Adders(s) && t in s.threads && s.threads[t].phase.Holding?
    ensures Adders(Flushed(s, t))
  {
    SameAdders(s, Flushed(s, t));
  }

  lemma SignedAdders(s: State, t: nat)
    requires Adders(s) && t in s.threads
    ensures Adders(Signed(s, t)) && Signed(s, t).toFlush == s.toFlush && Signed(s, t).adder == s.adder
  {
    SameAdders(s, Signed(s, t));
  }

  lemma ExitAdders(s: State, t: nat)
    requires Adders(s) && Can(s, Exit(t))
    ensures Adders(Do(s, Exit(t))) <==> !exists u :: u in s.toFlush && u in s.adder && s.adder[u] == t
  {
    hide Signed;
    SignedAdders(s, t);
    var w := Do(s, Exit(t));
    if u :| u in s.toFlush && u in s.adder && s.adder[u] == t {
      assert !AdderOk(w, u);
    } else {
      forall u ensures AdderOk(w, u) {
        assert AdderOk(Signed(s, t), u);
      }
    }
  }

  /** In a run where no thread exits with its flag set, every unit to flush always has its thread. */
  lemma {:induction false} RunAdders(run: seq<State>, steps: seq<Step>, i: nat)
    requires Run(run, steps) && i < |run|
    requires forall j :: 0 <= j < i && steps[j].Exit? && steps[j].t in run[j].threads ==>
                        !run[j].threads[steps[j].t].pending
    ensures Adders(run[i])
  {
    if i > 0 {
      RunAdders(run, steps, i - 1);
      RunInv(run, steps, i - 1);
      RunStep(run, steps, i - 1);
      var s, x := run[i - 1], steps[i - 1];
      StepAdders(s, x);
      forall u | x.Exit? && u in s.toFlush ensures u in s.adder && s.adder[u] != x.t {
        assert AdderOk(s, u);
      }
    }
  }

  // ---------------------------------------------------------------- order of the units to free

  /** Appending keeps the units to free sorted exactly when their flush is not older than the last one appended. */
  lemma AppendOrder(s: State, t: nat)
    requires Inv(s) && Can(s, Append(t)) && s.toFree != [] && s.threads[t].phase.flushed != []
    requires Sorted(s.toFree, s.flushtime)
    ensures Sorted(Do(s, Append(t)).toFree, Do(s, Append(t)).flushtime) <==>
              Key(s.flushtime, s.toFree[|s.toFree| - 1]) <= s.threads[t].phase.time
  {
    var w, us := Do(s, Append(t)), s.threads[t].phase.flushed;
    forall u | u in s.toFree ensures u !in us {
      assert PlaceOk(s, u, ToFree) && PlaceOk(s, u, Local(t));
    }
    AppendLists(s, t);
    hide Do, Places, Batches, Batched, Insides, Emptied, FlushedOnce;
    assert forall i :: 0 <= i < |s.toFree| ==> Key(w.flushtime, s.toFree[i]) == Key(s.flushtime, s.toFree[i]);
    assert forall i :: 0 <= i < |us| ==> Key(w.flushtime, us[i]) == s.threads[t].phase.time;
    SortedConcat(s.toFree, us, w.flushtime);
  }

  /** Two flushes whose threads append in the other order leave the units to free unsorted. */
  lemma OutOfOrder(s: State, a: nat, b: nat)
    requires Inv(s) && a in s.threads && b in s.threads && a != b
    requires s.threads[a].phase.Holding? && s.threads[a].phase.held != []
    requires s.threads[b].phase.Holding? && s.threads[b].phase.held != []
    ensures var s1 := Do(s, Flush(a));
            && Can(s1, Flush(b)) && var s2 := Do(s1, Flush(b));
            && Can(s2, Append(b)) && var s3 := Do(s2, Append(b));
            && Can(s3, Append(a)) && var s4 := Do(s3, Append(a));
            && Inv(s4) && !Sorted(s4.toFree, s4.flushtime)
  {
    hide Batches, Batched, Insides, Emptied, FlushedOnce, Places, Flushed, Do;
    var x, y := s.threads[a].phase.held, s.threads[b].phase.held;
    var s1 := Do(s, Flush(a));
    StepInv(s, Flush(a));
    FlushedThreads(s, a);
    var s2 := Do(s1, Flush(b));
    StepInv(s1, Flush(b));
    FlushedThreads(s1, b);
    var s3 := Do(s2, Append(b));
    StepInv(s2, Append(b));
    AppendThreads(s2, b);
    StepInv(s3, Append(a));
    HeldApart(s2, a, b);
    assert Locals(s2, a) == x && Locals(s2, b) == y;
    TwoAppends(s2, a, b);
  }

  lemma FlushedThreads(s: State, t: nat)
    requires Can(s, Flush(t))
    ensures Do(s, Flush(t)).threads
              == s.threads[t := s.threads[t].(phase := Stamped(s.threads[t].phase.held, s.time + 1))]
    ensures Do(s, Flush(t)).time == s.time + 1
  {
  }

  lemma AppendThreads(s: State, t: nat)
    requires Can(s, Append(t))
    ensures Do(s, Append(t)).threads == s.threads[t := s.threads[t].(phase := Idle)]
  {
  }

  lemma TwoAppends(s: State, a: nat, b: nat)
    requires a != b && Can(s, Append(a)) && Can(s, Append(b)) && s.threads[a].phase.time < s.threads[b].phase.time
    requires s.threads[a].phase.flushed != [] && s.threads[b].phase.flushed != []
    requires forall u :: u in s.threads[a].phase.flushed ==> u !in s.threads[b].phase.flushed
    ensures Can(Do(s, Append(b)), Append(a))
    ensures var w := Do(Do(s, Append(b)), Append(a)); !Sorted(w.toFree, w.flushtime)
  {
    hide Do;
    var x, y := s.threads[a].phase.flushed, s.threads[b].phase.flushed;
    AppendLists(s, b);
    var m := Do(s, Append(b));
    AppendThreads(s, b);
    AppendLists(m, a);
    var w := Do(m, Append(a));
    var i, j := |s.toFree|, |s.toFree| + |y|;
    assert w.toFree[i] == y[0] && w.toFree[j] == x[0] && y[0] in y && x[0] in x;
    assert Key(w.flushtime, w.toFree[i]) > Key(w.flushtime, w.toFree[j]);
  }

  lemma AppendLists(s: State, t: nat)
    requires Can(s, Append(t))
    ensures Do(s, Append(t)).toFree == s.toFree + s.threads[t].phase.flushed
    ensures forall u :: Key(Do(s, Append(t)).flushtime, u) ==
                        if u in s.threads[t].phase.flushed then s.threads[t].phase.time
                        else Key(s.flushtime, u)
  {
  }

  lemma HeldApart(s: State, a: nat, b: nat)
    requires Places(s) && a != b
    ensures forall u :: u in Locals(s, a) ==> u !in Locals(s, b)
  {
    forall u | u in Locals(s, a) ensures u !in Locals(s, b) {
      assert PlaceOk(s, u, Local(a)) && PlaceOk(s, u, Local(b));
    }
  }

  ghost predicate Reachable(s: State) {
    exists run, steps :: Run(run, steps) && run[|steps|] == s
  }

  lemma ReachInit(s: State)
    requires Init(s)
    ensures Reachable(s)
  {
    var none: seq<Step> := [];
    assert Run([s], none) && [s][|none|] == s;
  }

  lemma ReachStep(s: State, x: Step)
    requires Reachable(s) && Can(s, x)
    ensures Reachable(Do(s, x))
  {
    hide Can, Do, Init;
    var run, steps :| Run(run, steps) && run[|steps|] == s;
    var run', steps' := run + [Do(s, x)], steps + [x];
    forall i ensures StepOk(run', steps', i) {
      assert StepOk(run, steps, i);
    }
    assert Run(run', steps') && run'[|steps'|] == Do(s, x);
  }

  /** A thread marks a unit for flushing and takes it. */
  lemma TakeUnit(s: State, t: nat, u: nat) returns (w: State)
    requires Reachable(s) && Can(s, Mark(t, u)) && s.toFlush == []
    ensures Reachable(w) && w.toFlush == [] && w.live == s.live - {u}
    ensures w.threads == s.threads[t := s.threads[t].(phase := Holding([u]), pending := false)]
  {
    hide Reachable, Moved;
    ReachStep(s, Mark(t, u));
    w := Do(s, Mark(t, u));
    assert w.toFlush == [u];
    ReachStep(w, SetPending(t));
    w := Do(w, SetPending(t));
    ReachStep(w, ClearPending(t));
    w := Do(w, ClearPending(t));
    ReachStep(w, Grab(t));
    w := Do(w, Grab(t));
  }

  lemma TwoHolders() returns (s: State)
    ensures Reachable(s) && 0 in s.threads && 1 in s.threads
    ensures s.threads[0].phase == Holding([10]) && s.threads[1].phase == Holding([11])
  {
    hide Reachable, Moved, Signed, Flushed, Unlink;
    var th := Thread(0, false, Idle, Outside);
    s := State(0, map[0 := th, 1 := th], {}, [], [], {}, map[], map[], map[], [], map[], map[], map[]);
    ReachInit(s);
    ReachStep(s, NewUnit(10));
    s := Do(s, NewUnit(10));
    ReachStep(s, NewUnit(11));
    s := Do(s, NewUnit(11));
    s := TakeUnit(s, 0, 10);
    s := TakeUnit(s, 1, 11);
  }

  /** The units to free do become unsorted: two threads flush in one order and append in the other. */
  lemma UnsortedReachable() returns (s: State)
    ensures Reachable(s) && !Sorted(s.toFree, s.flushtime)
  {
    hide Reachable, Do, Sorted, Inv;
    s := TwoHolders();
    ReachInv(s);
    OutOfOrder(s, 0, 1);
    s := ReachAll(s);
  }

  lemma ReachInv(s: State)
    requires Reachable(s)
    ensures Inv(s)
  {
    var run, steps :| Run(run, steps) && run[|steps|] == s;
    RunInv(run, steps, |steps|);
  }

  lemma ReachAll(s: State) returns (w: State)
    requires Reachable(s) && Can(s, Flush(0))
    requires var s1 := Do(s, Flush(0));
             && Can(s1, Flush(1)) && var s2 := Do(s1, Flush(1));
             && Can(s2, Append(1)) && var s3 := Do(s2, Append(1));
             && Can(s3, Append(0)) && var s4 := Do(s3, Append(0));
             && !Sorted(s4.toFree, s4.flushtime)
    ensures Reachable(w) && !Sorted(w.toFree, w.flushtime)
  {
    hide Reachable, Do, Can, Sorted;
    ReachStep(s, Flush(0));
    var s1 := Do(s, Flush(0));
    ReachStep(s1, Flush(1));
    var s2 := Do(s1, Flush(1));
    ReachStep(s2, Append(1));
    var s3 := Do(s2, Append(1));
    ReachStep(s3, Append(0));
    w := Do(s3, Append(0));
  }

  /** A thread that exits after marking a unit and before it answers its flag leaves the unit with no thread. */
  lemma AdderLost() returns (s: State)
    ensures Reachable(s) && s.toFlush == [10] && !Adders(s)
  {
    hide Reachable, Moved, Flushed, Unlink;
    s := State(0, map[0 := Thread(0, false, Idle, Outside)], {}, [], [], {},
               map[], map[], map[], [], map[], map[], map[]);
    ReachInit(s);
    ReachStep(s, NewUnit(10));
    s := Do(s, NewUnit(10));
    ReachStep(s, Mark(0, 10));
    s := Do(s, Mark(0, 10));
    ReachStep(s, SetPending(0));
    s := Do(s, SetPending(0));
    ReachStep(s, Exit(0));
    s := Do(s, Exit(0));
    assert !AdderOk(s, 10);
  }
}
