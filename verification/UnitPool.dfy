/**
 The units that wait to be freed and the dead units kept for reuse.
 */
module UnitPool {
  import opened FifoRing
  import opened UnitLists

  const MIN_DEAD: nat := 5

  /** Is there room for another dead unit? */
  predicate DeadRoom(dead: nat, threads: nat) {
    dead < MIN_DEAD || dead * 4 <= threads
  }

  datatype Snapshot = Snapshot(waiting: seq<nat>, deads: seq<nat>,
                               unmapped: set<nat>, numDead: nat, attached: map<nat, bool>)

  /** Each of the first `k` units that would be kept as dead units still has its cache. */
  ghost predicate AttachedIfKept(s: Snapshot, k: nat, threads: nat) {
    forall i :: 0 <= i < k && i < |s.waiting| && DeadRoom(s.numDead + i, threads) ==>
                  s.waiting[i] in s.attached && s.attached[s.waiting[i]]
  }

  /** The first `i` waiting units, and no others, have become dead units or been unmapped. */
  ghost predicate FreedSo(s: Snapshot, t: Snapshot, i: nat, threads: nat) {
    && i <= |s.waiting| && t.waiting == s.waiting[i..] && t.attached.Keys == s.attached.Keys
    && (forall u :: u in t.deads || u in t.unmapped <==> u in s.deads || u in s.unmapped || u in s.waiting[..i])
    && (t.numDead == s.numDead + i || (t.numDead <= s.numDead + i && !DeadRoom(t.numDead, threads)))
    && (forall u :: u in t.waiting && u in s.attached ==> t.attached[u] == s.attached[u])
    && AttachedIfKept(s, i, threads)
  }

  lemma FreedNone(s: Snapshot, threads: nat)
    ensures FreedSo(s, s, 0, threads)
  {
  }

  lemma FreedRest(s: Snapshot, t: Snapshot, i: nat, threads: nat)
    requires FreedSo(s, t, i, threads)
    ensures i <= |s.waiting| && t.waiting == s.waiting[i..] && AttachedIfKept(s, i, threads)
  {
  }

  lemma FreedFirst(s: Snapshot, t: Snapshot, i: nat, threads: nat)
    requires FreedSo(s, t, i, threads) && t.waiting != []
    ensures i < |s.waiting| && t.waiting[0] == s.waiting[i]
    ensures t.attached.Keys == s.attached.Keys
    ensures s.waiting[i] in s.attached ==> t.attached[s.waiting[i]] == s.attached[s.waiting[i]]
    ensures DeadRoom(t.numDead, threads) <==> DeadRoom(s.numDead + i, threads)
  {
    assert t.waiting[0] in t.waiting;
  }

  lemma FreedStep(s: Snapshot, t: Snapshot, x: Snapshot, i: nat, u: nat, threads: nat)
    requires FreedSo(s, t, i, threads) && t.waiting != [] && u == t.waiting[0]
    requires x.waiting == t.waiting[1..] && u in t.attached && x.attached == t.attached[u := false] && u !in x.waiting
    requires DeadRoom(t.numDead, threads) ==> t.attached[u]
    requires if DeadRoom(t.numDead, threads)
             then x.numDead == t.numDead + 1 && x.unmapped == t.unmapped &&
                  (forall d :: d in x.deads <==> d in t.deads || d == u)
             else x.numDead == t.numDead && x.deads == t.deads && x.unmapped == t.unmapped + {u}
    ensures FreedSo(s, x, i + 1, threads)
  {
    FreedFirst(s, t, i, threads);
    assert s.waiting[..i + 1] == s.waiting[..i] + [u];
  }

  lemma FreedFault(s: Snapshot, t: Snapshot, i: nat, threads: nat, flushtime: map<nat, nat>, time: int)
    requires FreedSo(s, t, i, threads) && (forall j :: 0 <= j < i ==> Key(flushtime, s.waiting[j]) <= time)
    requires t.waiting != [] && Key(flushtime, t.waiting[0]) <= time && t.waiting[0] in t.attached
    requires DeadRoom(t.numDead, threads) && !t.attached[t.waiting[0]]
    ensures !AttachedIfKept(s, Due(s.waiting, flushtime, time), threads)
  {
    FreedFirst(s, t, i, threads);
    DueReaches(s.waiting, flushtime, time, i);
  }

  lemma FreedAll(s: Snapshot, t: Snapshot, i: nat, threads: nat, flushtime: map<nat, nat>, time: int)
    requires FreedSo(s, t, i, threads) && (forall j :: 0 <= j < i ==> Key(flushtime, s.waiting[j]) <= time)
    requires t.waiting != [] ==> Key(flushtime, t.waiting[0]) > time
    ensures i == Due(s.waiting, flushtime, time) && AttachedIfKept(s, i, threads)
    ensures Sorted(s.waiting, flushtime) ==> forall u :: u in t.waiting <==> u in s.waiting && Key(flushtime, u) > time
  {
    hide FreedSo, AttachedIfKept, Sorted, Due, DeadRoom;
    FreedRest(s, t, i, threads);
    if t.waiting != [] { FreedFirst(s, t, i, threads); }
    DueUnique(s.waiting, flushtime, time, i);
    DueIsAll(s.waiting, flushtime, time);
    if Sorted(s.waiting, flushtime) { SuffixMembers(s.waiting, i, flushtime, time); }
  }

  /** Appending one sorted list to another keeps the order exactly if the second is not older. */
  lemma ConcatOrder(s: seq<nat>, t: seq<nat>, key: map<nat, nat>)
    requires t != [] && Sorted(s, key) && Sorted(t, key)
    ensures Sorted(s + t, key) <==> s == [] || Key(key, s[|s| - 1]) <= Key(key, t[0])
  {
    if s == [] {
      assert s + t == t;
    } else {
      SortedConcat(s, t, key);
    }
  }

  class Pool {
    var nextLocal: map<nat, Link>
    var nextGlobal: map<nat, Link>
    var size: map<nat, nat>
    var flushtime: map<nat, nat>
    var attached: map<nat, bool>
    var toFree: Link
    var toFreeTail: Link
    var dead: Link
    var numDead: nat

    ghost var waiting: seq<nat>
    ghost var deads: seq<nat>
    ghost var unmapped: set<nat>

    ghost predicate Known(u: nat)
      reads this
    {
      u in size && u in flushtime && u in attached
    }

    constructor ()
      ensures Valid() && waiting == [] && deads == [] && unmapped == {}
      ensures toFree == toFreeTail == dead == Nil && numDead == 0 && Listed([], Nil, nextGlobal)
    {
      nextLocal, nextGlobal, size, flushtime, attached := map[], map[], map[], map[], map[];
      toFree, toFreeTail, dead, numDead := Nil, Nil, Nil, 0;
      waiting, deads, unmapped := [], [], {};
    }

    /** Neither kept for reuse nor unmapped. */
    ghost predicate Held(u: nat)
      reads this
    {
      Known(u) && u !in deads && u !in unmapped
    }

    ghost predicate Waiting()
      reads this
    {
      && Listed(waiting, toFree, nextLocal)
      && toFreeTail == (if waiting == [] then Nil else At(waiting[|waiting| - 1]))
      && (forall u :: u in waiting ==> Held(u))
    }

    ghost predicate Dead()
      reads this
    {
      && Listed(deads, dead, nextGlobal) && Sorted(deads, size) && numDead == |deads|
      && (forall u :: u in deads ==> Known(u) && u !in unmapped)
    }

    ghost predicate Valid()
      reads this
    {
      Waiting() && Dead()
    }

    /** Appends a chain of flushed units; all but its last are detached from their cache. */
    method AppendUnits(u: nat, ghost chain: seq<nat>)
      requires Valid() && chain != [] && Listed(chain, At(u), nextLocal)
      requires forall x :: x in chain ==> Held(x) && x !in waiting
      modifies `nextLocal, `toFree, `toFreeTail, `attached, `waiting
      ensures Valid() && waiting == old(waiting) + chain
      ensures attached.Keys == old(attached).Keys
      ensures forall x :: x in attached ==> attached[x] == (old(attached)[x] && x !in chain[..|chain| - 1])
      ensures Sorted(old(waiting), flushtime) && Sorted(chain, flushtime) ==>
                (Sorted(waiting, flushtime) <==>
                   old(waiting) == [] || Key(flushtime, old(waiting)[|old(waiting)| - 1]) <= Key(flushtime, chain[0]))
    {
      hide Listed, Sorted, Key;
      JoinChain(u, chain);
      if Sorted(old(waiting), flushtime) && Sorted(chain, flushtime) {
        ConcatOrder(old(waiting), chain, flushtime);
      }
    }

    /** Links the chain behind the last waiting unit and moves the tail pointer to its end. */
    method JoinChain(u: nat, ghost chain: seq<nat>)
      requires Valid() && chain != [] && Listed(chain, At(u), nextLocal)
      requires forall x :: x in chain ==> Held(x) && x !in waiting
      modifies `nextLocal, `toFree, `toFreeTail, `attached, `waiting
      ensures Valid() && waiting == old(waiting) + chain
      ensures attached.Keys == old(attached).Keys
      ensures forall x :: x in attached ==> attached[x] == (old(attached)[x] && x !in chain[..|chain| - 1])
    {
      hide Listed, Sorted;
      ghost var was := nextLocal;
      ListedMembers(chain, At(u), nextLocal);
      ListedConcat(waiting, chain, toFree, nextLocal);
      if toFreeTail == Nil {
        toFree := At(u);
      } else {
        assert waiting[|waiting| - 1] in waiting;
        nextLocal := nextLocal[toFreeTail.id := At(u)];
      }
      var last := DetachChain(u, was, chain);
      toFreeTail := At(last);
      waiting := waiting + chain;
      assert waiting[|waiting| - 1] == chain[|chain| - 1];
      if old(waiting) == [] { assert waiting == chain; }
    }

    /** Walks to the end of a chain, detaching all units but the last. */
    method DetachChain(u: nat, ghost was: map<nat, Link>, ghost chain: seq<nat>) returns (last: nat)
      requires chain != [] && Listed(chain, At(u), was)
      requires forall x :: x in chain ==> x in was && x in nextLocal && nextLocal[x] == was[x]
      requires forall x :: x in chain ==> x in attached
      modifies `attached
      ensures last == chain[|chain| - 1] && attached.Keys == old(attached).Keys
      ensures forall x :: x in attached ==> attached[x] == (old(attached)[x] && x !in chain[..|chain| - 1])
    {
      last := u;
      ghost var i := 0;
      assert chain[0] in chain;
      while nextLocal[last] != Nil
        invariant 0 <= i < |chain| && last == chain[i] && last in chain && last in nextLocal
        invariant attached.Keys == old(attached).Keys
        invariant forall x :: x in attached ==> attached[x] == (old(attached)[x] && x !in chain[..i])
        decreases |chain| - i
      {
        assert LinkOk(chain, was, i);
        assert chain[..i + 1] == chain[..i] + [last];
        attached := attached[last := false];
        last := nextLocal[last].id;
        i := i + 1;
      }
      assert LinkOk(chain, was, i);
    }

    /** Puts a unit on the dead list, which stays sorted from small to large. */
    method InsertDead(u: nat)
      requires Valid() && Held(u) && u !in waiting
      modifies `nextGlobal, `dead, `numDead, `deads
      ensures Dead() && numDead == old(numDead) + 1 && (forall x :: x in deads <==> x in old(deads) || x == u)
    {
      hide Listed, Sorted, Inserted;
      ghost var k;
      var prev, cur;
      prev, cur, k := FindDeadPlace(size[u]);
      InsertedListed(deads, k, u, dead, nextGlobal);
      InsertedSorted(deads, k, u, size);
      InsertedAt(deads, k, u);
      ListedMembers(deads, dead, nextGlobal);
      deads := Inserted(deads, k, u);
      if prev == Nil {
        nextGlobal := nextGlobal[u := dead];
        dead := At(u);
      } else {
        nextGlobal := nextGlobal[u := cur];
        nextGlobal := nextGlobal[prev.id := At(u)];
      }
      numDead := numDead + 1;
    }

    /** The first dead unit that is not smaller, and the one before it. */
    method FindDeadPlace(want: nat) returns (prev: Link, cur: Link, ghost k: nat)
      requires Dead()
      ensures k <= |deads| && cur == (if k < |deads| then At(deads[k]) else Nil)
      ensures prev == (if k == 0 then Nil else At(deads[k - 1]))
      ensures forall i :: 0 <= i < k ==> Key(size, deads[i]) < want
      ensures k < |deads| ==> want <= Key(size, deads[k])
    {
      hide Listed, Sorted;
      cur, prev, k := dead, Nil, 0;
      ListedMembers(deads, dead, nextGlobal);
      while cur != Nil && size[cur.id] < want
        invariant 0 <= k <= |deads| && cur == (if k < |deads| then At(deads[k]) else Nil)
        invariant cur.At? ==> cur.id in deads
        invariant prev == (if k == 0 then Nil else At(deads[k - 1]))
        invariant forall i :: 0 <= i < k ==> Key(size, deads[i]) < want
        decreases |deads| - k
      {
        ListedAt(deads, dead, nextGlobal, k);
        prev := cur;
        cur := nextGlobal[cur.id];
        k := k + 1;
      }
    }

    /**
     Frees a unit: keeps it on the dead list while there is room, else unmaps it.  Only the second
     path asks whether the unit is still attached to a cache; the first faults if it is not.
     */
    method FreeUnit(u: nat, threads: nat) returns (ok: bool)
      requires Valid() && Held(u) && u !in waiting
      modifies `nextGlobal, `dead, `numDead, `deads, `attached, `unmapped
      ensures ok <==> (DeadRoom(old(numDead), threads) ==> old(attached)[u])
      ensures ok ==> Valid() && attached == old(attached)[u := false]
      ensures ok ==> (u in deads <==> old(numDead) < 5 || 4 * old(numDead) <= threads)
      ensures ok && DeadRoom(old(numDead), threads) ==>
                && numDead == old(numDead) + 1 && unmapped == old(unmapped)
                && (forall x :: x in deads <==> x in old(deads) || x == u)
      ensures ok && !DeadRoom(old(numDead), threads) ==>
                numDead == old(numDead) && deads == old(deads) && unmapped == old(unmapped) + {u}
    {
      hide Listed, Sorted;
      if DeadRoom(numDead, threads) {
        InsertDead(u);
        if !attached[u] {
          return false;
        }
      } else {
        unmapped := unmapped + {u};
      }
      attached := attached[u := false];
      ok := true;
    }

    /** No unit due now would be put on the dead list after it has lost its cache. */
    ghost predicate Freeable(time: int, threads: nat)
      reads this
    {
      AttachedIfKept(Snap(), Due(waiting, flushtime, time), threads)
    }

    /**
     Frees the units at the front that are due at `time`, which are all that are due if the list
     is sorted.
     */
    method FreePending(time: int, threads: nat) returns (ok: bool)
      requires Valid()
      modifies this
      ensures ok <==> old(Freeable(time, threads))
      ensures ok ==>
                && Valid() && flushtime == old(flushtime)
                && FreedSo(old(Snap()), Snap(), Due(old(waiting), old(flushtime), time), threads)
      ensures ok && old(Sorted(waiting, flushtime)) ==>
                forall u :: u in waiting <==> u in old(waiting) && Key(flushtime, u) > time
    {
      hide Listed, Sorted, FreedSo, AttachedIfKept, Due;
      ghost var i, s := 0, Snap();
      FreedNone(s, threads);
      ok := true;
      ListedMembers(waiting, toFree, nextLocal);
      if waiting != [] { assert waiting[0] in waiting; }
      while toFree != Nil && flushtime[toFree.id] <= time
        invariant Valid() && FreedSo(s, Snap(), i, threads) && flushtime == old(flushtime)
        invariant toFree == if waiting == [] then Nil else At(waiting[0])
        invariant toFree.At? ==> toFree.id in flushtime
        invariant forall j :: 0 <= j < i ==> j < |s.waiting| && Key(flushtime, s.waiting[j]) <= time
        decreases |waiting|
      {
        FreedFirst(s, Snap(), i, threads);
        ok := FreeFirst(time, threads, s, i);
        if !ok { return; }
        i := i + 1;
        ListedMembers(waiting, toFree, nextLocal);
        if waiting != [] { assert waiting[0] in waiting; }
      }
      FreedAll(s, Snap(), i, threads, flushtime, time);
    }

    /** Takes the first waiting unit, which is due, off the list and frees it. */
    method FreeFirst(time: int, threads: nat, ghost s: Snapshot, ghost i: nat) returns (ok: bool)
      requires Valid() && FreedSo(s, Snap(), i, threads) && waiting != [] && Key(flushtime, waiting[0]) <= time
      requires forall j :: 0 <= j < i ==> j < |s.waiting| && Key(flushtime, s.waiting[j]) <= time
      modifies this
      ensures ok ==> Valid() && FreedSo(s, Snap(), i + 1, threads)
      ensures ok ==> |waiting| < |old(waiting)| && flushtime == old(flushtime)
      ensures !ok ==> !AttachedIfKept(s, Due(s.waiting, old(flushtime), time), threads)
    {
      hide Listed, Sorted, FreedSo, AttachedIfKept, Due;
      ghost var before := Snap();
      FreedFirst(s, before, i, threads);
      var u := PopWaiting();
      ok := FreeUnit(u, threads);
      if ok {
        FreedStep(s, before, Snap(), i, u, threads);
      } else {
        FreedFault(s, before, i, threads, flushtime, time);
      }
    }

    ghost function Snap(): Snapshot
      reads this
    {
      Snapshot(waiting, deads, unmapped, numDead, attached)
    }

    /** Takes the first unit off the list, and moves the tail pointer if it was the only one. */
    method PopWaiting() returns (u: nat)
      requires Valid() && waiting != []
      modifies `toFree, `toFreeTail, `waiting
      ensures Valid() && u == old(waiting)[0] && waiting == old(waiting)[1..] && Held(u) && u !in waiting
    {
      hide Sorted;
      ListedTail(waiting, toFree, nextLocal);
      assert waiting[0] in waiting;
      if |waiting| > 1 { assert waiting[0] != waiting[|waiting| - 1]; }
      assert forall x :: x in waiting[1..] ==> x in waiting;
      u := toFree.id;
      if toFree == toFreeTail {
        toFreeTail := Nil;
      }
      toFree := nextLocal[u];
      waiting := waiting[1..];
    }

    /** Can a dead unit serve a request for `want` bytes by a cache of the given size and maximum? */
    predicate Serves(u: nat, want: nat, cacheSize: nat, maxSize: nat)
      reads this
    {
      Key(size, u) >= want && (maxSize == 0 || cacheSize + Key(size, u) <= maxSize)
    }

    /** Reuses the smallest dead unit that serves the request, if any does. */
    method TakeDead(want: nat, cacheSize: nat, maxSize: nat) returns (found: Link)
      requires Valid()
      modifies `nextGlobal, `dead, `numDead, `deads
      ensures Valid()
      ensures found == Nil ==> deads == old(deads) && forall u :: u in deads ==> !Serves(u, want, cacheSize, maxSize)
      ensures found.At? ==>
                && found.id in old(deads) && Serves(found.id, want, cacheSize, maxSize)
                && (forall u :: u in deads <==> u in old(deads) && u != found.id) && numDead == old(numDead) - 1
                && (forall u :: u in old(deads) && Serves(u, want, cacheSize, maxSize) ==>
                      Key(size, found.id) <= Key(size, u))
    {
      hide Listed, Sorted;
      var cur, prev := dead, Nil;
      ghost var k := 0;
      ListedMembers(deads, dead, nextGlobal);
      while cur != Nil
        invariant 0 <= k <= |deads| && cur == (if k < |deads| then At(deads[k]) else Nil)
        invariant cur.At? ==> cur.id in deads
        invariant prev == (if k == 0 then Nil else At(deads[k - 1]))
        invariant forall i :: 0 <= i < k ==> !Serves(deads[i], want, cacheSize, maxSize)
        invariant Valid() && deads == old(deads)
        decreases |deads| - k
      {
        if size[cur.id] >= want && (maxSize == 0 || cacheSize + size[cur.id] <= maxSize) {
          UnlinkDead(prev, cur.id, k);
          SmallestFirst(old(deads), k, size);
          return cur;
        }
        ListedAt(deads, dead, nextGlobal, k);
        prev := cur;
        cur := nextGlobal[cur.id];
        k := k + 1;
      }
      return Nil;
    }

    method UnlinkDead(prev: Link, u: nat, ghost k: nat)
      requires Valid() && k < |deads| && u == deads[k] && prev == (if k == 0 then Nil else At(deads[k - 1]))
      modifies `nextGlobal, `dead, `numDead, `deads
      ensures Valid() && deads == Without(old(deads), k) && (forall x :: x in deads <==> x in old(deads) && x != u)
    {
      hide Sorted;
      WithoutListed(deads, k, dead, nextGlobal);
      WithoutSorted(deads, k, size);
      WithoutMembers(deads, k);
      if prev == Nil {
        dead := nextGlobal[u];
      } else {
        nextGlobal := nextGlobal[prev.id := nextGlobal[u]];
      }
      deads := Without(deads, k);
      numDead := numDead - 1;
    }
  }

  /**
   A chain of several flushed units, of which appending leaves only the last attached, can be
   freed exactly when it is a single unit or none of it would be kept for reuse.
   */
  lemma ChainFreeable(s: Snapshot, threads: nat)
    requires s.waiting != [] && NoRepeat(s.waiting) && forall u :: u in s.waiting ==> u in s.attached
    requires forall u :: u in s.waiting ==> (s.attached[u] <==> u == s.waiting[|s.waiting| - 1])
    ensures AttachedIfKept(s, |s.waiting|, threads) <==> |s.waiting| == 1 || !DeadRoom(s.numDead, threads)
  {
    var w := s.waiting;
    assert w[0] in w && (|w| > 1 ==> w[0] != w[|w| - 1]);
    if |w| > 1 && DeadRoom(s.numDead, threads) {
      assert DeadRoom(s.numDead + 0, threads) && !s.attached[w[0]];
    }
  }

  lemma PairListed(next: map<nat, Link>)
    requires 0 in next && next[0] == At(1) && 1 in next && next[1] == Nil
    ensures Listed([], Nil, next) && Listed([0, 1], At(0), next)
  {
    assert forall i :: LinkOk([0, 1], next, i);
  }

  /** A pool to which two units have been appended as one chain. */
  method AppendPair() returns (p: Pool)
    ensures fresh(p) && p.Valid() && p.waiting == [0, 1] && p.numDead == 0
    ensures p.flushtime == map[0 := 1, 1 := 1] && 0 in p.attached && !p.attached[0] && 1 in p.attached && p.attached[1]
  {
    hide Listed, Sorted;
    p := new Pool();
    p.nextLocal := map[0 := At(1), 1 := Nil];
    PairListed(p.nextLocal);
    p.size, p.flushtime, p.attached := map[0 := 1, 1 := 1], map[0 := 1, 1 := 1], map[0 := true, 1 := true];
    SortedNone(p.size);
    p.AppendUnits(0, [0, 1]);
    assert [0, 1][..1] == [0] && 0 in [0, 1];
  }

  /** Freed while there is room for a dead unit, that chain is rejected: its first unit has lost its cache. */
  method ChainRejected() returns (ok: bool)
    ensures !ok
  {
    hide Listed, Sorted, Due, AttachedIfKept, FreedSo;
    var p := AppendPair();
    DueUnique(p.waiting, p.flushtime, 1, 2);
    ChainFreeable(p.Snap(), 0);
    ok := p.FreePending(1, 0);
  }

  lemma SortedNone(key: map<nat, nat>)
    ensures Sorted([], key)
  {
  }
}
