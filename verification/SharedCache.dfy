/**
 The shared code cache: fragments are placed in free-list entries, at the end of the current
 unit, or in a new unit, and freed slots are coalesced with their free neighbours.
 */
module SharedCache {
  import opened Layout
  import opened FreeChain
  import opened FreeSlots
  import opened Units
  import opened SharedLayout
  import opened WorkingSet

  class Cache {
    var mem: Memory
    var frags: map<nat, Frag>
    var freeList: seq<Ptr>
    var units: map<nat, Unit>
    var list: seq<nat>
    var toFlush: seq<nat>
    var lazy: set<nat>
    const params: Params
    const ws: Set

    ghost var tiles: Tiles
    ghost var spans: Spans
    ghost var kind: map<int, Kind>
    ghost var lists: seq<seq<int>>

    ghost function V(): View
      reads this
    {
      View(tiles, spans, kind, lists, mem, frags, freeList)
    }

    /** Layout, lists, flags, records and units agree. */
    ghost predicate Consistent()
      reads this
    {
      Sound(params, V(), units, list, {}, {})
    }

    ghost predicate Valid()
      reads this
    {
      Consistent() && Awaiting(units, list, toFlush) && LazyOk(frags, lazy)
    }

    constructor (p: Params, w: Set, s: Supply)
      requires ParamsOk(p) && Supplies(p, p.maxUnit, s)
      modifies w`size
      ensures w.size == old(w.size) + (s.endPc - s.startPc)
      ensures Valid() && params == p && ws == w && tiles == map[] && list == [s.id] && toFlush == []
    {
      params, ws, toFlush, lazy := p, w, [], {};
      mem, frags, freeList := Memory(map[], map[], map[], map[], map[]), map[], seq(BUCKETS, _ => Null);
      units, list := map[s.id := NewUnit(s)], [s.id];
      tiles, kind, lists := map[], map[], seq(BUCKETS, _ => []);
      spans := map[s.id := Span(s.startPc, s.startPc, s.reservedEnd)];
      new;
      w.size := w.size + (s.endPc - s.startPc);
      EmptySound(p, V(), s, p.maxUnit);
    }

    /** Where fragment `f` lives. */
    ghost predicate At(f: nat, a: int)
      reads this
    {
      LiveAt(V(), a, f)
    }

    method FindFreeListBucket(size: int) returns (k: int)
      requires 0 <= size
      ensures k == Bucket(size)
    {
      k := BUCKETS - 1;
      while size < BUCKET_SIZES[k]
        invariant 0 <= k < BUCKETS
        invariant forall j :: k < j < BUCKETS ==> size < BUCKET_SIZES[j]
        decreases k
      {
        k := k - 1;
      }
    }

    method RemoveFromFreeList(k: int, a: int, ghost ex: set<int>)
      requires Core(V(), ex) && a in tiles && kind[a].Free? && k == Bucket(tiles[a].size)
      modifies `mem, `freeList, `lists, `kind
      ensures Core(V(), ex + {End(tiles, a)})
      ensures kind == old(kind)[a := Hole(false)]
      ensures mem == old(mem).(first := mem.first, prev := mem.prev)
      ensures |lists| == BUCKETS
      ensures exists i :: 0 <= i < |old(lists)[k]| && old(lists)[k][i] == a &&
                            lists == old(lists)[k := Drop(old(lists)[k], i)]
    {
      ghost var v := V();
      assert SlotOk(v, ex, a) && BelongsIn(v, k, a);
      ghost var i := ChainAt(v.lists[k], v.heads[k], v.mem.first, v.mem.prev, a);
      var nxt, prv := mem.first[a], mem.prev[a];
      if prv != Null {
        mem := mem.(first := mem.first[prv.pc := nxt]);
      } else {
        freeList := freeList[k := nxt];
      }
      if nxt != Null {
        mem := mem.(prev := mem.prev[nxt.pc := prv]);
      }
      lists := lists[k := Drop(lists[k], i)];
      kind := kind[a := Hole(false)];
      assert freeList == Unfiled(v, a, i).heads;
      assert V() == Unfiled(v, a, i);
      UnfiledCore(v, ex, a, i);
    }

    /** The slot `e` after the hole is free: take it off its list and join the two. */
    method CoalesceNext(a: int, e: int, ghost ex: set<int>)
      requires Core(V(), ex) && a in tiles && kind[a].Hole?
      requires e == End(tiles, a) && e in tiles && kind[e].Free?
      modifies `mem, `freeList, `lists, `kind, `tiles
      ensures Core(V(), (ex - {e}) + {End(old(tiles), e)})
      ensures tiles == Merge(old(tiles), a)
      ensures kind == old(kind) - {e}
      ensures mem == old(mem).(first := mem.first, prev := mem.prev)
      ensures NextOk(V(), a)
    {
      ghost var v := V();
      assert SlotOk(v, ex, e);
      assert TileOk(tiles, spans, e) && TileOk(tiles, spans, a);
      var k := FindFreeListBucket(mem.size[e]);
      RemoveFromFreeList(k, e, ex);
      ghost var w := V();
      JoinedCore(w, ex + {End(v.tiles, e)}, a);
      tiles := Merge(tiles, a);
      kind := kind - {e};
      assert V() == Joined(w, a);
      CoreExempt(V(), (ex + {End(v.tiles, e)}) - {e}, (ex - {e}) + {End(v.tiles, e)});
    }

    /** The hole follows a free slot, found through its footer: join the two. */
    method CoalescePrev(a: int, ghost ex: set<int>) returns (p: int)
      requires Core(V(), ex) && a in tiles && kind[a] == Hole(true) && a !in ex
      modifies `mem, `freeList, `lists, `kind, `tiles
      ensures p == RangeLo(old(V()), a)
      ensures p in old(tiles) && old(kind)[p].Free? && End(old(tiles), p) == a && p < a
      ensures old(tiles[a].unit) == old(tiles)[p].unit
      ensures Core(V(), ex)
      ensures tiles == Merge(old(tiles), p)
      ensures kind == (old(kind) - {a})[p := Hole(false)]
      ensures mem == old(mem).(first := mem.first, prev := mem.prev)
      ensures NextOk(old(V()), a) ==> NextOk(V(), p)
    {
      ghost var v := V();
      assert SlotOk(v, ex, a);
      assert TileOk(tiles, spans, a);
      p := a - mem.foot[a - FOOTER_SIZE];
      assert SlotOk(v, ex, p);
      NextInUnit(tiles, spans, p);
      var k := FindFreeListBucket(mem.foot[a - FOOTER_SIZE]);
      RemoveFromFreeList(k, p, ex);
      ghost var w := V();
      JoinedCore(w, ex + {a}, p);
      tiles := Merge(tiles, p);
      kind := kind - {a};
      assert V() == Joined(w, p);
      CoreExempt(V(), (ex + {a}) - {a}, ex);
    }

    /** The fragment after the hole is marked as following a free entry. */
    method MarkNext(e: int, ghost h: int)
      requires Core(V(), {e}) && h in tiles && kind[h].Hole? && End(tiles, h) == e
      requires e in tiles && kind[e].Live?
      modifies `frags
      ensures Core(V(), {e}) && Follows(V(), e)
      ensures OnlyFlagsChange(old(frags), frags)
      ensures forall f :: f in frags && f != kind[e].f ==> frags[f] == old(frags[f])
    {
      ghost var v := V();
      assert SlotOk(v, {e}, e);
      var f := mem.first[e].frag;
      if !frags[f].followsFree {
        frags := frags[f := frags[f].(followsFree := true)];
      }
      FlaggedCore(v, {e}, h, e, true);
      assert V() == Flagged(v, e, true);
      assert {e} + {e} == {e};
    }

    /** The hole becomes a free-list entry at the front of its bucket. */
    method PushFreeEntry(a: int, size: int, ghost ex: set<int>)
      requires Core(V(), ex) && a in tiles && kind[a] == Hole(false) && size == tiles[a].size
      requires MIN_SLOT <= size && NextOk(V(), a) && a !in ex
      modifies `mem, `freeList, `lists, `kind
      ensures Core(V(), ex - {End(tiles, a)})
      ensures kind == old(kind)[a := Free]
      ensures lists == old(lists)[Bucket(size) := [a] + old(lists)[Bucket(size)]]
    {
      ghost var v := V();
      var k := FindFreeListBucket(size);
      var head := freeList[k];
      mem := mem.(first := mem.first[a := head], prev := mem.prev[a := Null],
                  size := mem.size[a := size], flag := mem.flag[a := true]);
      mem := mem.(foot := mem.foot[FooterAddr(a, size) := size]);
      if head != Null {
        mem := mem.(prev := mem.prev[head.pc := ToCache(a)]);
      }
      freeList := freeList[k := ToCache(a)];
      lists := lists[k := [a] + lists[k]];
      kind := kind[a := Free];
      assert V() == Filed(v, a);
      FiledCore(v, ex, a);
    }

    /** Looks at the slot after the hole: coalesces with it if free, else marks the fragment. */
    method AbsorbNext(u: nat, start: int, size: int) returns (sz: int)
      requires Core(V(), {start + size}) && start in tiles && tiles[start] == Tile(size, u)
      requires kind[start].Hole?
      requires start + size in kind ==> !kind[start + size].Hole?
      requires u in units && u in spans && spans[u].limit - spans[u].lo <= MAX_UINT
      requires units[u].curPc > start + size <==> start + size in tiles
      modifies `mem, `freeList, `lists, `kind, `tiles, `frags
      ensures Core(V(), {start + sz}) && NextOk(V(), start)
      ensures start in tiles && tiles[start] == Tile(sz, u) && start + sz == RangeHi(old(V()), start)
      ensures size <= sz && (NextIsFree(old(V()), start) ==> MIN_SLOT <= sz)
      ensures tiles == if NextIsFree(old(V()), start) then Merge(old(tiles), start) else old(tiles)
      ensures kind == if NextIsFree(old(V()), start) then old(kind) - {start + size} else old(kind)
      ensures mem.foot == old(mem.foot)
      ensures OnlyFlagsChange(old(frags), frags)
      ensures forall g :: g in frags && (start + size in old(kind) ==> old(kind)[start + size] != Live(g)) ==>
                            frags[g] == old(frags[g])
    {
      ghost var v := V();
      var next := start + size;
      sz := size;
      assert TileOk(tiles, spans, start) && SpanOk(tiles, spans, u);
      if units[u].curPc > next {
        assert SlotOk(v, {next}, next) && TileOk(tiles, spans, next);
        FirstWordTellsKind(v, {next}, next);
        NextInUnit(tiles, spans, start);
        if WordIsFree(frags, mem, mem.first[next]) {
          if mem.size[next] + sz <= MAX_UINT {
            sz := sz + mem.size[next];
            CoalesceNext(start, next, {next});
            assert ({next} - {next}) + {start + sz} == {start + sz};
          }
        } else {
          MarkNext(next, start);
        }
      }
    }

    /** Coalesces the hole at `start` with the free slots on both sides. */
    method Absorb(u: nat, f: Ptr, start: int, size: int) returns (st: int, sz: int)
      requires Core(V(), {start + size}) && start in tiles && tiles[start] == Tile(size, u)
      requires kind[start] == Hole(f.ToFrag? && f.frag in frags && frags[f.frag].followsFree)
      requires start + size in kind ==> !kind[start + size].Hole?
      requires f.ToFrag? && start + size in kind ==> kind[start + size] != Live(f.frag)
      requires u in units && u in spans && spans[u].limit - spans[u].lo <= MAX_UINT
      requires units[u].curPc > start + size <==> start + size in tiles
      modifies `mem, `freeList, `lists, `kind, `tiles, `frags
      ensures Core(V(), {st + sz}) && st in tiles && NextOk(V(), st)
      ensures Absorbed(old(V()), V(), start, st) && st + sz == RangeHi(old(V()), start)
      ensures tiles[st] == Tile(sz, u) && kind[st] == Hole(false)
      ensures size <= sz && (NextIsFree(old(V()), start) ==> MIN_SLOT <= sz)
      ensures OnlyFlagsChange(old(frags), frags)
      ensures forall g :: g in frags && (start + size in old(kind) ==> old(kind)[start + size] != Live(g)) ==>
                            frags[g] == old(frags[g])
    {
      hide Core, NextOk, Absorbed, OnlyFlagsChange;
      ghost var v := V();
      st := start;
      CoreTile(v, {start + size}, start);
      sz := AbsorbNext(u, start, size);
      ghost var w := V();
      if f.ToFrag? && f.frag in frags && frags[f.frag].followsFree {
        st := CoalescePrev(start, {start + sz});
        sz := sz + (start - st);
        AbsorbedPrev(v, w, V(), {start + size}, start, st);
      } else {
        AbsorbedNext(v, w, {start + size}, start);
      }
    }

    /** The last slot of the current unit, a hole, goes back to the unclaimed space. */
    method GiveBack(u: nat, st: int, sz: int)
      requires Core(V(), {st + sz}) && st in tiles && kind[st] == Hole(false)
      requires tiles[st] == Tile(sz, u) && u in units && u in spans && spans[u].hi == st + sz
      modifies `kind, `tiles, `units, `spans
      ensures Core(V(), {})
      ensures V() == Shrunk(old(V()), st)
      ensures units == old(units)[u := old(units[u]).(curPc := st, full := false)]
      ensures forall a :: a in kind && kind[a].Free? ==> End(tiles, a) != st
    {
      ghost var w := V();
      ShrunkCore(w, {st + sz}, st);
      units := units[u := units[u].(curPc := st, full := false)];
      spans := Raise(spans, u, st);
      tiles := tiles - {st};
      kind := kind - {st};
      assert V() == Shrunk(w, st);
      TopIsFree(w.tiles, w.spans, u);
      CoreExempt(V(), {st + sz}, {});
    }

    /**
     Puts the hole at `start` on a free list, coalesced with the free slots on both sides, or
     gives it back to the unclaimed space when it ends at the append point of the current unit.
     `f` is the fragment being freed, or null.
     */
    method AddToFreeList(u: nat, f: Ptr, start: int, size: int)
      requires Core(V(), {start + size}) && start in tiles && tiles[start] == Tile(size, u)
      requires kind[start] == Hole(f.ToFrag? && f.frag in frags && frags[f.frag].followsFree)
      requires start + size in kind ==> !kind[start + size].Hole?
      requires f.ToFrag? && start + size in kind ==> kind[start + size] != Live(f.frag)
      requires u in units && list != [] && u in spans && spans[u].limit - spans[u].lo <= MAX_UINT
      requires units[u].curPc > start + size <==> start + size in tiles
      requires u == list[0] && units[u].curPc == RangeHi(V(), start) ==> spans[u].hi == units[u].curPc
      requires MIN_SLOT <= size || NextIsFree(V(), start) || (u == list[0] && units[u].curPc == start + size)
      modifies `mem, `freeList, `lists, `kind, `tiles, `frags, `units, `spans
      ensures Core(V(), {})
      ensures OnlyFlagsChange(old(frags), frags)
      ensures forall g :: g in frags && (start + size in old(kind) ==> old(kind)[start + size] != Live(g)) ==>
                            frags[g] == old(frags[g])
      ensures Returned(old(V()), V(), old(units), units, list[0], u, start)
    {
      hide Core, NextOk, Returned, Absorbed, OnlyFlagsChange;
      ghost var v, us := V(), units;
      var st, sz := Absorb(u, f, start, size);
      ghost var w := V();
      if u == list[0] && units[u].curPc == st + sz {
        GiveBack(u, st, sz);
        ShrunkReturns(v, w, V(), us, units, u, start, st);
        return;
      }
      PushFreeEntry(st, sz, {st + sz});
      assert {st + sz} - {End(tiles, st)} == {};
      FiledReturns(v, w, V(), units, list[0], u, start, st);
    }

    // -------------------------------------------------------------- freeing and trimming

    /** The unit whose reserved range holds `pc`. */
    method LookupUnit(pc: int, ghost a: int) returns (u: nat)
      requires Consistent() && a in tiles && a <= pc < End(tiles, a)
      ensures u == tiles[a].unit && u in units && u in spans
    {
      ghost var w := tiles[a].unit;
      assert TileOk(tiles, spans, a) && UnitOk(V().spans, units, w);
      assert units[w].startPc <= pc < units[w].reservedEnd;
      u := UnitAt(pc, w);
    }

    method UnitAt(pc: int, ghost w: nat) returns (u: nat)
      requires Consistent() && w in units && units[w].startPc <= pc < units[w].reservedEnd
      ensures u == w
    {
      hide Core, HeadOk, AllAligned;
      assert forall n :: n in units && n != w ==> RangesApart(units[n], units[w]);
      u :| u in units && units[u].startPc <= pc < units[u].reservedEnd;
    }

    /** Returns a slot in transit; the rest of the cache is as sound as before. */
    method ReturnHole(u: nat, f: Ptr, start: int, size: int, ghost holes: set<int>)
      requires Sound(params, V(), units, list, holes, {start + size})
      requires start in holes && start in tiles && tiles[start] == Tile(size, u) && start + size !in holes
      requires kind[start] == Hole(f.ToFrag? && f.frag in frags && frags[f.frag].followsFree)
      requires f.ToFrag? ==> NotPlaced(V(), f.frag)
      requires MIN_SLOT <= size || NextIsFree(V(), start) ||
               (u == list[0] && u in units && units[u].curPc == start + size)
      modifies `mem, `freeList, `lists, `kind, `tiles, `frags, `units, `spans
      ensures Sound(params, V(), units, list, holes - {start}, {})
      ensures Returned(old(V()), V(), old(units), units, list[0], u, start)
      ensures OnlyFlagsChange(old(frags), frags)
      ensures forall g :: g in frags && NotPlaced(old(V()), g) ==> frags[g] == old(frags[g])
      ensures AllStay(old(V()), V())
    {
      ghost var v, us := V(), units;
      assert TileOk(tiles, spans, start) && UnitOk(v.spans, units, u);
      TopIsFree(tiles, spans, u);
      ReturnedRange(v, {start + size}, start);
      hide Core, HeadOk, UnitsOk, AllAligned;
      AddToFreeList(u, f, start, size);
      ReturnedSound(params, v, V(), us, units, list, holes, u, start);
      ReturnedOthers(v, V(), us, units, list[0], u, start);
    }

    /** A fragment of a unit that is being freed as a whole. */
    ghost predicate Doomed(f: nat, u: nat)
      reads this
    {
      f in frags && u in units && units[u].pendingFree && units[u].startPc <= frags[f].startPc < units[u].reservedEnd
    }

    /** Deletes a fragment: frees its slot, unless its whole unit is being freed. */
    method RemoveFragment(f: nat, ghost a: int, ghost w: nat)
      requires Valid() && (At(f, a) || Doomed(f, w))
      modifies this
      ensures Valid() && list == old(list) && toFlush == old(toFlush)
      ensures old(At(f, a)) ==>
                && NotPlaced(V(), f) && OthersStay(old(V()), V(), f)
                && Returned(Vacated(old(V()), a), V(), old(units), units, list[0], old(tiles[a].unit), a)
      ensures !old(At(f, a)) ==> V() == old(V()) && units == old(units)
      ensures OnlyFlagsChange(old(frags), frags) && lazy == old(lazy)
    {
      hide Core, HeadOk, UnitsOk, AllAligned, Returned, Vacated, NotPlaced, OthersStay;
      ghost var n := w;
      if At(f, a) {
        LiveUnit(params, V(), units, list, a, f);
        n := tiles[a].unit;
      }
      var u := UnitAt(frags[f].startPc, n);
      if !units[u].pendingFree {
        FreeFragment(u, f, a);
      }
    }

    method FreeFragment(u: nat, f: nat, ghost a: int)
      requires Valid() && At(f, a) && u == tiles[a].unit
      modifies `mem, `freeList, `lists, `kind, `tiles, `frags, `units, `spans
      ensures Valid() && NotPlaced(V(), f) && OnlyFlagsChange(old(frags), frags)
      ensures OthersStay(old(V()), V(), f)
      ensures Returned(Vacated(old(V()), a), V(), old(units), units, list[0], old(tiles[a].unit), a)
    {
      hide Core, HeadOk, UnitsOk, AllAligned;
      ghost var v, us := V(), units;
      LiveFacts(v, {}, a, f);
      var start, size := HdrStart(frags[f]), SlotSize(frags[f]);
      VacatedSound(params, v, units, list, a);
      kind := kind[a := Hole(Follows(v, a))];
      ghost var w := V();
      assert w == Vacated(v, a);
      VacatedOthers(v, a, f);
      ReturnHole(u, ToFrag(f), start, size, {a});
      LazyKept(v.frags, frags, lazy);
      StayChain(v, w, V(), f);
      assert {a} - {a} == {};
      ReturnedLives(w, V(), us, units, list[0], u, a);
      StillAwaiting(us, units, list, toFlush);
    }

    /** Replaces the record of a fragment by one that describes the same slot. */
    method Rewrite(f: nat, fr: Frag, ghost a: int)
      requires Valid() && At(f, a) && HdrStart(fr) == a && SlotSize(fr) == tiles[a].size
      requires fr.followsFree == frags[f].followsFree && fr.wasDeleted == frags[f].wasDeleted
      requires !fr.freeListBit && 0 <= fr.size && HEADER_SIZE <= fr.extra <= 255
      modifies `frags
      ensures Valid() && At(f, a) && frags == old(frags)[f := fr]
      ensures OnlyRecordChanges(old(frags), frags, f) && OthersStay(old(V()), V(), f)
    {
      hide Core, HeadOk, UnitsOk, AllAligned, OthersStay, OnlyFlagsChange;
      ghost var v := V();
      RerecordedSound(params, v, units, list, a, f, fr);
      frags := frags[f := fr];
      assert V() == Rerecorded(v, f, fr);
      FlagsSame(frags);
      TrimmedRecord(v.frags, frags, fr, f);
    }

    /** Moves a fragment's entry point forward inside its slot, within the header padding. */
    method ShiftStartPc(f: nat, space: int, ghost a: int)
      requires Valid() && At(f, a) && 0 <= space < START_PC_ALIGNMENT
      requires frags[f].shiftStart && StartPadding(frags[f]) == 0 && space <= frags[f].size
      modifies `frags
      ensures Valid() && At(f, a)
      ensures frags[f].startPc == old(frags[f].startPc) + space && frags[f].size == old(frags[f].size) - space
      ensures HdrStart(frags[f]) == old(HdrStart(frags[f])) && SlotSize(frags[f]) == old(SlotSize(frags[f]))
      ensures OthersStay(old(V()), V(), f) && OnlyRecordChanges(old(frags), frags, f)
    {
      hide Core, HeadOk, UnitsOk, AllAligned, OthersStay, LazyOk, OnlyRecordChanges, Awaiting;
      LiveFacts(V(), {}, a, f);
      if space == 0 {
        NothingMoves(V(), f);
        return;
      }
      var fr := frags[f].(startPc := frags[f].startPc + space, size := frags[f].size - space);
      Rewrite(f, fr, a);
    }

    /** Is the slot at `next` a free entry that the excess coalesces with, or is the excess large enough? */
    method TailWorthReturning(next: int, space: int, ghost a: int, ghost u: nat) returns (yes: bool)
      requires Consistent() && a in tiles && tiles[a].unit == u && u in units && u in spans && next == End(tiles, a)
      requires next < units[u].curPc && 0 <= space <= tiles[a].size
      ensures yes <==> (NextIsFree(V(), a) || params.minHole <= space)
    {
      ghost var v := V();
      assert TileOk(tiles, spans, a) && UnitOk(v.spans, units, u);
      assert SlotOk(v, {}, next) && TileOk(tiles, spans, next);
      FirstWordTellsKind(v, {}, next);
      yes := (WordIsFree(frags, mem, mem.first[next]) && space + mem.size[next] <= MAX_UINT) || params.minHole <= space;
    }

    /** Decides whether the last `space` bytes of the fragment's slot can leave it. */
    method CanRelease(u: nat, end: int, space: int, ghost a: int) returns (yes: bool)
      requires Consistent() && a in tiles && tiles[a].unit == u && u in units && u in spans && end == End(tiles, a)
      requires 0 < space <= tiles[a].size
      ensures yes <==> Releases(params, V(), units[u], a, space)
      ensures yes ==> params.minHole <= space || NextIsFree(V(), a) || (u == list[0] && end == units[u].curPc)
      ensures yes && units[u].full && end == units[u].curPc ==> UnitEndHole(params) <= space
      ensures !yes ==> space < UnitEndHole(params)
    {
      ghost var v := V();
      assert TileOk(tiles, spans, a) && UnitOk(v.spans, units, u);
      if end == units[u].endPc {
        yes := UnitEndHole(params) <= space;
      } else if end == units[u].curPc {
        yes := true;
      } else {
        yes := TailWorthReturning(end, space, a, u);
      }
    }

    /** The end of the fragment's slot, already cut off, goes back the way its position calls for. */
    method ReleaseTail(u: nat, start: int, size: int)
      requires Sound(params, V(), units, list, {start}, {start + size})
      requires start in tiles && tiles[start] == Tile(size, u) && kind[start] == Hole(false)
      requires MIN_SLOT <= size || NextIsFree(V(), start) ||
               (u == list[0] && u in units && units[u].curPc == start + size)
      modifies `mem, `freeList, `lists, `kind, `tiles, `frags, `units, `spans
      ensures Consistent()
      ensures Returned(old(V()), V(), old(units), units, list[0], u, start)
      ensures AllStay(old(V()), V())
      ensures OnlyFlagsChange(old(frags), frags)
    {
      ghost var v, us := V(), units;
      assert TileOk(tiles, spans, start) && UnitOk(v.spans, units, u);
      TopIsFree(tiles, spans, u);
      hide Core, HeadOk, UnitsOk, AllAligned;
      assert {start} - {start} == {};
      if u == list[0] && units[u].curPc == start + size {
        GiveBack(u, start, size);
        GivenBack(v, V(), us, units, u, start);
        ReturnedSound(params, v, V(), us, units, list, {start}, u, start);
        ReturnedOthers(v, V(), us, units, list[0], u, start);
      } else {
        ReturnHole(u, Null, start, size, {start});
      }
    }

    method CutTail(f: nat, kept: Frag, n: int, ghost a: int)
      requires At(f, a)
      modifies `frags, `tiles, `kind
      ensures old(At(f, a)) && V() == Trimmed(old(V()), a, kept, n)
    {
      frags := frags[f := kept];
      tiles := Split(tiles, a, n);
      kind := kind[a + n := Hole(false)];
    }

    /** Cuts the fragment's slot after `n` bytes and returns the rest. */
    method TrimSlot(u: nat, f: nat, kept: Frag, n: int, excess: int, ghost a: int)
      requires Valid() && At(f, a) && tiles[a] == Tile(n + excess, u) && u in units && 0 < excess
      requires HdrStart(kept) == a && SlotSize(kept) == n && MIN_SLOT <= n && kept.followsFree == frags[f].followsFree
      requires !kept.freeListBit && 0 <= kept.size && HEADER_SIZE <= kept.extra <= 255 && Aligned(n, params.align)
      requires kept.wasDeleted == frags[f].wasDeleted
      requires MIN_SLOT <= excess || NextIsFree(V(), a) || (u == list[0] && units[u].curPc == a + n + excess)
      requires u == list[0] && units[u].full && a + n + excess == units[u].curPc ==> UnitEndHole(params) <= excess
      modifies `mem, `freeList, `lists, `kind, `tiles, `frags, `units, `spans
      ensures Valid() && At(f, a) && SameButFlag(kept, frags[f]) && tiles[a] == Tile(n, u)
      ensures OnlyRecordChanges(old(frags), frags, f)
      ensures OthersStay(old(V()), V(), f)
      ensures old(LiveAt(V(), a, f))
      ensures Returned(Trimmed(old(V()), a, kept, n), V(), old(units), units, list[0], u, a + n)
    {
      hide Core, HeadOk, UnitsOk, NotElsewhere, NotPlaced, Awaiting;
      ghost var v, us := V(), units;
      LiveFacts(v, {}, a, f);
      TrimmedCore(v, a, kept, n);
      TrimmedSound(params, v, units, list, a, kept, n);
      TrimmedOthers(v, a, kept, n);
      hide Trimmed;
      CutTail(f, kept, n, a);
      ghost var w := V();
      ReleaseTail(u, HdrStart(kept) + n, excess);
      TrimmedRecord(v.frags, frags, kept, f);
      RecordKept(v.frags, frags, lazy, f);
      StayChain(v, w, V(), f);
      assert Stays(w, V(), a, f);
      ReturnedLives(w, V(), us, units, list[0], u, a + n);
      StillAwaiting(us, units, list, toFlush);
    }

    /**
     Gives the last `space` bytes of a fragment back to the cache, as far as alignment and the
     smallest legal slot allow; `given` is the number of bytes that left the slot.
     */
    method ReturnExtraSpace(f: nat, space: int, ghost a: int) returns (given: int)
      requires Valid() && At(f, a) && 0 <= space <= frags[f].size
      modifies this
      ensures Valid() && At(f, a) && list == old(list) && toFlush == old(toFlush)
      ensures OnlyRecordChanges(old(frags), frags, f) && lazy == old(lazy)
      ensures frags[f].size == old(frags[f].size) - space && HdrStart(frags[f]) == a
      ensures 0 <= given && SlotSize(frags[f]) + given == old(SlotSize(frags[f]))
      ensures Aligned(given, params.align) && Fits(params, frags[f])
      ensures OthersStay(old(V()), V(), f)
      ensures old(Fits(params, frags[f]) && a in tiles && tiles[a].unit in units)
      ensures var ret := ExcessOf(params, old(frags[f]), space).returnable;
              given == if old(Releases(params, V(), units[tiles[a].unit], a, ret)) then ret else 0
      ensures given != 0 ==> exists kept: Frag ::
                old(LiveAt(V(), a, f)) &&
                Returned(Trimmed(old(V()), a, kept, tiles[a].size), V(),
                         old(units), units, list[0], tiles[a].unit, a + tiles[a].size)
    {
      hide Core, HeadOk, UnitsOk, ListOk, OthersStay, Returned, NotElsewhere, NotPlaced, Awaiting;
      hide LazyOk, OnlyFlagsChange, OnlyRecordChanges, AllAligned, Trimmed, ExcessAt, Releases, Aligned;
      var u, kept;
      u, given, kept := Surplus(f, space, a);
      if given > 0 {
        TrimSlot(u, f, kept, SlotSize(kept), given, a);
      } else {
        Rewrite(f, kept, a);
      }
      LiveFits(params, V(), a, f);
      LiveFacts(V(), {}, a, f);
    }

    /** How many bytes a shortened fragment gives back, and its record afterwards. */
    method Surplus(f: nat, space: int, ghost a: int) returns (u: nat, given: int, kept: Frag)
      requires Valid() && At(f, a) && 0 <= space <= frags[f].size
      ensures a in tiles && u == tiles[a].unit && u in units
      ensures Fits(params, frags[f]) && SlotSize(frags[f]) == tiles[a].size
      ensures var ret := ExcessOf(params, frags[f], space).returnable;
              given == if Releases(params, V(), units[u], a, ret) then ret else 0
      ensures 0 <= given && Aligned(given, params.align) && Aligned(SlotSize(kept), params.align)
      ensures HdrStart(kept) == a && SlotSize(kept) == tiles[a].size - given && MIN_SLOT <= SlotSize(kept)
      ensures kept == frags[f].(size := frags[f].size - space, extra := kept.extra) && HEADER_SIZE <= kept.extra <= 255
      ensures !kept.freeListBit
      ensures given > 0 ==> MIN_SLOT <= given || NextIsFree(V(), a) ||
                            (u == list[0] && units[u].curPc == a + tiles[a].size)
      ensures given > 0 && u == list[0] && units[u].full && a + tiles[a].size == units[u].curPc ==>
                UnitEndHole(params) <= given
    {
      hide Core, HeadOk, UnitsOk, ListOk, NotElsewhere, NotPlaced, Awaiting, LazyOk, AllAligned, ExcessAt;
      ghost var v := V();
      LiveFacts(v, {}, a, f);
      LiveFits(params, v, a, f);
      var fr := frags[f];
      u := LookupUnit(fr.startPc, a);
      var e := ExcessOf(params, fr, space);
      var released := false;
      if e.returnable > 0 {
        released := CanRelease(u, HdrStart(fr) + SlotSize(fr), e.returnable, a);
      }
      given := if released then e.returnable else 0;
      kept := Resized(fr.(size := fr.size - space), SlotSize(fr) - given);
      ShorterFits(params, fr, space, SlotSize(fr) - given);
    }

    // -------------------------------------------------------------- placing a fragment

    /** First-fit search: the request's own bucket first, then the larger ones. */
    method FindEntry(size: int) returns (found: bool, k: int, a: int)
      requires Core(V(), {}) && 0 <= size
      ensures found ==> exists i :: FirstFit(V(), size, k, i) && lists[k][i] == a
      ensures !found ==> forall x :: !Suits(V(), size, x)
    {
      ghost var v := V();
      k := FindFreeListBucket(size);
      found, a := false, 0;
      forall m, j | 0 <= m < k && 0 <= j < |lists[m]| ensures !Suits(v, size, lists[m][j]) {
        LowerBucketsTooSmall(v, size, m, j);
      }
      while k < BUCKETS
        invariant 0 <= k <= BUCKETS
        invariant forall m, j :: 0 <= m < k && 0 <= j < |lists[m]| ==> !Suits(v, size, lists[m][j])
      {
        var header := freeList[k];
        ghost var i := 0;
        if 0 < |lists[k]| {
          assert lists[k][0] in lists[k] && SlotOk(v, {}, lists[k][0]);
        }
        while header != Null && mem.size[header.pc] < size
          invariant 0 <= i <= |lists[k]| && header == LinkTo(lists[k], i)
          invariant header != Null ==>
                    && header.pc in tiles && kind[header.pc].Free?
                    && header.pc in mem.size && mem.size[header.pc] == tiles[header.pc].size
          invariant forall j :: 0 <= j < i ==> !Suits(v, size, lists[k][j])
          decreases |lists[k]| - i
        {
          assert Node(lists[k], mem.first, mem.prev, i);
          header := mem.first[header.pc];
          i := i + 1;
          if i < |lists[k]| {
            assert lists[k][i] in lists[k] && SlotOk(v, {}, lists[k][i]);
          }
        }
        if header != Null {
          found, a := true, header.pc;
          assert FirstFit(v, size, k, i);
          return;
        }
        k := k + 1;
      }
      forall x ensures !Suits(v, size, x) {
        if Suits(v, size, x) {
          assert BelongsIn(v, Bucket(tiles[x].size), x);
        }
      }
    }

    /** Takes a free slot off its list; it is now in transit. */
    method TakeEntry(k: int, a: int)
      requires Consistent() && a in tiles && kind[a].Free? && k == Bucket(tiles[a].size)
      modifies `mem, `freeList, `lists, `kind
      ensures Sound(params, V(), units, list, {a}, {End(tiles, a)})
      ensures kind == old(kind)[a := Hole(false)]
      ensures End(tiles, a) in tiles ==> kind[End(tiles, a)].Live?
      ensures MIN_SLOT <= tiles[a].size && tiles[a].unit in spans && tiles[a].unit in units
      ensures tiles[a].unit == list[0] ==> units[list[0]].curPc != End(tiles, a)
      ensures units[tiles[a].unit].curPc > End(tiles, a) <==> End(tiles, a) in tiles
      ensures mem.size == old(mem.size)
    {
      ghost var v := V();
      RemoveFromFreeList(k, a, {});
      assert {} + {End(tiles, a)} == {End(tiles, a)};
      UnfiledSound(params, v, units, list, a, V());
    }

    /** Keeps `size` bytes of the slot in transit and files the rest as a free slot of its own. */
    method SplitEntry(u: nat, a: int, size: int, rest: int)
      requires a in tiles && Sound(params, V(), units, list, {a}, {End(tiles, a)})
      requires tiles[a] == Tile(size + rest, u) && kind[a] == Hole(false) && Aligned(size, params.align)
      requires 0 < size && MIN_SLOT <= rest && u in units && u in spans
      requires End(tiles, a) in tiles ==> kind[End(tiles, a)].Live?
      requires u == list[0] ==> units[u].curPc != End(tiles, a)
      modifies `mem, `freeList, `lists, `kind, `tiles, `frags, `units, `spans
      ensures Sound(params, V(), units, list, {a}, {})
      ensures tiles == Split(old(tiles), a, size) && kind == old(kind)[a + size := Free]
      ensures spans == old(spans) && units == old(units) && OnlyFlagsChange(old(frags), frags)
      ensures forall g :: g in frags && NotPlaced(old(V()), g) ==> frags[g] == old(frags[g])
      ensures AllStay(old(V()), V())
    {
      hide Core, HeadOk, UnitsOk, Returned, AllStay, AllAligned;
      ghost var v, us := V(), units;
      CutSound(params, v, units, list, a, size);
      tiles := Split(tiles, a, size);
      kind := kind[a + size := Hole(false)];
      ghost var w := V();
      assert w == Cut(v, a, size);
      ReturnHole(u, Null, a + size, rest, {a, a + size});
      RestFiled(w, V(), us, units, list[0], u, a + size);
      assert {a, a + size} - {a + size} == {a};
      AllStayChain(v, w, V());
    }

    /** The whole entry is taken: the fragment after it no longer follows a free entry. */
    method UnmarkNext(u: nat, a: int, size: int)
      requires a in tiles && Sound(params, V(), units, list, {a}, {End(tiles, a)})
      requires tiles[a] == Tile(size, u) && u in units
      requires End(tiles, a) in tiles ==> kind[End(tiles, a)].Live?
      requires units[u].curPc > End(tiles, a) <==> End(tiles, a) in tiles
      modifies `frags
      ensures Sound(params, V(), units, list, {a}, {}) && OnlyFlagsChange(old(frags), frags)
      ensures forall g :: g in frags && NotPlaced(old(V()), g) ==> frags[g] == old(frags[g])
      ensures AllStay(old(V()), V())
    {
      ghost var v := V();
      var e := a + size;
      if units[u].curPc > e {
        assert SlotOk(v, {e}, e);
        var g := mem.first[e].frag;
        frags := frags[g := frags[g].(followsFree := false)];
        assert V() == Flagged(v, e, false);
        FlaggedCore(v, {e}, a, e, false);
        assert {e} - {e} == {};
      } else {
        CoreExempt(v, {e}, {});
      }
      hide Core;
      forall x | x in tiles ensures EdgeOk(params, V(), units[list[0]], list[0], x) {
        assert EdgeOk(params, v, units[list[0]], list[0], x);
      }
      forall x, g ensures Stays(v, V(), x, g) {
      }
    }

    /** Writes the back pointer and the record: the slot in transit now holds `f`. */
    method PlaceFragment(f: nat, a: int, size: int, slot: int)
      requires Sound(params, V(), units, list, {a}, {}) && a in tiles && kind[a] == Hole(false)
      requires f in frags && NotPlaced(V(), f) && Request(params, frags[f], size)
      requires tiles[a].size == slot && size <= slot < size + 128
      modifies `mem, `frags, `kind
      ensures Consistent() && At(f, a) && kind == old(kind)[a := Live(f)]
      ensures frags == old(frags)[f := Placed(old(frags[f]), a, slot)] && OnlyRecordChanges(old(frags), frags, f)
      ensures OthersStay(old(V()), V(), f)
    {
      ghost var v := V();
      hide Core, HeadOk, UnitsOk;
      PlacedFits(params, frags[f], size, a, slot);
      mem := mem.(first := mem.first[a := ToFrag(f)]);
      frags := frags[f := Placed(frags[f], a, slot)];
      kind := kind[a := Live(f)];
      assert V() == Settled(v, a, f, frags[f]);
      SettledSound(params, v, units, list, a, f, frags[f]);
    }

    /** Tries to place `f` in a free slot. */
    method FindFreeListSlot(f: nat, size: int) returns (found: bool, ghost a: int)
      requires Consistent() && f in frags && NotPlaced(V(), f) && Request(params, frags[f], size)
      modifies `mem, `freeList, `lists, `kind, `tiles, `frags, `units, `spans
      ensures !found ==> NoneSuits(V(), size) && V() == old(V()) && units == old(units)
      ensures found ==> Consistent() && Reused(params, old(V()), V(), f, size, a) && units == old(units)
      ensures found ==> !NoneSuits(old(V()), size) && FitsFirst(old(V()), size, a)
      ensures found ==> frags[f] == Placed(old(frags[f]), a, tiles[a].size) && OthersStay(old(V()), V(), f)
      ensures found ==> OnlyRecordChanges(old(frags), frags, f)
    {
      ghost var v := V();
      var k, entry;
      found, k, entry := FindEntry(size);
      a := entry;
      if !found { return; }
      ghost var i :| FirstFit(v, size, k, i) && lists[k][i] == a;
      assert BelongsIn(v, k, a) && SlotOk(v, {}, a);
      TakeSlot(f, size, k, entry);
    }

    /** The entry at `a` is large enough: use it, splitting off what is worth keeping. */
    method TakeSlot(f: nat, size: int, k: int, a: int)
      requires Consistent() && f in frags && NotPlaced(V(), f) && Request(params, frags[f], size)
      requires Suits(V(), size, a) && k == Bucket(tiles[a].size) && a in mem.size && mem.size[a] == tiles[a].size
      modifies `mem, `freeList, `lists, `kind, `tiles, `frags, `units, `spans
      ensures Consistent() && Reused(params, old(V()), V(), f, size, a) && units == old(units)
      ensures frags[f] == Placed(old(frags[f]), a, tiles[a].size) && OthersStay(old(V()), V(), f)
      ensures OnlyRecordChanges(old(frags), frags, f)
    {
      hide Core, HeadOk, UnitsOk, AllStay, OthersStay, Aligned, AllAligned;
      ghost var v := V();
      var u := LookupUnit(a, a);
      TakeEntry(k, a);
      ghost var w := V();
      UnfiledStays(v, w, a);
      FillEntry(u, f, size, a, mem.size[a]);
      StayThenPlace(v, w, V(), f);
    }

    /** Places `f` in the slot in transit, whole or split. */
    method FillEntry(u: nat, f: nat, size: int, a: int, free: int)
      requires a in tiles && Sound(params, V(), units, list, {a}, {End(tiles, a)})
      requires tiles[a] == Tile(free, u) && kind[a] == Hole(false) && u in units && u in spans && size <= free
      requires f in frags && NotPlaced(V(), f) && Request(params, frags[f], size)
      requires End(tiles, a) in tiles ==> kind[End(tiles, a)].Live?
      requires u == list[0] ==> units[u].curPc != End(tiles, a)
      requires units[u].curPc > End(tiles, a) <==> End(tiles, a) in tiles
      modifies `mem, `freeList, `lists, `kind, `tiles, `frags, `units, `spans
      ensures Consistent() && At(f, a) && units == old(units) && spans == old(spans)
      ensures if free - size > params.minHole then
                tiles == Split(old(tiles), a, size) && kind == old(kind)[a := Live(f)][a + size := Free]
              else tiles == old(tiles) && kind == old(kind)[a := Live(f)]
      ensures frags[f] == Placed(old(frags[f]), a, tiles[a].size) && OthersStay(old(V()), V(), f)
      ensures OnlyRecordChanges(old(frags), frags, f)
    {
      hide Core, HeadOk, UnitsOk, AllStay, OthersStay, AllAligned, OnlyRecordChanges;
      ghost var v := V();
      var freeSize := free;
      if freeSize - size > params.minHole {
        SplitEntry(u, a, size, freeSize - size);
        freeSize := size;
      } else {
        UnmarkNext(u, a, freeSize);
      }
      ghost var w := V();
      PlaceFragment(f, a, size, freeSize);
      RecordAfterFlags(v.frags, w.frags, frags, f);
      StayThenPlace(v, w, V(), f);
    }

    /**
     Claims `size` bytes at the end of a unit, eating a remainder too small to keep.  With
     `restEmpty` the unit is sealed: everything left becomes one free slot.
     */
    method ExtendUnitEnd(u: nat, size: int, restEmpty: bool) returns (extra: int)
      requires u in units && 0 <= size && units[u].curPc + size <= units[u].endPc
      requires restEmpty ==> size == 0 && Consistent() && u == list[0]
      modifies `mem, `freeList, `lists, `kind, `tiles, `frags, `units, `spans
      ensures !restEmpty ==> extra == Eaten(params, old(units[u]), size) && V() == old(V())
      ensures !restEmpty ==> units == old(units)[u := Claimed(params, old(units[u]), size)]
      ensures restEmpty ==> extra == 0 && Sealed(params, V(), units, list) && AllStay(old(V()), V())
      ensures restEmpty ==> units == old(units)[u := old(units[u]).(curPc := old(units[u].endPc), full := true)]
      ensures restEmpty ==> OnlyFlagsChange(old(frags), frags)
      ensures restEmpty ==>
                forall n :: old(units[u].endPc - units[u].curPc) < n && NoneSuits(old(V()), n) ==> NoneSuits(V(), n)
      ensures restEmpty ==> forall g :: g in frags && NotPlaced(old(V()), g) ==> frags[g] == old(frags[g])
    {
      ghost var v := V();
      extra := 0;
      if restEmpty && units[u].endPc - units[u].curPc >= UnitEndHole(params) {
        SealRest(u);
        return;
      }
      if restEmpty {
        FullIsSealed(params, v, units, list);
        forall a, g ensures Stays(v, v, a, g) {
        }
      }
      units := units[u := units[u].(curPc := units[u].curPc + size)];
      var left := units[u].endPc - units[u].curPc;
      if left < UnitEndHole(params) {
        units := units[u := units[u].(full := true)];
        if left > 0 {
          extra := left;
          units := units[u := units[u].(curPc := units[u].curPc + extra)];
        }
      }
      assert restEmpty ==> units == old(units);
    }

    /** The unit's slots grow by a slot in transit. */
    ghost method GrowHole(u: nat, n: int)
      requires u in spans
      modifies `kind, `tiles, `spans
      ensures V() == Grown(old(V()), u, n)
    {
      kind := kind[spans[u].hi := Hole(false)];
      tiles := Append(tiles, spans, u, n);
      spans := Raise(spans, u, spans[u].hi + n);
    }

    /** The rest of the current unit becomes a free slot; cur_pc is not moved yet. */
    method FileRest(u: nat, cur: int, left: int)
      requires Core(V(), {}) && u in units && u in spans && list != [] && units[u].curPc == cur == spans[u].hi
      requires Core(Grown(V(), u, left), {}) && MIN_SLOT <= left && spans[u].limit - spans[u].lo <= MAX_UINT
      requires cur + left !in Grown(V(), u, left).tiles && cur + left !in Grown(V(), u, left).kind
      modifies `mem, `freeList, `lists, `kind, `tiles, `frags, `units, `spans
      ensures Core(V(), {}) && units == old(units) && u in old(spans)
      ensures Returned(Grown(old(V()), u, left), V(), units, units, list[0], u, cur)
      ensures OnlyFlagsChange(old(frags), frags)
      ensures forall g :: g in frags && NotPlaced(old(V()), g) ==> frags[g] == old(frags[g])
    {
      hide Core;
      ghost var us := units;
      GrowHole(u, left);
      ghost var w := V();
      CoreExempt(w, {}, {cur + left});
      AddToFreeList(u, Null, cur, left);
      RestFiled(w, V(), us, units, list[0], u, cur);
    }

    /** Files the whole rest of the current unit as a free slot, then moves cur_pc to the end. */
    method SealRest(u: nat)
      requires Consistent() && u == list[0] && u in units && UnitEndHole(params) <= units[u].endPc - units[u].curPc
      modifies `mem, `freeList, `lists, `kind, `tiles, `frags, `units, `spans
      ensures Sealed(params, V(), units, list) && AllStay(old(V()), V())
      ensures units == old(units)[u := old(units[u]).(curPc := old(units[u].endPc), full := true)]
      ensures OnlyFlagsChange(old(frags), frags)
      ensures forall n :: old(units[u].endPc - units[u].curPc) < n && NoneSuits(old(V()), n) ==> NoneSuits(V(), n)
      ensures forall g :: g in frags && NotPlaced(old(V()), g) ==> frags[g] == old(frags[g])
    {
      hide Core, HeadOk, UnitsOk, AllAligned, Returned, AllStay, Sealed;
      ghost var v := V();
      RestGrown(params, v, units, u);
      var left := units[u].endPc - units[u].curPc;
      FileRest(u, units[u].curPc, left);
      SealSound(params, v, V(), units, list, u);
      forall n | left < n && NoneSuits(v, n) ensures NoneSuits(V(), n) {
        RestSuits(v, Grown(v, u, left), V(), units, u, left, n);
      }
      units := units[u := units[u].(curPc := units[u].curPc + left, full := true)];
    }

    /** Appends `f` at the end of the current unit, eating a remainder too small to keep. */
    method AppendFragment(f: nat, size: int)
      requires Consistent() && f in frags && NotPlaced(V(), f) && Request(params, frags[f], size)
      requires list[0] in units && !units[list[0]].full && units[list[0]].curPc + size <= units[list[0]].endPc
      modifies `mem, `freeList, `lists, `kind, `tiles, `frags, `units, `spans
      ensures Consistent() && list[0] in old(units)
      ensures var n := old(units)[list[0]];
              && At(f, n.curPc) && tiles[n.curPc].size == size + Eaten(params, n, size)
              && frags[f] == Placed(old(frags[f]), n.curPc, tiles[n.curPc].size)
              && units == old(units)[list[0] := Claimed(params, n, size)]
      ensures OnlyRecordChanges(old(frags), frags, f)
      ensures OthersStay(old(V()), V(), f)
    {
      hide Core, HeadOk, UnitsOk, AllAligned, AllStay, OthersStay, Aligned;
      ghost var v, us := V(), units;
      var u := list[0];
      var a := units[u].curPc;
      assert u in spans;
      var extra := ExtendUnitEnd(u, size, false);
      GrowHole(u, size + extra);
      ghost var w := V();
      GrownSound(params, v, w, us, units, list, u, size);
      GrownStays(v, w, u, size + extra);
      PlaceFragment(f, a, size, size + extra);
      StayThenPlace(v, w, V(), f);
    }

    /** Commits more of the current unit's reservation; doubles the amount until the slot would fit. */
    method ExtendCommitment(u: nat, size: int)
      requires Consistent() && u == list[0] && u in units && units[u].endPc < units[u].reservedEnd
      requires 0 < size && units[u].endPc < units[u].curPc + size
      modifies `units, ws`size
      ensures Consistent()
      ensures var n, end := old(units[u]), units[u].endPc;
              && Commits(params, n, n.curPc + size - n.endPc, end) && n.endPc < end <= n.reservedEnd
              && units == old(units)[u := n.(endPc := end, full := false)]
              && (n.curPc + size <= end || end == n.reservedEnd)
      ensures ws.size == old(ws.size) + (units[u].endPc - old(units[u].endPc))
    {
      hide Core, UnitsOk, HeadOk, AllAligned;
      ghost var v := V();
      HeadFacts(params, v, units, u);
      var commit := CommitSize(params, units[u].curPc + size - units[u].endPc);
      AlignedSum(units[u].endPc, commit, PAGE_SIZE);
      if units[u].endPc + commit > units[u].reservedEnd {
        commit := units[u].reservedEnd - units[u].endPc;
        AlignedSum(units[u].reservedEnd, units[u].endPc, PAGE_SIZE);
      }
      CommittedSound(params, v, units, list, units[u].endPc + commit);
      units := units[u := units[u].(endPc := units[u].endPc + commit, full := false)];
      ws.size := ws.size + commit;
    }

    /** Maps a new unit and makes it the current one. */
    method StartUnit(size: int, s: Supply, rest: seq<nat>)
      requires Sealed(params, V(), units, list) && rest <= list && PAGE_SIZE <= size
      requires Unmapped(units, s) && Supplies(params, size, s)
      modifies `units, `spans, `list, ws`size
      ensures Consistent() && list == [s.id] + rest && units == old(units)[s.id := NewUnit(s)]
      ensures AllStay(old(V()), V()) && (forall n :: NoneSuits(old(V()), n) ==> NoneSuits(V(), n))
      ensures ws.size == old(ws.size) + (s.endPc - s.startPc)
    {
      hide Core, UnitsOk, HeadOk;
      ghost var v := V();
      NewHeadSound(params, v, units, list, rest, s, size);
      units := units[s.id := NewUnit(s)];
      spans := spans[s.id := Span(s.startPc, s.startPc, s.reservedEnd)];
      assert V() == WithUnit(v, s.id, s.startPc, s.reservedEnd);
      list := [s.id] + rest;
      ws.size := ws.size + (s.endPc - s.startPc);
      forall a, g ensures Stays(v, V(), a, g) {
      }
      forall n | NoneSuits(v, n) ensures NoneSuits(V(), n) {
        assert forall x :: Suits(V(), n, x) ==> Suits(v, n, x);
      }
    }

    /** The working-set state once a new unit is to be started: tested if the cache is finite, counters cleared. */
    ghost function Restarted(g: Gauge): Gauge {
      (if ws.finite then ws.Checked(g, 0) else g).(counters := Counters(0, 0))
    }

    /** A finite cache whose ratio does not warrant growth hands its oldest unit over for flushing. */
    method RetireOldest() returns (rest: seq<nat>)
      requires list != []
      modifies `toFlush, ws
      ensures if ws.finite && !old(ws.Warranted(0))
              then rest == list[..|list| - 1] && toFlush == [list[|list| - 1]] + old(toFlush)
              else rest == list && toFlush == old(toFlush)
      ensures ws.Now() == Restarted(old(ws.Now()))
    {
      rest := list;
      if ws.finite {
        var grow := ws.CheckRegenReplaceRatio(0);
        if !grow {
          toFlush := [rest[|rest| - 1]] + toFlush;
          rest := rest[..|rest| - 1];
        }
      }
      ws.replaced, ws.regenerated := 0, 0;
    }

    /** Everything that trying for more space leaves alone. */
    twostate predicate Undisturbed()
      reads this
    {
      && AllStay(old(V()), V()) && OnlyFlagsChange(old(frags), frags)
      && (forall g :: g in frags && NotPlaced(old(V()), g) ==> frags[g] == old(frags[g])) && lazy == old(lazy)
    }

    /** Committed bytes plus what the current unit may still commit. */
    ghost function Potential(): int
      requires list != [] && list[0] in units
      reads this, ws
    {
      ws.size + (units[list[0]].reservedEnd - units[list[0]].endPc)
    }

    /** No free slot suits the request and the current unit's reservation does not hold it. */
    ghost predicate Outgrown(size: int)
      requires list != [] && list[0] in units
      reads this
    {
      NoneSuits(V(), size) && units[list[0]].curPc + size > units[list[0]].reservedEnd
    }

    /** A new unit started now, after committing all of the current one, would retire the oldest. */
    ghost predicate Retires()
      requires list != [] && list[0] in units
      reads this, ws
    {
      ws.finite && !ws.WarrantedAt(ws.Now().(size := Potential()), 0)
    }

    /** What may be committed has grown by the supplied unit, or not, and the working-set test was made, or not. */
    ghost predicate Extended(grown: bool, bytes: int, g: Gauge, s: Supply)
      requires list != [] && list[0] in units
      reads this, ws
    {
      && Potential() == bytes + (if grown then s.reservedEnd - s.startPc else 0)
      && ws.Now() == (if grown then Restarted(g.(size := bytes)) else g).(size := ws.size)
    }

    /** Makes room for a slot that does not fit: commits more, or seals the unit and starts another. */
    method TryForMoreSpace(size: int, s: Supply)
      requires Valid() && MIN_SLOT <= size <= 0x1_0000 + 91
      requires list[0] in units && units[list[0]].endPc < units[list[0]].curPc + size
      requires units[list[0]].curPc + size > units[list[0]].reservedEnd ==>
                 Unmapped(units, s) && Supplies(params, NewSize(params, size), s)
      modifies this, ws
      ensures Valid() && Undisturbed()
      ensures old(units[list[0]].curPc) + size <= old(units[list[0]].reservedEnd) ==>
                && list == old(list) && units.Keys == old(units).Keys && toFlush == old(toFlush)
                && !units[list[0]].full && units[list[0]].curPc + size <= units[list[0]].endPc
                && units[list[0]].curPc == old(units[list[0]].curPc)
                && Potential() == old(Potential()) && ws.Now() == old(ws.Now()).(size := ws.size)
      ensures NoneSuits(old(V()), size) ==> NoneSuits(V(), size)
      ensures old(units[list[0]].curPc) + size > old(units[list[0]].reservedEnd) ==>
                && units.Keys == old(units).Keys + {s.id} && units[s.id] == NewUnit(s)
                && NewInFront(old(list), old(toFlush), list, toFlush, s.id, old(Retires()))
                && ws.Now() == Restarted(old(ws.Now().(size := Potential()))).(size := ws.size)
                && ws.size == old(Potential()) + (s.endPc - s.startPc)
    {
      hide Core, UnitsOk, HeadOk, AllAligned, AllStay, Sealed, NotPlaced, Aligned, Awaiting, SameLives, NewInFront;
      hide NoneSuits, LazyOk, OnlyFlagsChange;
      ghost var v, us := V(), units;
      FlagsSame(frags);
      var u := list[0];
      HeadFacts(params, v, units, u);
      StayReflexive(v);
      if units[u].endPc < units[u].reservedEnd {
        ExtendCommitment(u, size);
        CommitLives(us, units, u);
        StillAwaiting(us, units, list, toFlush);
        if units[u].curPc + size <= units[u].endPc {
          return;
        }
      }
      AnotherUnit(NewSize(params, size), s);
    }

    /** Seals the current unit, retires the oldest one if the working set asks for it, and starts another. */
    method AnotherUnit(size: int, s: Supply)
      requires Valid() && list[0] in units && units[list[0]].curPc <= units[list[0]].endPc
      requires PAGE_SIZE <= size && Unmapped(units, s) && Supplies(params, size, s)
      modifies this, ws
      ensures Valid() && Undisturbed()
      ensures units.Keys == old(units).Keys + {s.id} && units[s.id] == NewUnit(s)
      ensures NewInFront(old(list), old(toFlush), list, toFlush, s.id, ws.finite && !old(ws.Warranted(0)))
      ensures forall n :: NoneSuits(old(V()), n) && old(units[list[0]].endPc - units[list[0]].curPc) < n ==>
                          NoneSuits(V(), n)
      ensures ws.Now() == Restarted(old(ws.Now())).(size := old(ws.size) + (s.endPc - s.startPc))
    {
      hide Core, UnitsOk, HeadOk, AllAligned, AllStay, Sealed, NotPlaced, Aligned, Awaiting, NoneSuits;
      hide LazyOk, OnlyFlagsChange, NewInFront;
      ghost var v, us := V(), units;
      ListLives(params, v, units, list);
      var _ := ExtendUnitEnd(list[0], 0, true);
      ghost var w := V();
      LazyKept(v.frags, frags, lazy);
      Renew(size, s);
      AllStayChain(v, w, V());
      NewInFrontAwaiting(us, units, old(list), old(toFlush), list, toFlush, s.id, ws.finite && !old(ws.Warranted(0)));
    }

    /** Retires the oldest unit if the working set asks for it, and starts another. */
    method Renew(size: int, s: Supply)
      requires Sealed(params, V(), units, list) && PAGE_SIZE <= size && Unmapped(units, s) && Supplies(params, size, s)
      requires list != []
      modifies `units, `spans, `list, `toFlush, ws
      ensures Consistent() && units == old(units)[s.id := NewUnit(s)] && AllStay(old(V()), V())
      ensures forall n :: NoneSuits(old(V()), n) ==> NoneSuits(V(), n)
      ensures NewInFront(old(list), old(toFlush), list, toFlush, s.id, ws.finite && !old(ws.Warranted(0)))
      ensures ws.Now() == Restarted(old(ws.Now())).(size := old(ws.size) + (s.endPc - s.startPc))
    {
      hide Core, UnitsOk, HeadOk, AllAligned, AllStay, Sealed, Aligned, NoneSuits;
      var rest := RetireOldest();
      assert [] + old(toFlush) == old(toFlush);
      StartUnit(size, s, rest);
    }

    /**
     Places `f`: in a free slot, at the end of the current unit, or after making more space.
     `stage` bounds the retries: at stage 1 the current unit's reservation holds the slot, at
     stage 0 its committed part does.
     */
    method AddFragmentCommon(f: nat, size: int, s: Supply, ghost stage: nat) returns (ghost a: int, ghost retries: nat)
      requires Valid() && f in frags && NotPlaced(V(), f) && Request(params, frags[f], size)
      requires list[0] in units
      requires stage == 0 ==> !units[list[0]].full && units[list[0]].curPc + size <= units[list[0]].endPc
      requires stage == 1 ==> units[list[0]].curPc + size <= units[list[0]].reservedEnd
      requires stage >= 2 ==> stage == 2 && Unmapped(units, s) && Supplies(params, NewSize(params, size), s)
      modifies this, ws
      ensures Valid() && At(f, a) && retries <= stage && Goes(old(V()), old(units[list[0]]), size, s, a)
      ensures frags[f] == Placed(old(frags[f]), a, tiles[a].size) && size <= tiles[a].size < size + 128
      ensures OthersStay(old(V()), V(), f) && OnlyRecordChanges(old(frags), frags, f) && lazy == old(lazy)
      ensures if old(Outgrown(size)) then NewInFront(old(list), old(toFlush), list, toFlush, s.id, old(Retires()))
              else list == old(list) && toFlush == old(toFlush)
      ensures list != [] && list[0] in units && Extended(old(Outgrown(size)), old(Potential()), old(ws.Now()), s)
      decreases stage, 1
    {
      hide Core, UnitsOk, HeadOk, AllAligned, AllStay, OthersStay, Aligned, Awaiting, SameLives, NewInFront;
      hide NoneSuits, FitsFirst, Goes, LazyOk, OnlyFlagsChange, OnlyRecordChanges;
      retries := 0;
      ghost var v, us := V(), units;
      var u := list[0];
      HeadFacts(params, v, units, u);
      var found;
      found, a := FindFreeListSlot(f, size);
      if found {
        RecordKept(v.frags, frags, lazy, f);
        GoesNow(v, us[u], size, s, a);
        return;
      }
      if !units[u].full && units[u].endPc - units[u].curPc >= size {
        a := units[u].curPc;
        AppendFragment(f, size);
        ClaimedLives(params, us, units, u, size);
        StillAwaiting(us, units, list, toFlush);
        RecordKept(v.frags, frags, lazy, f);
        GoesNow(v, us[u], size, s, a);
        return;
      }
      a, retries := GrowAndRetry(f, size, s, stage);
    }

    /** Makes more space and starts over. */
    method GrowAndRetry(f: nat, size: int, s: Supply, ghost stage: nat) returns (ghost a: int, ghost retries: nat)
      requires Valid() && f in frags && NotPlaced(V(), f) && Request(params, frags[f], size)
      requires list[0] in units && units[list[0]].endPc < units[list[0]].curPc + size && NoneSuits(V(), size)
      requires stage == 1 || stage == 2
      requires stage == 1 ==> units[list[0]].curPc + size <= units[list[0]].reservedEnd
      requires stage == 2 ==> Unmapped(units, s) && Supplies(params, NewSize(params, size), s)
      modifies this, ws
      ensures Valid() && At(f, a) && retries <= stage && Goes(old(V()), old(units[list[0]]), size, s, a)
      ensures frags[f] == Placed(old(frags[f]), a, tiles[a].size) && size <= tiles[a].size < size + 128
      ensures OthersStay(old(V()), V(), f) && OnlyRecordChanges(old(frags), frags, f) && lazy == old(lazy)
      ensures if old(Outgrown(size)) then NewInFront(old(list), old(toFlush), list, toFlush, s.id, old(Retires()))
              else list == old(list) && toFlush == old(toFlush)
      ensures list != [] && list[0] in units && Extended(old(Outgrown(size)), old(Potential()), old(ws.Now()), s)
      decreases stage, 0
    {
      hide Core, UnitsOk, HeadOk, AllAligned, AllStay, OthersStay, Aligned, Awaiting, SameLives, NewInFront;
      hide NoneSuits, FitsFirst, Goes, LazyOk, OnlyRecordChanges;
      ghost var v, n := V(), units[list[0]];
      ghost var fits := n.curPc + size <= n.reservedEnd;
      HeadFacts(params, v, units, list[0]);
      TryForMoreSpace(size, s);
      ghost var w := V();
      StillNotPlaced(v, w, f);
      if !fits { FrontIs(old(list), old(toFlush), list, toFlush, s.id, old(Retires())); }
      HeadFacts(params, w, units, list[0]);
      ghost var m := units[list[0]];
      a, retries := AddFragmentCommon(f, size, s, if fits then 0 else 1);
      retries := retries + 1;
      GoesLater(v, w, n, m, size, s, a);
      RecordAfterFlags(v.frags, w.frags, frags, f);
      StayThenPlace(v, w, V(), f);
    }

    /** A cache that counts counts every placement, and apart from that the regenerated fragments. */
    ghost function Tallied(c: Counters, counting: bool, regenerated: bool): Counters {
      if !counting then c
      else Counters(c.replaced + 1, if regenerated then c.regenerated + 1 else c.regenerated)
    }

    /**
     Adds a fragment to the cache.  It always ends up in exactly one slot, at most two retries
     are needed, and no other fragment moves; a unit joins the list exactly if no free slot and no
     reservation serves, and then the oldest is handed over for flushing exactly if the working
     set does not warrant growth.
     */
    method AddFragment(f: nat, s: Supply, regenerated: bool) returns (ghost a: int, ghost retries: nat)
      requires Valid() && f in frags && NotPlaced(V(), f)
      requires !frags[f].followsFree && !frags[f].freeListBit && 0 <= frags[f].size <= 0xFFFF
      requires Unmapped(units, s) && Supplies(params, NewSize(params, SlotFor(params, frags[f].size)), s)
      modifies this, ws
      ensures Valid() && At(f, a) && retries <= 2
      ensures frags[f].size == old(frags[f].size) && HdrStart(frags[f]) == a && SlotSize(frags[f]) == tiles[a].size
      ensures SlotFor(params, frags[f].size) <= SlotSize(frags[f]) < SlotFor(params, frags[f].size) + 128
      ensures OthersStay(old(V()), V(), f) && OnlyRecordChanges(old(frags), frags, f) && lazy == old(lazy)
      ensures old(list[0] in units) && list[0] in units
      ensures if old(Outgrown(SlotFor(params, frags[f].size)))
              then NewInFront(old(list), old(toFlush), list, toFlush, s.id, old(Retires()))
              else list == old(list) && toFlush == old(toFlush)
      ensures Goes(old(V()), old(units[list[0]]), SlotFor(params, frags[f].size), s, a)
      ensures var grown, bytes := old(Outgrown(SlotFor(params, frags[f].size))), old(Potential());
              var g := if grown then Restarted(old(ws.Now()).(size := bytes)) else old(ws.Now());
              && Potential() == bytes + (if grown then s.reservedEnd - s.startPc else 0)
              && ws.Now() == g.(size := ws.size, counters := Tallied(g.counters, g.recordWset, regenerated))
    {
      hide Core, UnitsOk, HeadOk, AllAligned, AllStay, OthersStay, Aligned, Awaiting, NewInFront, Goes, NoneSuits;
      hide LazyOk, OnlyRecordChanges;
      ghost var v := V();
      HeadFacts(params, v, units, list[0]);
      var size := SlotFor(params, frags[f].size);
      a, retries := AddFragmentCommon(f, size, s, 2);
      LiveFacts(V(), {}, a, f);
      if ws.recordWset {
        ws.replaced := ws.replaced + 1;
        if regenerated {
          ws.regenerated := ws.regenerated + 1;
        }
      }
    }

    // -------------------------------------------------------------- walking a unit

    /** Walks unit `u` from its start to the fragment whose body holds `pc`, if any. */
    method PcLookup(u: nat, pc: int) returns (found: Ptr)
      requires Consistent() && u in units && !units[u].pendingFree && units[u].startPc <= pc < units[u].reservedEnd
      ensures found.ToFrag? ==> exists a :: At(found.frag, a) && InBody(frags[found.frag], pc)
      ensures !found.ToFrag? ==> found == Null && forall a, f :: At(f, a) ==> !InBody(frags[f], pc)
    {
      hide Core, HeadOk, AllAligned;
      ghost var v := V();
      assert UnitOk(v.spans, units, u);
      CoreSpan(v, {}, u);
      var cur := units[u].startPc;
      while cur < units[u].curPc && cur < pc
        invariant AtSlot(tiles, spans, u, cur) && ClearBelow(v, u, cur, pc)
      {
        LookupStep(v, u, cur, pc);
        var f := mem.first[cur];
        if WordIsFree(frags, mem, f) {
          cur := cur + mem.size[cur];
        } else {
          if InBody(frags[f.frag], pc) {
            assert At(f.frag, cur);
            return f;
          }
          cur := cur + SlotSize(frags[f.frag]);
        }
      }
      LookupDone(v, u, cur, pc);
      return Null;
    }

    /** Links `f` to the end of a chain under construction whose last member is `tail`. */
    method LinkFragment(tail: Ptr, f: nat, ghost chain: seq<nat>)
      requires Linked(frags, chain, true) && tail == TailOf(chain) && f in frags && InAddressOrder(frags, chain)
      modifies `frags
      ensures Linked(frags, chain + [f], true) && OnlyNextChanges(old(frags), frags)
      ensures forall g :: g in frags && g !in chain ==> frags[g] == old(frags[g])
    {
      if tail != Null {
        frags := frags[tail.frag := frags[tail.frag].(next := ToFrag(f))];
      }
    }

    /** Takes a flushed unit's free entry off its list. */
    method DropFreeEntry(pc: int, u: nat, ghost v: View, ghost ex: set<int>)
      requires Core(v, {}) && Core(V(), ex) && Walking(v, V(), ex, u, pc)
      requires pc in v.tiles && v.tiles[pc].unit == u && v.kind[pc].Free? && pc in v.kind && kind[pc].Free?
      requires pc in mem.size && mem.size[pc] == tiles[pc].size && 0 <= mem.size[pc]
      modifies `mem, `freeList, `lists, `kind
      ensures Core(V(), ex + {End(v.tiles, pc)}) && Walking(v, V(), ex + {End(v.tiles, pc)}, u, End(v.tiles, pc))
    {
      hide Core;
      ghost var w := V();
      var k := FindFreeListBucket(mem.size[pc]);
      RemoveFromFreeList(k, pc, ex);
      WalkedFree(v, w, V(), ex, u, pc);
    }

    /** Decides whether the fragment joins the chain; a lazily deleted one leaves the lazy list. */
    method TakeFromLazy(f: nat) returns (add: bool)
      requires f in frags && (f in lazy ==> frags[f].wasDeleted)
      modifies `lazy
      ensures add <==> Chains(frags[f], f, old(lazy))
      ensures lazy == old(lazy) - {f}
    {
      add := true;
      if frags[f].wasDeleted {
        add := f in lazy;
        lazy := lazy - {f};
      }
    }

    /** One fragment met by the flush walk: chained unless it already moved to pending delete. */
    method FlushFragment(f: nat, pc: int, u: nat, tail: Ptr, ghost v: View, ghost ex: set<int>, ghost lazy0: set<nat>,
                         ghost done: seq<int>, ghost chain: seq<nat>) returns (add: bool, size: int)
      requires Core(v, {}) && Core(V(), ex) && Walking(v, V(), ex, u, pc)
      requires Chained(v, frags, lazy0, lazy, done, chain, pc)
      requires pc in v.tiles && v.tiles[pc].unit == u && pc in v.kind && v.kind[pc] == Live(f) && f in v.frags
      requires f in frags
      requires HdrStart(frags[f]) == pc && SlotSize(frags[f]) == v.tiles[pc].size && 0 < v.tiles[pc].size
      requires tail == TailOf(chain) && LazyOk(v.frags, lazy0)
      modifies `frags, `lazy
      ensures size == v.tiles[pc].size && Core(V(), ex) && Walking(v, V(), ex, u, pc + size)
      ensures Chained(v, frags, lazy0, lazy, done + [pc], if add then chain + [f] else chain, pc + size)
    {
      hide Core, Walking, FlushedIn, Chained, Linked, InAddressOrder;
      ghost var w, lazy1 := V(), lazy;
      ChainsAgree(v, w, ex, u, lazy0, lazy, done, chain, pc, f);
      size := SlotSize(frags[f]);
      add := TakeFromLazy(f);
      if !add { assert lazy == lazy1; }
      if add {
        LinkFragment(tail, f, chain);
        NextChangeCore(w, ex, frags);
        ChainedAdd(v, w.frags, frags, lazy0, lazy1, lazy, done, chain, pc, pc + size, f);
      } else {
        ChainedSkip(v, frags, lazy0, lazy, done, chain, pc, pc + size);
      }
      WalkedLive(v, w, V(), ex, u, pc);
    }

    /** Null-terminates the finished chain. */
    method EndChain(tail: Ptr, ghost pc: int, ghost u: nat, ghost v: View, ghost ex: set<int>, ghost lazy0: set<nat>,
                    ghost done: seq<int>, ghost chain: seq<nat>)
      requires Core(V(), ex) && Walking(v, V(), ex, u, pc) && Chained(v, frags, lazy0, lazy, done, chain, pc)
      requires tail == TailOf(chain)
      modifies `frags
      ensures Core(V(), ex) && Walking(v, V(), ex, u, pc) && chain == FlushedIn(v, lazy0, done)
      ensures Linked(frags, chain, false) && InAddressOrder(frags, chain)
      ensures lazy == lazy0 - Elems(chain)
      ensures forall g :: g in frags && g in v.frags && g !in chain ==> frags[g] == v.frags[g]
    {
      hide Core, Walking, FlushedIn;
      if tail != Null {
        ghost var w := V();
        frags := frags[tail.frag := frags[tail.frag].(next := Null)];
        NextChangeCore(w, ex, frags);
        WalkedEnd(v, w, V(), ex, u, pc);
      }
    }

    /**
     Walks a retired unit by its headers: its free entries leave the bucket lists, and its
     fragments are chained in address order.
     */
    method WalkForFlush(u: nat) returns (head: Ptr, tail: Ptr, ghost chain: seq<nat>, ghost ex: set<int>)
      requires Consistent() && LazyOk(frags, lazy) && u in spans && u in units && units[u].startPc == spans[u].lo
      requires units[u].curPc == spans[u].hi
      modifies `mem, `freeList, `lists, `kind, `frags, `lazy
      ensures Core(V(), ex) && Walking(old(V()), V(), ex, u, units[u].curPc)
      ensures u in old(spans) && Tiled(old(tiles), old(spans)) && AtSlot(old(tiles), old(spans), u, old(spans)[u].lo)
      ensures chain == FlushedIn(old(V()), old(lazy), Walk(old(tiles), old(spans), u, old(spans)[u].lo))
      ensures head == HeadOf(chain) && tail == TailOf(chain)
      ensures Linked(frags, chain, false) && InAddressOrder(frags, chain)
      ensures lazy == old(lazy) - Elems(chain)
      ensures forall g :: g in frags && g in old(frags) && g !in chain ==> frags[g] == old(frags[g])
    {
      hide Core, Tiled, Sound, Walking, FlushedIn, Chained, NoHoles;
      ghost var v, lazy0 := V(), lazy;
      WalkInit(params, v, units, list, u, lazy);
      ghost var all := Walk(v.tiles, v.spans, u, v.spans[u].lo);
      head, tail, chain, ex := Null, Null, [], {};
      var pc := units[u].startPc;
      ghost var done: seq<int> := [];
      while pc < units[u].curPc
        invariant Core(V(), ex) && Walking(v, V(), ex, u, pc)
        invariant AtSlot(v.tiles, v.spans, u, pc) && all == done + Walk(v.tiles, v.spans, u, pc)
        invariant Chained(v, frags, lazy0, lazy, done, chain, pc) && LazyOk(v.frags, lazy0)
        invariant head == HeadOf(chain) && tail == TailOf(chain)
        decreases v.spans[u].hi - pc
      {
        WalkingAt(v, V(), ex, u, pc);
        assert all == (done + [pc]) + Walk(v.tiles, v.spans, u, End(v.tiles, pc));
        var word := mem.first[pc];
        if WordIsFree(frags, mem, word) {
          var size := mem.size[pc];
          DropFreeEntry(pc, u, v, ex);
          ex := ex + {End(v.tiles, pc)};
          ChainedSkip(v, frags, lazy0, lazy, done, chain, pc, pc + size);
          done := done + [pc];
          pc := pc + size;
        } else {
          var add, size := FlushFragment(word.frag, pc, u, tail, v, ex, lazy0, done, chain);
          if add {
            chain := chain + [word.frag];
            tail := word;
            if head == Null { head := word; }
          }
          done := done + [pc];
          pc := pc + size;
        }
      }
      assert all == done;
      EndChain(tail, pc, u, v, ex, lazy0, done, chain);
    }

    /** Flushes one retired unit: it leaves the cache, and its fragments come out as a chain. */
    method FlushUnit(u: nat) returns (head: Ptr, tail: Ptr, ghost chain: seq<nat>)
      requires Consistent() && LazyOk(frags, lazy) && u in spans && u in units && u !in list
      modifies `mem, `freeList, `lists, `kind, `frags, `lazy, `tiles, `spans, `units
      ensures lazy == old(lazy) - Elems(chain) && LazyOk(frags, lazy)
      ensures Consistent() && units == old(units)[u := old(units[u]).(pendingFree := true)]
      ensures chain == UnitChain(old(V()), old(lazy), u)
      ensures head == HeadOf(chain) && tail == TailOf(chain) && Linked(frags, chain, false)
      ensures InAddressOrder(frags, chain)
      ensures FlushedSo(old(V()), V(), old(lazy), lazy, {u})
    {
      hide Core, HeadOk, UnitsOk, AllAligned, Walking, FlushedIn, Tiled, FlushedSo, Linked, InAddressOrder, LazyOk;
      ghost var v, us := V(), units;
      SpanUnit(params, v, units, u);
      ghost var ex;
      head, tail, chain, ex := WalkForFlush(u);
      ghost var w := V();
      DetachAfterWalk(params, v, w, ex, units, list, u, units[u].curPc);
      FlushedOne(v, w, ex, old(lazy), lazy, u, units[u].curPc, chain);
      ghost var x := Detached(w, u);
      tiles, spans, kind := x.tiles, x.spans, x.kind;
      assert V() == x;
      FlushedLazy(v, x, old(lazy), lazy, {u});
      units := units[u := units[u].(pendingFree := true)];
    }

    /** Appends a unit's chain to the chain of the units flushed before it. */
    method JoinUnitChain(head: Ptr, tail: Ptr, addHead: Ptr, addTail: Ptr, ghost chain: seq<nat>, ghost more: seq<nat>)
      returns (newHead: Ptr, newTail: Ptr)
      requires Linked(frags, chain, false) && Linked(frags, more, false) && (forall g :: g in chain ==> g !in more)
      requires forall i, j :: 0 <= i < j < |chain| ==> chain[i] != chain[j]
      requires head == HeadOf(chain) && tail == TailOf(chain) && addHead == HeadOf(more) && addTail == TailOf(more)
      modifies `frags
      ensures Linked(frags, chain + more, false) && OnlyNextChanges(old(frags), frags)
      ensures newHead == HeadOf(chain + more) && newTail == TailOf(chain + more)
      ensures forall g :: g in frags && g !in chain ==> frags[g] == old(frags[g])
    {
      newHead, newTail := head, tail;
      ghost var before := frags;
      if more == [] { assert chain + more == chain; }
      if head == Null {
        assert chain + more == more;
        newHead, newTail := addHead, addTail;
      } else if addHead != Null {
        frags := frags[tail.frag := frags[tail.frag].(next := addHead)];
        newTail := addTail;
        JoinChains(before, frags, chain, more);
      }
    }

    /** Flushes one more unit and appends its chain. */
    method FlushAnother(u: nat, head: Ptr, tail: Ptr, ghost v: View, ghost lazy0: set<nat>, ghost gone: set<nat>,
                        ghost chain: seq<nat>)
      returns (newHead: Ptr, newTail: Ptr, ghost more: seq<nat>)
      requires Core(v, {}) && v.kind.Keys == v.tiles.Keys && Consistent() && u in spans && u in units && u !in list
      requires u !in gone && u in v.spans
      requires FlushedSo(v, V(), lazy0, lazy, gone) && FlushChain(v, frags, gone, chain) && LazyOk(frags, lazy)
      requires head == HeadOf(chain) && tail == TailOf(chain)
      modifies `mem, `freeList, `lists, `kind, `frags, `lazy, `tiles, `spans, `units
      ensures Consistent() && FlushedSo(v, V(), lazy0, lazy, gone + {u}) && more == UnitChain(v, lazy0, u)
      ensures FlushChain(v, frags, gone + {u}, chain + more)
      ensures lazy == old(lazy) - Elems(more) && LazyOk(frags, lazy)
      ensures newHead == HeadOf(chain + more) && newTail == TailOf(chain + more)
      ensures units == old(units)[u := old(units[u]).(pendingFree := true)]
    {
      hide Core, HeadOk, UnitsOk, AllAligned, FlushedSo, UnitChain, InAddressOrder, LazyOk;
      ghost var w, lazy1 := V(), lazy;
      CoreKeys(w, {});
      UnitChainFrame(v, w, lazy0, lazy, gone, u);
      var addHead, addTail;
      addHead, addTail, more := FlushUnit(u);
      ghost var x := V();
      FlushChainKept(v, w, x, lazy0, lazy1, lazy, gone, u, chain, more);
      FlushedMore(v, w, x, lazy0, lazy1, lazy, gone, u);
      newHead, newTail := JoinUnitChain(head, tail, addHead, addTail, chain, more);
      NextChangeSound(params, x, units, list, frags);
      NextLazy(x.frags, frags, lazy);
      FlushChainJoined(v, x.frags, frags, lazy0, gone, u, chain, more);
      ChainMore(v, gone, u, chain);
      RelinkedSo(v, x, frags, lazy0, lazy, gone + {u}, chain);
    }

    /**
     Takes the units to flush and flushes them: each leaves the cache exactly once, and the result
     is one null-terminated chain, unit after unit, each in address order.  The answer says
     whether the units `mine` were spared.
     */
    method FlushPendingUnits(mine: set<nat>) returns (notFlushed: bool, head: Ptr, ghost chain: seq<nat>)
      requires Valid()
      modifies `mem, `freeList, `lists, `kind, `frags, `lazy, `tiles, `spans, `units, `toFlush
      ensures Valid() && toFlush == [] && chain == UnitChains(old(V()), old(lazy), old(toFlush))
      ensures lazy == old(lazy) - Elems(chain)
      ensures head == HeadOf(chain) && Linked(frags, chain, false)
      ensures FlushedSo(old(V()), V(), old(lazy), lazy, Elems(old(toFlush)))
      ensures notFlushed <==> forall u :: u in old(toFlush) ==> u !in mine
    {
      hide Core, HeadOk, UnitsOk, AllAligned, FlushedSo, UnitChains, InAddressOrder, Linked;
      AwaitingSpans(params, V(), units, list, toFlush);
      var local := toFlush;
      toFlush := [];
      notFlushed, head, chain := FlushUnits(local, mine);
      NoneAwaiting(units, list);
    }

    method FlushUnits(local: seq<nat>, mine: set<nat>) returns (notFlushed: bool, head: Ptr, ghost chain: seq<nat>)
      requires Consistent() && LazyOk(frags, lazy)
      requires forall i :: 0 <= i < |local| ==> local[i] in spans && local[i] in units && local[i] !in list
      requires forall i, j :: 0 <= i < j < |local| ==> local[i] != local[j]
      modifies `mem, `freeList, `lists, `kind, `frags, `lazy, `tiles, `spans, `units
      ensures Consistent() && chain == UnitChains(old(V()), old(lazy), local)
      ensures lazy == old(lazy) - Elems(chain) && LazyOk(frags, lazy)
      ensures head == HeadOf(chain) && Linked(frags, chain, false)
      ensures FlushedSo(old(V()), V(), old(lazy), lazy, Elems(local))
      ensures notFlushed <==> forall u :: u in local ==> u !in mine
    {
      hide Core, HeadOk, UnitsOk, AllAligned, FlushedSo, UnitChain, InAddressOrder, Linked;
      ghost var v, lazy0 := V(), lazy;
      CoreKeys(v, {});
      FlushedNone(v, lazy);
      var tail;
      notFlushed, head, tail, chain := true, Null, Null, [];
      ghost var gone: set<nat> := {};
      EmptyChain(v, frags);
      for i := 0 to |local|
        invariant Consistent() && gone == Elems(local[..i]) && lazy == lazy0 - Elems(chain) && LazyOk(frags, lazy)
        invariant FlushedSo(v, V(), lazy0, lazy, gone) && FlushChain(v, frags, gone, chain)
        invariant chain == UnitChains(v, lazy0, local[..i]) && head == HeadOf(chain) && tail == TailOf(chain)
        invariant notFlushed <==> forall u :: u in local[..i] ==> u !in mine
        invariant forall j :: i <= j < |local| ==> local[j] in spans && local[j] in units
      {
        var u := local[i];
        assert local[..i + 1] == local[..i] + [u];
        if u in mine { notFlushed := false; }
        ghost var more;
        ghost var w := V();
        head, tail, more := FlushAnother(u, head, tail, v, lazy0, gone, chain);
        chain := chain + more;
        gone := gone + {u};
        SpansLeft(v, V(), lazy0, lazy, gone);
      }
      assert local[..|local|] == local;
    }
  }
}
