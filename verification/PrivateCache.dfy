/**
 The private code cache of one thread: fragments are placed in empty slots, at the end of the
 current unit, or over evicted victims that are contiguous in the cache.
 */
module PrivateCache {
  import opened Layout
  import opened Units
  import opened FifoRing
  import opened FifoLayout
  import opened FifoTrim
  import opened WorkingSet

  class Cache {
    var mem: map<int, nat>
    var entries: Entries
    var fifo: Link
    var units: map<nat, Unit>
    var list: seq<nat>
    var nextId: nat
    const params: Params
    const ws: Set

    ghost var tiles: Tiles
    ghost var spans: Spans
    ghost var q: seq<nat>
    ghost var empties: nat

    ghost function V(): View
      reads this
    {
      View(tiles, spans, mem, entries, fifo, q, empties)
    }

    ghost predicate Fresh()
      reads this
    {
      forall id :: id in entries ==> id < nextId
    }

    ghost predicate Valid()
      reads this
    {
      Sound(params, V(), units, list, {}, {}) && Fresh()
    }

    constructor (p: Params, w: Set, size: int, s: Supply)
      requires ParamsOk(p) && 0 < size <= p.maxUnit && Supplies(p, size, s)
      modifies w`size
      ensures w.size == old(w.size) + (s.endPc - s.startPc)
      ensures Valid() && params == p && ws == w && tiles == map[] && q == []
      ensures list == [s.id] && units == map[s.id := NewUnit(s)]
    {
      params, ws, mem, entries, fifo, nextId := p, w, map[], map[], Nil, 0;
      units, list := map[s.id := NewUnit(s)], [s.id];
      tiles, q, empties := map[], [], 0;
      spans := map[s.id := Span(s.startPc, s.startPc, s.reservedEnd)];
      new;
      w.size := w.size + (s.endPc - s.startPc);
      PageOrMore(s.startPc, s.endPc);
      assert UnitOk(spans, units, s.id) && SpanOk(tiles, spans, s.id);
    }

    // -------------------------------------------------------------- FIFO primitives

    method FifoRemove(f: nat)
      requires Ring(q, fifo, entries) && f in q && f in entries
      modifies `entries, `fifo, `q, `empties
      ensures V() == Unlinked(old(V()), f)
    {
      hide Ring;
      ghost var i := IndexOf(q, f);
      UnlinkEntry(f);
      if entries[f].empty {
        entries := entries - {f};
      }
      q := Without(q, i);
      empties := if i < empties then empties - 1 else empties;
    }

    method UnlinkEntry(f: nat)
      requires Ring(q, fifo, entries) && f in q && f in entries
      modifies `entries, `fifo
      ensures fifo == HeadWithout(old(fifo), old(entries[f]), f)
      ensures entries == LinksWithout(old(entries), old(fifo), f) && f in entries
      ensures entries[f].empty == old(entries[f].empty)
    {
      hide Ring;
      RingAt(q, fifo, entries, IndexOf(q, f));
      if At(f) == fifo {
        fifo := entries[f].next;
      } else {
        entries := SetNext(entries, entries[f].prev, entries[f].next);
      }
      if entries[f].next == Nil {
        if fifo != Nil {
          entries := SetPrev(entries, fifo, entries[f].prev);
        }
      } else {
        entries := SetPrev(entries, entries[f].next, entries[f].prev);
      }
    }

    method FifoAppend(f: nat)
      requires Ring(q, fifo, entries) && f in entries && f !in q && (fifo.At? ==> fifo.id in entries)
      modifies `entries, `fifo, `q
      ensures q == old(q) + [f] && fifo == (if old(q) == [] then At(f) else old(fifo))
      ensures fifo.At? && entries == LinksWithLast(old(entries), old(fifo), f)
    {
      ghost var before := entries;
      if q != [] { assert Member(q, entries, 0) && Member(q, entries, |q| - 1); }
      entries := SetNext(entries, At(f), Nil);
      if fifo == Nil {
        fifo := At(f);
        entries := SetPrev(entries, At(f), At(f));
      } else {
        var tail := entries[fifo.id].prev;
        entries := SetPrev(entries, At(f), tail);
        entries := SetNext(entries, tail, At(f));
        entries := SetPrev(entries, fifo, At(f));
      }
      q := q + [f];
    }

    /** Turns a slot in transit into an empty slot, enlarging the FIFO's front one when adjacent. */
    method PrependEmpty(a: int, size: int, ghost holes: set<int>, ghost limbo: set<nat>)
      requires Core(V(), holes, limbo) && Fresh() && a in holes && a in tiles && tiles[a].size == size
      requires forall x :: x in limbo ==> x in entries && !entries[x].empty
      modifies `mem, `entries, `fifo, `nextId, `tiles, `q, `empties
      ensures (old(fifo).At? ==> old(fifo).id in old(entries)) && V() == EmptyAdded(old(V()), a, old(nextId))
      ensures Fresh()
    {
      hide Core;
      ghost var v := V();
      if fifo.At? { HeadEntry(v, holes, limbo); }
      assert fifo.At? ==> fifo.id !in limbo || !entries[fifo.id].empty;
      if fifo != Nil && entries[fifo.id].empty {
        var h := fifo.id;
        if Hdr(entries[h]) == a + size {
          tiles := Merge(tiles, a);
          entries := entries[h := entries[h].(startPc := a + HEADER_SIZE)];
          mem := mem[a := h];
          entries := entries[h := entries[h].(size := entries[h].size + size)];
          return;
        } else if Hdr(entries[h]) + Slot(entries[h]) == a {
          tiles := Merge(tiles, Hdr(entries[h]));
          entries := entries[h := entries[h].(size := entries[h].size + size)];
          return;
        }
      }
      LinkEmpty(a, size);
    }

    /** Makes the slot in transit an empty slot of its own at the FIFO's front. */
    method LinkEmpty(a: int, size: int)
      requires Fresh() && a in tiles && tiles[a].size == size && (fifo.At? ==> fifo.id in entries)
      modifies `mem, `entries, `fifo, `nextId, `q, `empties
      ensures V() == Prepended(old(V()), a, old(nextId)) && Fresh()
    {
      var id := nextId;
      nextId := nextId + 1;
      mem := mem[a := id];
      var slot := Entry(true, a + HEADER_SIZE, size, 0, false, Nil, Nil);
      entries := entries[id := slot.(next := fifo, prev := if fifo == Nil then At(id) else entries[fifo.id].prev)];
      entries := SetPrev(entries, fifo, At(id));
      fifo := At(id);
      q := [id] + q;
      empties := empties + 1;
    }

    // -------------------------------------------------------------- eviction

    /** First walk: are all contiguous victims that `need` bytes call for deletable? */
    method CanReplace(u: nat, id: nat, need: int) returns (ok: bool)
      requires Core(V(), {}, {}) && id in q && id in entries && u in units && u in spans && 0 < need
      requires Hdr(entries[id]) in tiles && tiles[Hdr(entries[id])].unit == u && units[u].curPc == spans[u].hi
      ensures Tiled(tiles, spans) && AtSlot(tiles, spans, u, Hdr(entries[id]))
      ensures ok <==> forall a :: a in Run(tiles, spans, u, Hdr(entries[id]), need) ==>
                                    a in mem && mem[a] in entries && !entries[mem[a]].pinned
    {
      hide Core, Tiled;
      ghost var v := V();
      EntrySlot(v, id);
      var pc, victim, soFar := Hdr(entries[id]), id, 0;
      ghost var run, done := Run(tiles, spans, u, pc, need), [];
      while true
        invariant AtSlot(tiles, spans, u, pc) && pc < spans[u].hi && soFar < need && 0 < need - soFar
        invariant pc in mem && victim == mem[pc] && victim in entries && Slot(entries[victim]) == tiles[pc].size
        invariant run == done + Run(tiles, spans, u, pc, need - soFar)
        invariant forall a :: a in done ==> a in mem && mem[a] in entries && !entries[mem[a]].pinned
        decreases spans[u].hi - pc
      {
        SlotEntry(v, u, pc);
        assert Run(tiles, spans, u, pc, need - soFar)
               == [pc] + Run(tiles, spans, u, End(tiles, pc), need - soFar - tiles[pc].size);
        assert run == (done + [pc]) + Run(tiles, spans, u, End(tiles, pc), need - soFar - tiles[pc].size);
        if entries[victim].pinned {
          assert pc in run;
          return false;
        }
        done := done + [pc];
        soFar := soFar + Slot(entries[victim]);
        pc := pc + Slot(entries[victim]);
        if soFar >= need { break; }
        if pc == units[u].curPc { break; }
        SlotEntry(v, u, pc);
        victim := mem[pc];
      }
      assert run == done;
      return true;
    }

    /** Removes a victim from the FIFO and frees its record. */
    method ForceFromCache(victim: nat)
      requires Ring(q, fifo, entries) && victim in q && victim in entries
      modifies `entries, `fifo, `q, `empties, ws`replaced
      ensures V() == Removed(old(V()), victim)
      ensures ws.replaced == old(ws.replaced) + if ws.finite && !old(entries[victim].empty) then 1 else 0
    {
      var wasEmpty := entries[victim].empty;
      FifoRemove(victim);
      if !wasEmpty {
        if ws.finite {
          ws.replaced := ws.replaced + 1;
        }
        entries := entries - {victim};
      }
      assert entries == Unlinked(old(V()), victim).entries - {victim};
    }

    /** Second walk: evicts the victims; their slots become one slot in transit. */
    method Evict(u: nat, id: nat, need: int) returns (soFar: int, ghost gone: set<nat>)
      requires Core(V(), {}, {}) && id in q && id in entries && u in units && u in spans && 0 < need
      requires Hdr(entries[id]) in tiles && tiles[Hdr(entries[id])].unit == u && units[u].curPc == spans[u].hi
      modifies `entries, `fifo, `q, `empties, `tiles, ws`replaced
      ensures var a := old(Hdr(entries[id]));
              && Tiled(old(tiles), old(spans)) && AtSlot(old(tiles), old(spans), u, a)
              && a + soFar == RunEnd(old(tiles), old(spans), u, a, need)
              && Core(V(), {a}, {}) && Evicted(old(V()), V(), a, a + soFar, u, gone)
              && 0 < soFar && id in gone && gone <= old(entries).Keys
      ensures ws.replaced == old(ws.replaced) + if ws.finite then |FragsAmong(old(entries), gone)| else 0
    {
      hide Core, Tiled, Evicted, FragsAmong;
      ghost var v := V();
      EntrySlot(v, id);
      ghost var a := Hdr(entries[id]);
      var pc := Hdr(entries[id]);
      soFar := Slot(entries[id]);
      gone := {} + {id};
      EvictFirst(v, u, id);
      assert {} + {id} == {id};
      NoFrags(v.entries);
      OneMoreFrag(v.entries, {}, id);
      SlotEntry(v, u, a);
      pc := pc + Slot(entries[id]);
      CoreRing(v, {}, {});
      ForceFromCache(id);
      while soFar < need && pc != units[u].curPc
        invariant AtSlot(v.tiles, v.spans, u, pc) && a < pc == a + soFar && 0 < soFar
        invariant RunEnd(v.tiles, v.spans, u, a, need) == RunEnd(v.tiles, v.spans, u, pc, need - soFar)
        invariant Core(V(), {a}, {}) && Evicted(v, V(), a, pc, u, gone) && id in gone && gone <= v.entries.Keys
        invariant ws.replaced == old(ws.replaced) + if ws.finite then |FragsAmong(v.entries, gone)| else 0
        decreases v.spans[u].hi - pc
      {
        var size;
        ghost var victim;
        size, victim := EvictOne(u, pc, a, v, gone);
        OneMoreFrag(v.entries, gone, victim);
        soFar := soFar + size;
        pc := pc + size;
        gone := gone + {victim};
      }
    }

    /** Evicts the entry whose slot starts at `pc` and joins its slot to those evicted before. */
    method EvictOne(u: nat, pc: int, ghost a: int, ghost v: View, ghost gone: set<nat>)
      returns (size: int, ghost victim: nat)
      requires Core(v, {}, {}) && Core(V(), {a}, {}) && Evicted(v, V(), a, pc, u, gone) && a < pc
      requires AtSlot(v.tiles, v.spans, u, pc) && pc < v.spans[u].hi
      modifies `entries, `fifo, `q, `empties, `tiles, ws`replaced
      ensures pc in v.tiles && size == v.tiles[pc].size && 0 < size && AtSlot(v.tiles, v.spans, u, pc + size)
      ensures Core(V(), {a}, {}) && Evicted(v, V(), a, pc + size, u, gone + {victim}) && victim in v.entries
      ensures victim !in gone
      ensures ws.replaced == old(ws.replaced) + if ws.finite && !v.entries[victim].empty then 1 else 0
    {
      hide Core, Evicted;
      ghost var w := V();
      EvictedMem(v, w, a, pc, u, gone);
      SlotEntry(v, u, pc);
      var id := mem[pc];
      EvictNext(v, w, a, pc, u, gone, id);
      EvictedSlot(v, w, a, pc, u, gone, id);
      size := Slot(entries[id]);
      CoreRing(w, {a}, {});
      ForceFromCache(id);
      tiles := Merge(tiles, a);
      victim := id;
    }

    /** Writes the header word and the record, and appends the fragment to the FIFO. */
    method PlaceFragment(f: nat, a: int, need: int, slot: int)
      requires Sound(params, V(), units, list, {a}, {}) && Fresh() && a in tiles && tiles[a].size == slot
      requires f in entries && f !in q && Request(params, entries[f], need) && need <= slot < need + 128
      modifies `mem, `entries, `fifo, `q
      ensures Valid() && tiles == old(tiles) && mem == old(mem)[a := f]
      ensures empties <= |q| && old(empties <= |q|) && FragSeq(V()) == FragSeq(old(V())) + [f]
      ensures f in entries && SameButLinks(Placed(old(entries[f]), a, slot), entries[f])
      ensures forall id :: id in old(entries) && id != f ==>
                          id in entries && SameButLinks(old(entries)[id], entries[id])
    {
      hide Core, UnitsOk, RoomOk, AllAligned, FragSeq;
      ghost var v := V();
      CoreRing(v, {a}, {});
      PlacedFits(params, entries[f], need, a, slot);
      var e := Placed(entries[f], a, slot);
      if fifo.At? { HeadEntry(v, {a}, {}); }
      SettledSound(params, v, units, list, a, f, e);
      RingFrame(q, fifo, entries, entries[f := e]);
      mem := mem[a := f];
      entries := entries[f := e];
      FifoAppend(f);
      assert V() == Settled(v.(entries := v.entries[f := e]), a, f);
    }

    /** Fits the slot in transit to `need`: stretches it into unclaimed space, or returns what is worth keeping. */
    method FitSlot(u: nat, a: int, need: int, soFar: int) returns (slot: int)
      requires Sound(params, V(), units, list, {a}, {}) && Fresh() && a in tiles && tiles[a] == Tile(soFar, u)
      requires u in units && u in spans && units[u].curPc == spans[u].hi && spans[u].hi !in tiles
      requires 0 < need && Aligned(need, params.align) && 0 < soFar
      requires soFar < need ==> a + soFar == units[u].curPc && a + need <= units[u].endPc
      modifies `mem, `entries, `fifo, `nextId, `tiles, `q, `empties, `units, `spans
      ensures Sound(params, V(), units, list, {a}, {}) && Fresh() && a in tiles && tiles[a].size == slot
      ensures slot == NewSlot(params, old(units[u]), need, soFar)
      ensures units ==
                if soFar < need then old(units)[u := Claimed(params, old(units[u]), need - soFar)] else old(units)
      ensures empties <= |q| && old(empties <= |q|) && FragsStay(old(V()), V())
      ensures forall id :: id in old(entries) && id !in old(q) ==>
                          id in entries && entries[id] == old(entries)[id] && id !in q
    {
      hide Core, UnitsOk, RoomOk, AllAligned;
      ghost var v := V();
      CoreRing(v, {a}, {});
      slot := need;
      if soFar < need {
        var extra := Eaten(params, units[u], need - soFar);
        StretchedSound(params, v, units, list, a, u, need - soFar);
        ghost var x := Stretched(params, v, units[u], a, u, need - soFar);
        units := units[u := Claimed(params, units[u], need - soFar)];
        tiles, spans := x.tiles, x.spans;
        assert V() == x;
        slot := need + extra;
      } else if soFar > need {
        if soFar - need < params.minHole {
          slot := soFar;
        } else {
          ReturnLeftover(a, need, soFar - need);
        }
      }
    }

    method ReturnLeftover(a: int, need: int, diff: int)
      requires Sound(params, V(), units, list, {a}, {}) && Fresh() && a in tiles && tiles[a].size == need + diff
      requires 0 < need && 0 < diff && Aligned(need, params.align)
      modifies `mem, `entries, `fifo, `nextId, `tiles, `q, `empties
      ensures Sound(params, V(), units, list, {a}, {}) && Fresh() && a in tiles && tiles[a].size == need
      ensures empties <= |q| && old(empties <= |q|) && FragsStay(old(V()), V())
      ensures forall id :: id in old(entries) && id !in old(q) ==>
                          id in entries && entries[id] == old(entries)[id] && id !in q
    {
      hide Core, UnitsOk, RoomOk, AllAligned, FragSeq, FragsStay;
      ghost var v := V();
      CoreRing(v, {a}, {});
      LeftoverSound(params, v, units, list, a, need, nextId);
      LeftoverTile(v, a, need, nextId);
      tiles := Split(tiles, a, need);
      ghost var w := V();
      PrependEmpty(a + need, diff, {a, a + need}, {});
      EmptyAddedOutside(w, {a, a + need}, a + need, old(nextId));
      CoreRing(V(), {a}, {});
    }

    /** A finite cache counts evicted fragments and, once any were, the regenerated ones it places over others. */
    ghost function Counted(c: Counters, evicted: int, regen: bool): Counters {
      if !ws.finite || evicted < 0 then c
      else
        var n := c.replaced + evicted;
        Counters(n, if n > 0 && regen then c.regenerated + 1 else c.regenerated)
    }

    /**
     Replaces the contiguous entries from `id` on by `f`.  Either some victim is pinned and
     nothing changes, or the replacement happens as a whole.
     */
    method ReplaceFragments(u: nat, f: nat, id: nat, need: int, regen: bool) returns (ok: bool, ghost gone: set<nat>)
      requires Valid() && id in q && id in entries && f in entries && f !in q && Request(params, entries[f], need)
      requires Hdr(entries[id]) in tiles && tiles[Hdr(entries[id])].unit == u && u in units && u in spans
      requires units[u].endPc - Hdr(entries[id]) >= need
      modifies `mem, `entries, `fifo, `nextId, `tiles, `q, `empties, `units, `spans, ws`replaced, ws`regenerated
      ensures Valid()
      ensures Tiled(old(tiles), old(spans)) && AtSlot(old(tiles), old(spans), u, old(Hdr(entries[id])))
      ensures ok <==> forall x :: x in Run(old(tiles), old(spans), u, old(Hdr(entries[id])), need) ==>
                                    x in old(mem) && old(mem)[x] in old(entries) && !old(entries)[old(mem)[x]].pinned
      ensures !ok ==> V() == old(V()) && units == old(units) && ws.Count() == old(ws.Count())
      ensures ok ==> Replaced(params, old(V()), V(), old(units), units, u, old(Hdr(entries[id])), need, f, gone)
      ensures ok ==> ws.Count() == Counted(old(ws.Count()), |FragsAmong(old(entries), gone)|, regen)
      ensures SameExtent(old(units), units)
    {
      hide Core, UnitsOk, RoomOk, AllAligned, Tiled, Replaced, FragsAmong;
      SpanUnit(spans, units, u);
      ok := CanReplace(u, id, need);
      gone := {};
      if !ok { return; }
      gone := OverwriteRun(u, f, id, need);
      if ws.finite && ws.replaced > 0 && regen {
        ws.regenerated := ws.regenerated + 1;
      }
    }

    /** Evicts the run that starts at `id` and places `f` over it. */
    method OverwriteRun(u: nat, f: nat, id: nat, need: int) returns (ghost gone: set<nat>)
      requires Valid() && id in q && id in entries && f in entries && f !in q && Request(params, entries[f], need)
      requires Hdr(entries[id]) in tiles && tiles[Hdr(entries[id])].unit == u && u in units && u in spans
      requires units[u].endPc - Hdr(entries[id]) >= need
      modifies `mem, `entries, `fifo, `nextId, `tiles, `q, `empties, `units, `spans, ws`replaced
      ensures Valid()
      ensures Replaced(params, old(V()), V(), old(units), units, u, old(Hdr(entries[id])), need, f, gone)
      ensures ws.replaced == old(ws.replaced) + if ws.finite then |FragsAmong(old(entries), gone)| else 0
      ensures SameExtent(old(units), units)
    {
      hide Core, UnitsOk, RoomOk, AllAligned, Evicted, Tiled, SlotMade, RunGone, TurnsKept, FragsAmong;
      ghost var v, us := V(), units;
      SpanUnit(v.spans, units, u);
      var a := Hdr(entries[id]);
      var soFar;
      soFar, gone := Evict(u, id, need);
      ghost var w := V();
      EvictedSound(params, v, w, units, list, a, u, need, gone);
      EvictedFacts(params, v, w, units, a, u, need, gone, f);
      var slot := FitSlot(u, a, need, soFar);
      ghost var x := V();
      PlaceFragment(f, a, need, slot);
      TurnsKeptSo(v, w, x, V(), u, a, need, f, gone);
      SlotMadeSo(params, v, V(), us, units, u, a, need, f, x.entries[f]);
    }

    // -------------------------------------------------------------- adding and removing fragments

    /** The unit whose reserved range holds `pc`. */
    method LookupUnit(pc: int, ghost a: int) returns (u: nat)
      requires Valid() && a in tiles && a <= pc < End(tiles, a)
      ensures u == tiles[a].unit && u in units && u in spans
    {
      ghost var w := tiles[a].unit;
      assert TileOk(tiles, spans, a) && UnitOk(spans, units, w);
      assert units[w].startPc <= pc < units[w].reservedEnd;
      assert forall n :: n in units && n != w ==> RangesApart(units[n], units[w]);
      u :| u in units && units[u].startPc <= pc < units[u].reservedEnd;
    }

    /** Replaces from entry `id` on if that is possible. */
    method ReplaceAt(f: nat, id: nat, need: int, regen: bool) returns (ok: bool, ghost u: nat, ghost gone: set<nat>)
      requires Valid() && f in entries && f !in q && Request(params, entries[f], need) && id in q && id in entries
      modifies `mem, `entries, `fifo, `nextId, `tiles, `q, `empties, `units, `spans, ws`replaced, ws`regenerated
      ensures Valid() && SameExtent(old(units), units) && old(empties <= |q|) && empties <= |q|
      ensures ok <==> Replaceable(old(V()), old(units), id, need)
      ensures !ok ==> V() == old(V()) && units == old(units) && ws.Count() == old(ws.Count())
      ensures ok ==> Hdr(old(entries)[id]) in old(tiles) && u == old(tiles)[Hdr(old(entries)[id])].unit
      ensures ok ==> Replaced(params, old(V()), V(), old(units), units, u, Hdr(old(entries)[id]), need, f, gone)
      ensures ok ==> ws.Count() == Counted(old(ws.Count()), Lost(old(V()), V()), regen)
    {
      hide Core, UnitsOk, RoomOk, AllAligned, Tiled, Replaced, FragsAmong;
      ghost var v, us := V(), units;
      CoreRing(v, {}, {});
      EntrySlot(v, id);
      var unit := LookupUnit(entries[id].startPc - HEADER_SIZE, Hdr(entries[id]));
      ok, u, gone := false, unit, {};
      if units[unit].endPc - Hdr(entries[id]) >= need {
        ok, gone := ReplaceFragments(unit, f, id, need, regen);
        if ok { ReplacedCount(params, v, V(), us, units, unit, Hdr(v.entries[id]), need, f, gone); }
      }
    }

    /** Tries the FIFO entries from position `from` on and replaces at the first that works. */
    method ReplaceFifo(f: nat, need: int, start: Link, onlyEmpty: bool, regen: bool, ghost from: nat)
      returns (ok: bool, stop: Link, ghost at: nat, ghost u: nat, ghost gone: set<nat>)
      requires Valid() && f in entries && f !in q && Request(params, entries[f], need)
      requires from <= |q| && start == (if from < |q| then At(q[from]) else Nil)
      modifies `mem, `entries, `fifo, `nextId, `tiles, `q, `empties, `units, `spans, ws`replaced, ws`regenerated
      ensures Valid() && SameExtent(old(units), units)
      ensures from <= at <= |old(q)|
      ensures forall i :: from <= i < at ==> !Replaceable(old(V()), old(units), old(q)[i], need)
      ensures !ok ==> V() == old(V()) && units == old(units) && ws.Count() == old(ws.Count())
      ensures !ok ==>
                && stop == (if at < |q| then At(q[at]) else Nil)
                && (at < |q| ==> onlyEmpty && q[at] in entries && !entries[q[at]].empty)
      ensures ok ==> at < |old(q)| && Replaceable(old(V()), old(units), old(q)[at], need) && old(q)[at] in old(entries)
      ensures ok ==> Replaced(params, old(V()), V(), old(units), units, u, Hdr(old(entries)[old(q)[at]]), need, f, gone)
      ensures old(empties <= |q|) && empties <= |q|
      ensures ok ==> ws.Count() == Counted(old(ws.Count()), Lost(old(V()), V()), regen)
      ensures onlyEmpty ==> forall i :: from <= i < at ==> old(q)[i] in old(entries) && old(entries)[old(q)[i]].empty
      ensures ok && onlyEmpty ==> old(entries)[old(q)[at]].empty
      ensures ok ==> Hdr(old(entries)[old(q)[at]]) in old(tiles) && u == old(tiles)[Hdr(old(entries)[old(q)[at]])].unit
    {
      hide Core, UnitsOk, RoomOk, AllAligned, Tiled, Replaced, Replaceable;
      ghost var v := V();
      CoreRing(v, {}, {});
      stop, at, u, gone := start, from, 0, {};
      ok := false;
      while stop != Nil
        invariant from <= at <= |q| && stop == (if at < |q| then At(q[at]) else Nil)
        invariant V() == v && units == old(units) && ws.Count() == old(ws.Count())
        invariant Valid() && f in entries && f !in q && Request(params, entries[f], need)
        invariant forall i :: from <= i < at ==> !Replaceable(v, units, q[i], need)
        invariant onlyEmpty ==> forall i :: from <= i < at ==> q[i] in entries && entries[q[i]].empty
        decreases |q| - at
      {
        EntrySlot(v, q[at]);
        if onlyEmpty && !entries[stop.id].empty { return; }
        ok, u, gone := ReplaceAt(f, stop.id, need, regen);
        if ok { return; }
        RingNext(v, at);
        stop := entries[stop.id].next;
        at := at + 1;
      }
    }

    /** Places `f` at the end of the current unit. */
    method AppendFragment(f: nat, need: int)
      requires Valid() && f in entries && f !in q && Request(params, entries[f], need)
      requires list[0] in units && units[list[0]].curPc + need <= units[list[0]].endPc
      modifies `mem, `entries, `fifo, `q, `tiles, `units, `spans
      ensures Valid() && list[0] in old(units)
      ensures var n := old(units)[list[0]];
              && units == old(units)[list[0] := Claimed(params, n, need)]
              && PlacedAt(old(V()), V(), f, n.curPc, need) && Turns(old(V()), V(), {}, [f])
              && tiles[n.curPc].size == need + Eaten(params, n, need)
    {
      hide Core, UnitsOk, RoomOk, AllAligned, Aligned, Turns, FragSeq;
      ghost var v := V();
      var u := list[0];
      var n := units[u];
      HeadUnit(params, spans, units, u);
      ClaimedSound(params, v, units, list, need);
      var size := need + Eaten(params, n, need);
      units := units[u := Claimed(params, n, need)];
      ghost var w := Grown(v, u, size);
      tiles, spans := w.tiles, w.spans;
      CoreRing(v, {}, {});
      assert V() == w;
      PlaceFragment(f, n.curPc, need, size);
      AppendedTurns(v, w, V(), f);
    }

    // -------------------------------------------------------------- more space

    /** Committed bytes plus what the current unit may still commit. */
    ghost function Potential(): int
      requires list != [] && list[0] in units
      reads this, ws`size
    {
      ws.size + (units[list[0]].reservedEnd - units[list[0]].endPc)
    }

    /** The configured maximum leaves room for a unit that can hold the slot. */
    ghost predicate MayGrow(need: int)
      requires list != [] && list[0] in units
      reads this, ws`size
    {
      ws.maxSize == 0 || Potential() + need <= ws.maxSize
    }

    /** Neither what is committed nor what still may be exceeds the configured maximum. */
    ghost predicate WithinMax()
      requires list != [] && list[0] in units
      reads this, ws`size
    {
      ws.maxSize == 0 || Potential() <= ws.maxSize
    }

    /** The size of the unit that is asked for: never more than the maximum leaves. */
    function UnitSize(size: int, need: int): int
      requires ParamsOk(params) && 0 <= need <= 0x1_0000 + 91
    {
      var n := NewSize(params, need);
      if ws.maxSize > 0 && size + n > ws.maxSize then ws.maxSize - size else n
    }

    /** Seals the current unit: its room becomes an empty slot. */
    method SealUnit()
      requires Valid() && list[0] in units
      modifies `mem, `entries, `fifo, `nextId, `tiles, `q, `empties, `units, `spans
      ensures Valid() && Calm(old(V()), V()) && list[0] in old(units)
      ensures units == old(units)[list[0] := old(units[list[0]]).(curPc := old(units[list[0]].endPc), full := true)]
    {
      hide Core, UnitsOk, RoomOk, AllAligned, Aligned;
      SealLeft(params, V(), units, list);
      var n := units[list[0]];
      if n.endPc - n.curPc < UnitEndHole(params) {
        units := units[list[0] := n.(curPc := n.endPc, full := true)];
        assert units == old(units);
        CoreRing(V(), {}, {});
        CalmSame(V(), V());
      } else {
        FileRoom();
      }
    }

    method FileRoom()
      requires Valid() && list[0] in units && !units[list[0]].full
      modifies `mem, `entries, `fifo, `nextId, `tiles, `q, `empties, `units, `spans
      ensures Valid() && Calm(old(V()), V()) && list[0] in old(units)
      ensures units == old(units)[list[0] := old(units[list[0]]).(curPc := old(units[list[0]].endPc), full := true)]
    {
      hide Core, UnitsOk, RoomOk, AllAligned, Aligned, FragsStay, FragSeq;
      ghost var v := V();
      var u := list[0];
      var n := units[u];
      HeadUnit(params, spans, units, u);
      CoreRing(v, {}, {});
      SealedSound(params, v, units, list, nextId);
      ghost var w := Grown(v, u, n.endPc - n.curPc);
      EmptyAddedOutside(w, {n.curPc}, n.curPc, nextId);
      tiles, spans := w.tiles, w.spans;
      PrependEmpty(n.curPc, n.endPc - n.curPc, {n.curPc}, {});
      units := units[u := n.(curPc := n.endPc, full := true)];
      CoreRing(V(), {}, {});
    }

    /** Commits more of the current unit's reservation; doubles the amount until the slot would fit. */
    method ExtendCommitment(need: int)
      requires Valid() && list[0] in units && units[list[0]].endPc < units[list[0]].reservedEnd
      requires 0 < need && units[list[0]].endPc < units[list[0]].curPc + need
      modifies `units, ws`size
      ensures Valid() && Potential() == old(Potential())
      ensures var n, end := old(units[list[0]]), units[list[0]].endPc;
              && Commits(params, n, n.curPc + need - n.endPc, end) && n.endPc < end <= n.reservedEnd
              && units == old(units)[list[0] := n.(endPc := end, full := false)]
              && (n.curPc + need <= end || end == n.reservedEnd)
    {
      hide Core, UnitsOk, RoomOk, AllAligned;
      ghost var v := V();
      var u := list[0];
      HeadUnit(params, spans, units, u);
      SpanAligned(params, spans, units, u);
      var commit := CommitSize(params, units[u].curPc + need - units[u].endPc);
      AlignedSum(units[u].endPc, commit, PAGE_SIZE);
      if units[u].endPc + commit > units[u].reservedEnd {
        commit := units[u].reservedEnd - units[u].endPc;
        PageOrMore(units[u].endPc, units[u].reservedEnd);
      }
      CommittedSound(params, v, units, list, units[u].endPc + commit);
      units := units[u := units[u].(endPc := units[u].endPc + commit, full := false)];
      ws.size := ws.size + commit;
    }

    /** Maps a new unit and makes it the current one. */
    method StartUnit(size: int, s: Supply)
      requires Valid() && list[0] in units && units[list[0]].full && Unmapped(units, s)
      requires 0 < size && Supplies(params, size, s)
      modifies `units, `spans, `list, ws`size, ws`replaced, ws`regenerated
      ensures Valid() && list == [s.id] + old(list) && units == old(units)[s.id := NewUnit(s)]
      ensures V() == old(V()).(spans := old(spans)[s.id := Span(s.startPc, s.startPc, s.reservedEnd)])
      ensures ws.size == old(ws.size) + (s.endPc - s.startPc) && ws.Count() == Counters(0, 0)
    {
      hide Core, UnitsOk, RoomOk, AllAligned;
      NewUnitSound(params, V(), units, list, s, size);
      units := units[s.id := NewUnit(s)];
      spans := spans[s.id := Span(s.startPc, s.startPc, s.reservedEnd)];
      list := [s.id] + list;
      ws.size := ws.size + (s.endPc - s.startPc);
      ws.replaced, ws.regenerated := 0, 0;
    }

    /** The slot would fit if all of the current unit's reservation were committed. */
    ghost predicate Reservable(need: int)
      requires list != [] && list[0] in units
      reads this
    {
      units[list[0]].curPc + need <= units[list[0]].reservedEnd
    }

    /**
     Makes room for a slot that does not fit: commits more, or starts another unit.  Fails
     exactly when neither the reservation nor the configured maximum has room.
     */
    method TryForMoreSpace(need: int, s: Supply) returns (ok: bool)
      requires Valid() && MIN_SLOT <= need <= 0x1_0000 + 91 && list[0] in units
      requires units[list[0]].endPc < units[list[0]].curPc + need
      requires !Reservable(need) && MayGrow(need) ==>
                Unmapped(units, s) && Supplies(params, UnitSize(Potential(), need), s)
      modifies this, ws`size, ws`replaced, ws`regenerated
      ensures Valid() && Calm(old(V()), V()) && list[0] in units
      ensures ok <==> old(Reservable(need)) || old(MayGrow(need))
      ensures old(Reservable(need)) ==>
                && list == old(list) && V() == old(V()) && Potential() == old(Potential())
                && units[list[0]].curPc + need <= units[list[0]].endPc
      ensures !old(Reservable(need)) && ok ==>
                && list == [s.id] + old(list) && units[s.id] == NewUnit(s) && Reservable(need)
                && Potential() == old(Potential()) + (s.reservedEnd - s.startPc)
                && ws.size == old(Potential()) + (s.endPc - s.startPc) && ws.Count() == Counters(0, 0)
      ensures old(Reservable(need)) || !ok ==> ws.Count() == old(ws.Count())
      ensures !ok ==>
                && list == old(list) && Potential() == ws.size == old(Potential()) && !MayGrow(need)
                && units[list[0]].endPc < units[list[0]].curPc + need
    {
      hide Core, UnitsOk, RoomOk, AllAligned, Aligned, Calm;
      ghost var v := V();
      HeadUnit(params, spans, units, list[0]);
      ok := CommitOrSeal(need);
      if ok { return; }
      if ws.maxSize == 0 || ws.size + need <= ws.maxSize {
        ghost var w := V();
        AnotherUnit(UnitSize(ws.size, need), s);
        CalmChain(v, w, V());
        return true;
      }
      return false;
    }

    /** Commits what the reservation has if the slot then fits, and otherwise uses all of it up. */
    method CommitOrSeal(need: int) returns (fits: bool)
      requires Valid() && 0 < need && list[0] in units && units[list[0]].endPc < units[list[0]].curPc + need
      modifies this, ws`size
      ensures Valid() && Calm(old(V()), V()) && list == old(list) && list[0] in units && Potential() == old(Potential())
      ensures fits <==> old(Reservable(need))
      ensures fits ==> V() == old(V()) && units[list[0]].curPc + need <= units[list[0]].endPc
      ensures !fits ==> Potential() == ws.size && units[list[0]].endPc < units[list[0]].curPc + need
      ensures forall x :: Unmapped(old(units), x) ==> Unmapped(units, x)
    {
      hide Core, UnitsOk, RoomOk, AllAligned, Aligned, Calm;
      ghost var v := V();
      CoreRing(v, {}, {});
      HeadUnit(params, spans, units, list[0]);
      SpanUnit(spans, units, list[0]);
      CalmSame(v, v);
      if units[list[0]].endPc < units[list[0]].reservedEnd {
        ExtendCommitment(need);
        if units[list[0]].curPc + need <= units[list[0]].endPc {
          return true;
        }
        SealUnit();
      }
      return false;
    }

    /** Fills the current unit out to its end and starts another. */
    method AnotherUnit(size: int, s: Supply)
      requires Valid() && list[0] in units && Unmapped(units, s) && 0 < size && Supplies(params, size, s)
      modifies this, ws`size, ws`replaced, ws`regenerated
      ensures Valid() && Calm(old(V()), V())
      ensures list == [s.id] + old(list) && units[s.id] == NewUnit(s) && units.Keys == old(units).Keys + {s.id}
      ensures ws.size == old(ws.size) + (s.endPc - s.startPc) && ws.Count() == Counters(0, 0)
    {
      hide Core, UnitsOk, RoomOk, AllAligned, Aligned, Calm;
      ghost var v := V();
      HeadUnit(params, spans, units, list[0]);
      SealUnit();
      ghost var w := V();
      CoreRing(w, {}, {});
      StillUnmapped(old(units), units, list[0], s);
      StartUnit(size, s);
      CalmSame(w, V());
      CalmChain(v, w, V());
    }

    // -------------------------------------------------------------- adding a fragment

    ghost predicate Roomy(need: int)
      requires list != [] && list[0] in units
      reads this
    {
      units[list[0]].curPc + need <= units[list[0]].endPc
    }

    /** First choices: an empty slot and its neighbours, then room at the end of the current unit. */
    method FindRoom(f: nat, need: int, regen: bool)
      returns (placed: bool, next: Link, ghost a: int, ghost gone: set<nat>, ghost how: How)
      requires Valid() && list[0] in units && f in entries && f !in q && Request(params, entries[f], need)
      modifies `mem, `entries, `fifo, `nextId, `tiles, `q, `empties, `units, `spans, ws`replaced, ws`regenerated
      ensures Valid() && SameExtent(old(units), units) && FirstChoice(old(V()), old(units), need, how)
      ensures placed ==> Outcome(old(V()), V(), f, a, need, gone, {})
      ensures placed ==> (how.InEmptySlot? && a == Hdr(old(entries)[old(q)[how.at]])) ||
                         (how.AtEnd? && old(Roomy(need)) && gone == {} && a == old(units[list[0]].curPc))
      ensures !placed ==>
                how.Nowhere? && V() == old(V()) && units == old(units) && ws.Count() == old(ws.Count()) && !Roomy(need)
      ensures old(empties <= |q|) && empties <= |q|
      ensures placed ==>
                ws.Count() ==
                if how.AtEnd? then old(ws.Count()) else Counted(old(ws.Count()), Lost(old(V()), V()), regen)
      ensures !placed ==> next == (if empties < |q| then At(q[empties]) else Nil)
    {
      hide Core, UnitsOk, RoomOk, AllAligned, Aligned, Replaced, Turns, Replaceable, Outcome;
      ghost var v, us := V(), units;
      CoreRing(v, {}, {});
      HeadAt(v);
      SealLeft(params, v, units, list);
      ghost var at, u;
      placed, next, at, u, gone := ReplaceFifo(f, need, fifo, true, regen, 0);
      if placed {
        ReplacedFacts(params, v, V(), us, units, list, u, v.q[at], need, f, gone);
        a, how := Hdr(v.entries[v.q[at]]), InEmptySlot(at);
        EmptyPosition(v, at);
        OutcomeWhole(v, V(), f, a, need, gone, {});
        return;
      }
      FirstFragment(v, at);
      var unit := list[0];
      if !units[unit].full && units[unit].endPc - units[unit].curPc >= need {
        a, gone, how := units[unit].curPc, {}, AtEnd;
        AppendFragment(f, need);
        CoreRing(V(), {}, {});
        OutcomeWhole(v, V(), f, a, need, gone, {});
        placed := true;
        return;
      }
      a, how := 0, Nowhere;
    }

    /** What a caller must supply for one level of retry. */
    ghost predicate Supplied(need: int, s: Supply, stage: nat)
      requires ParamsOk(params) && list != [] && list[0] in units && 0 <= need <= 0x1_0000 + 91
      reads this, ws`size
    {
      && (stage == 0 ==> Roomy(need))
      && (stage == 1 ==> Reservable(need))
      && (stage >= 2 && !Reservable(need) && MayGrow(need) ==>
            Unmapped(units, s) && Supplies(params, UnitSize(Potential(), need), s))
    }

    /** The supplied unit was put in front of the list, or not, and what may be committed has grown with it, or not. */
    ghost predicate Extended(grown: bool, was: seq<nat>, bytes: int, s: Supply)
      requires list != [] && list[0] in units
      reads this, ws`size
    {
      && list == (if grown then [s.id] + was else was)
      && Potential() == bytes + (if grown then s.reservedEnd - s.startPc else 0)
    }

    /** How often the working set is tested: by every attempt that finds no room at first. */
    ghost function Tests(how: How, retries: nat): nat {
      retries + if how.InEmptySlot? || how.AtEnd? then 0 else 1
    }

    /** The working-set state after an addition whose `tests` tests began with the one that left `g`. */
    ghost function Later(g: Gauge, bytes: int, need: nat, s: Supply, regen: bool, how: How, tests: nat, grown: bool,
                         lost: int): Gauge
    {
      var renewed := if grown then g.(counters := Counters(0, 0), size := bytes + (s.endPc - s.startPc)) else g;
      var last := if grown && tests > 1 then ws.Checked(renewed, need) else renewed;
      last.(counters := if how.AtEnd? || how.Nowhere? then last.counters else Counted(last.counters, lost, regen))
    }

    /** A new unit clears the counters; victims and the regenerated fragment are counted last. */
    ghost function Reckoned(g: Gauge, bytes: int, need: nat, s: Supply, regen: bool, how: How, retries: nat,
                            grown: bool, lost: int): Gauge
    {
      var tests := Tests(how, retries);
      Later(if tests > 0 then ws.Checked(g, need) else g, bytes, need, s, regen, how, tests, grown, lost)
    }

    /**
     Places `f`: in an empty slot, at the end of the current unit, after making more space when
     the working set warrants it, over the oldest deletable fragments, after making more space
     regardless, or after aborting the trace in progress.
     `stage` bounds the retries: at stage 1 the current unit's reservation holds the slot, at
     stage 0 its committed part does.
     */
    method AddFragmentCommon(f: nat, need: int, s: Supply, trace: set<nat>, regen: bool, ghost stage: nat)
      returns (placed: bool, ghost a: int, ghost gone: set<nat>, ghost how: How, ghost retries: nat)
      requires Valid() && f in entries && f !in q && f !in trace && Request(params, entries[f], need)
      requires list[0] in units && Supplied(need, s, stage)
      modifies this, ws
      ensures Valid() && list[0] in units && (stage < 2 ==> placed) && retries <= stage
      ensures placed ==> Outcome(old(V()), V(), f, a, need, gone, trace)
      ensures retries == 0 ==> FirstChoice(old(V()), old(units), need, how)
      ensures retries == 0 && !how.InEmptySlot? ==> (how.AtEnd? <==> old(Roomy(need)))
      ensures retries == 0 && how.OverFragments? ==>
                if old(ws.Warranted(need)) then !old(Reservable(need)) && !old(MayGrow(need))
                else OldestFirst(old(V()), old(units), need, how.at)
      ensures retries == 0 && (how.AfterAbort? || how.Nowhere?) ==> !old(Reservable(need)) && !old(MayGrow(need))
      ensures !placed ==> Turns(old(V()), V(), {}, []) && Stuck(V(), units, need) && !Roomy(need) && !MayGrow(need)
      ensures Extended(retries > 0 && !old(Reservable(need)), old(list), old(Potential()), s)
      ensures retries > 0 ==> old(Reservable(need) || MayGrow(need))
      ensures retries > 0 ==> old(ws.Warranted(need)) || NoneOld(old(V()), old(units), need)
      ensures old(empties <= |q|) && empties <= |q|
      ensures ws.Now() == Reckoned(old(ws.Now()), old(Potential()), need, s, regen, how, retries,
                                   retries > 0 && !old(Reservable(need)), Lost(old(V()), V())).(size := ws.size)
      decreases stage, 4
    {
      hide Core, UnitsOk, RoomOk, AllAligned, Aligned, Turns, Replaceable, Calm;
      hide FirstChoice, Outcome, OldestFirst, Stuck;
      ghost var v := V();
      CoreRing(v, {}, {});
      var next;
      placed, next, a, gone, how := FindRoom(f, need, regen);
      retries := 0;
      if placed {
        OutcomeTrace(v, V(), f, a, need, gone, trace);
        HeadUnit(params, spans, units, list[0]);
        return;
      }
      placed, a, gone, how, retries := GrowOrReplace(f, need, s, trace, regen, next, stage);
      if retries == 0 { FirstChoiceOther(v, old(units), need, Nowhere, how); }
    }

    /** Second choices: more space if the working set warrants it, else the last choices. */
    method GrowOrReplace(f: nat, need: int, s: Supply, trace: set<nat>, regen: bool, next: Link, ghost stage: nat)
      returns (placed: bool, ghost a: int, ghost gone: set<nat>, ghost how: How, ghost retries: nat)
      requires Valid() && f in entries && f !in q && f !in trace && Request(params, entries[f], need)
      requires list[0] in units && 1 <= stage && Supplied(need, s, stage) && !Roomy(need)
      requires empties <= |q| && next == (if empties < |q| then At(q[empties]) else Nil)
      modifies this, ws
      ensures Valid() && list[0] in units && (stage < 2 ==> placed) && retries <= stage
      ensures placed ==> Outcome(old(V()), V(), f, a, need, gone, trace)
      ensures retries == 0 ==> how.OverFragments? || how.AfterAbort? || how.Nowhere?
      ensures retries == 0 && how.OverFragments? ==>
                if old(ws.Warranted(need)) then !old(Reservable(need)) && !old(MayGrow(need))
                else OldestFirst(old(V()), old(units), need, how.at)
      ensures retries == 0 && !how.OverFragments? ==> !old(Reservable(need)) && !old(MayGrow(need))
      ensures !placed ==> Turns(old(V()), V(), {}, []) && Stuck(V(), units, need) && !Roomy(need) && !MayGrow(need)
      ensures Extended(retries > 0 && !old(Reservable(need)), old(list), old(Potential()), s)
      ensures retries > 0 ==> old(Reservable(need) || MayGrow(need))
      ensures retries > 0 ==> old(ws.Warranted(need)) || NoneOld(old(V()), old(units), need)
      ensures old(empties <= |q|) && empties <= |q|
      ensures ws.Now() == Later(old(ws.Checked(ws.Now(), need)), old(Potential()), need, s, regen, how,
                                Tests(how, retries), retries > 0 && !old(Reservable(need)),
                                Lost(old(V()), V())).(size := ws.size)
      decreases stage, 3
    {
      hide Core, UnitsOk, RoomOk, AllAligned, Aligned, Turns, Replaceable, Calm;
      hide FirstChoice, Outcome, OldestFirst, Stuck;
      ghost var v := V();
      CoreRing(v, {}, {});
      var grow := ws.CheckRegenReplaceRatio(need);
      CalmSame(v, V());
      if grow {
        var more;
        more, a, gone, how, retries := GrowAndRetry(f, need, s, trace, regen, stage);
        if more { return true, a, gone, how, retries; }
        CalmFirst(v, V(), next);
      }
      ghost var w := V();
      CalmOutside(v, w, f);
      placed, a, gone, how, retries := MakeWay(f, need, s, trace, regen, next, stage);
      CalmLost(v, w, V());
      if placed { CalmThenPlaced(v, w, V(), f, a, need, gone, trace); } else { CalmThenTurns(v, w, V()); }
    }

    /** The tests and counts of a retry, seen from before the space was made. */
    lemma RetryReckons(g: Gauge, m: Gauge, bytes: int, more: int, need: nat, s: Supply, regen: bool, how: How,
                       retries: nat, fits: bool, lost: int, size: int)
      requires fits ==> m == g.(size := m.size) && Tests(how, retries) == 0
      requires !fits ==> m == g.(counters := Counters(0, 0), size := bytes + (s.endPc - s.startPc))
      ensures Reckoned(m, more, need, s, regen, how, retries, false, lost).(size := size) ==
              Later(g, bytes, need, s, regen, how, Tests(how, retries + 1), !fits, lost).(size := size)
    {
    }

    /** Tries for more space and, if there is some, starts over. */
    method GrowAndRetry(f: nat, need: int, s: Supply, trace: set<nat>, regen: bool, ghost stage: nat)
      returns (more: bool, ghost a: int, ghost gone: set<nat>, ghost how: How, ghost retries: nat)
      requires Valid() && f in entries && f !in q && f !in trace && Request(params, entries[f], need)
      requires list[0] in units && 1 <= stage && Supplied(need, s, stage) && !Roomy(need)
      modifies this, ws
      ensures Valid() && list[0] in units && (more <==> old(Reservable(need)) || old(MayGrow(need)))
      ensures more ==> Outcome(old(V()), V(), f, a, need, gone, trace) && 1 <= retries <= stage
      ensures !more ==> Calm(old(V()), V()) && !Reservable(need) && !MayGrow(need) && !Roomy(need)
      ensures !more ==> retries == 0 && ws.Now() == old(ws.Now()).(size := ws.size)
      ensures old(empties <= |q|) && empties <= |q|
      ensures more ==> ws.Now() == Later(old(ws.Now()), old(Potential()), need, s, regen, how, Tests(how, retries),
                                         retries > 0 && !old(Reservable(need)), Lost(old(V()), V())).(size := ws.size)
      ensures Extended(retries > 0 && !old(Reservable(need)), old(list), old(Potential()), s)
      ensures retries > 0 ==> old(Reservable(need) || MayGrow(need))
      decreases stage, 0
    {
      hide Core, UnitsOk, RoomOk, AllAligned, Aligned, Turns, Replaceable, Calm;
      hide FirstChoice, Outcome, OldestFirst, Stuck, Reckoned, Later, Counted;
      ghost var v, fits := V(), Reservable(need);
      CoreRing(v, {}, {});
      a, gone, how, retries := 0, {}, Nowhere, 0;
      more := TryForMoreSpace(need, s);
      CoreRing(V(), {}, {});
      if more {
        ghost var w, m, bytes := V(), ws.Now(), Potential();
        CalmOutside(v, w, f);
        var placed;
        placed, a, gone, how, retries := AddFragmentCommon(f, need, s, trace, regen, if fits then 0 else 1);
        CalmLost(v, w, V());
        CalmThenPlaced(v, w, V(), f, a, need, gone, trace);
        RetryReckons(old(ws.Now()), m, old(Potential()), bytes, need, s, regen, how, retries, fits, Lost(v, V()),
                     ws.size);
        retries := retries + 1;
      }
    }

    /** Last choices: over the oldest deletable fragments, after growing anyway, after aborting the trace. */
    method MakeWay(f: nat, need: int, s: Supply, trace: set<nat>, regen: bool, next: Link, ghost stage: nat)
      returns (placed: bool, ghost a: int, ghost gone: set<nat>, ghost how: How, ghost retries: nat)
      requires Valid() && f in entries && f !in q && f !in trace && Request(params, entries[f], need)
      requires list[0] in units && 1 <= stage && Supplied(need, s, stage) && !Roomy(need)
      requires empties <= |q| && next == (if empties < |q| then At(q[empties]) else Nil)
      modifies this, ws
      ensures Valid() && list[0] in units && (stage < 2 ==> placed) && retries <= stage
      ensures placed ==> Outcome(old(V()), V(), f, a, need, gone, trace)
      ensures retries == 0 ==> how.OverFragments? || how.AfterAbort? || how.Nowhere?
      ensures retries == 0 && how.OverFragments? ==> OldestFirst(old(V()), old(units), need, how.at)
      ensures retries == 0 && !how.OverFragments? ==> !old(Reservable(need)) && !old(MayGrow(need))
      ensures !placed ==> Turns(old(V()), V(), {}, []) && Stuck(V(), units, need) && !Roomy(need) && !MayGrow(need)
      ensures Extended(retries > 0 && !old(Reservable(need)), old(list), old(Potential()), s)
      ensures retries > 0 ==> old(Reservable(need) || MayGrow(need))
      ensures retries > 0 ==> NoneOld(old(V()), old(units), need)
      ensures old(empties <= |q|) && empties <= |q|
      ensures ws.Now() == Later(old(ws.Now()), old(Potential()), need, s, regen, how, Tests(how, retries),
                                retries > 0 && !old(Reservable(need)), Lost(old(V()), V())).(size := ws.size)
      decreases stage, 2
    {
      hide Core, UnitsOk, RoomOk, AllAligned, Aligned, Turns, Replaceable, Calm, FirstChoice, Outcome, Replaced;
      hide Stuck, Counted, Reckoned;
      ghost var v, us := V(), units;
      CoreRing(v, {}, {});
      retries := 0;
      ghost var at, u;
      var stop;
      placed, stop, at, u, gone := ReplaceFifo(f, need, next, false, regen, empties);
      if placed {
        ReplacedFacts(params, v, V(), us, units, list, u, v.q[at], need, f, gone);
        a, how := Hdr(v.entries[v.q[at]]), OverFragments(at);
        OutcomeWhole(v, V(), f, a, need, gone, trace);
        HeadUnit(params, spans, units, list[0]);
        return;
      }
      placed, a, gone, how, retries := GrowOrAbort(f, need, s, trace, regen, stage);
    }

    /** More space regardless of the working set or, if there is none, the FIFO once more without the trace. */
    method GrowOrAbort(f: nat, need: int, s: Supply, trace: set<nat>, regen: bool, ghost stage: nat)
      returns (placed: bool, ghost a: int, ghost gone: set<nat>, ghost how: How, ghost retries: nat)
      requires Valid() && f in entries && f !in q && f !in trace && Request(params, entries[f], need)
      requires list[0] in units && 1 <= stage && Supplied(need, s, stage) && !Roomy(need)
      modifies this, ws
      ensures Valid() && list[0] in units && (stage < 2 ==> placed) && retries <= stage
      ensures placed ==> Outcome(old(V()), V(), f, a, need, gone, trace)
      ensures retries == 0 ==> (how.AfterAbort? || how.Nowhere?) && !old(Reservable(need)) && !old(MayGrow(need))
      ensures !placed ==> Turns(old(V()), V(), {}, []) && Stuck(V(), units, need) && !Roomy(need) && !MayGrow(need)
      ensures Extended(retries > 0 && !old(Reservable(need)), old(list), old(Potential()), s)
      ensures retries > 0 ==> old(Reservable(need) || MayGrow(need))
      ensures old(empties <= |q|) && empties <= |q|
      ensures ws.Now() == Later(old(ws.Now()), old(Potential()), need, s, regen, how, Tests(how, retries),
                                retries > 0 && !old(Reservable(need)), Lost(old(V()), V())).(size := ws.size)
      decreases stage, 1
    {
      hide Core, UnitsOk, RoomOk, AllAligned, Aligned, Turns, Replaceable, Calm, Outcome, Stuck;
      ghost var v := V();
      CoreRing(v, {}, {});
      var more;
      more, a, gone, how, retries := GrowAndRetry(f, need, s, trace, regen, stage);
      if more { return true, a, gone, how, retries; }
      ghost var w := V();
      CalmOutside(v, w, f);
      CoreRing(w, {}, {});
      placed, a, gone, how := AbortAndReplace(f, need, trace, regen);
      CalmLost(v, w, V());
      HeadUnit(params, spans, units, list[0]);
      if placed { CalmThenPlaced(v, w, V(), f, a, need, gone, trace); } else { CalmThenTurns(v, w, V()); }
    }

    /** The fragments of the trace become deletable. */
    method Unpin(trace: set<nat>, ghost f: nat)
      requires Valid()
      modifies `entries
      ensures Valid() && V() == Unpinned(old(V()), trace) && Turns(old(V()), V(), {}, [])
      ensures f in old(entries) && f !in trace ==> f in entries && entries[f] == old(entries[f])
    {
      hide Core, UnitsOk, RoomOk, AllAligned, Turns;
      UnpinnedSound(params, V(), units, list, trace);
      entries := map id | id in entries :: if id in trace then entries[id].(pinned := false) else entries[id];
      assert V() == Unpinned(old(V()), trace);
    }

    /** Aborts the trace in progress, whose fragments become deletable, and tries the whole FIFO. */
    method AbortAndReplace(f: nat, need: int, trace: set<nat>, regen: bool)
      returns (placed: bool, ghost a: int, ghost gone: set<nat>, ghost how: How)
      requires Valid() && f in entries && f !in q && f !in trace && Request(params, entries[f], need)
      modifies this, ws
      ensures Valid() && list == old(list) && ws.size == old(ws.size) && SameExtent(old(units), units)
      ensures placed ==> how.AfterAbort? && Outcome(old(V()), V(), f, a, need, gone, trace)
      ensures !placed ==> how.Nowhere? && Turns(old(V()), V(), {}, []) && units == old(units) && Stuck(V(), units, need)
      ensures !placed ==> V() == Unpinned(old(V()), trace)
      ensures old(empties <= |q|) && empties <= |q|
      ensures ws.Now() ==
                old(ws.Now()).(counters := if placed then Counted(old(ws.Count()), Lost(old(V()), V()), regen)
                                           else old(ws.Count()))
    {
      hide Core, UnitsOk, RoomOk, AllAligned, Aligned, Turns, Replaceable, Calm, FirstChoice, Outcome, Replaced;
      hide Unpinned;
      ghost var v, us := V(), units;
      CoreRing(v, {}, {});
      Unpin(trace, f);
      ghost var w := V();
      CoreRing(w, {}, {});
      HeadAt(w);
      ghost var at, u;
      var stop;
      placed, stop, at, u, gone := ReplaceFifo(f, need, fifo, false, regen, 0);
      a, how := 0, Nowhere;
      if placed {
        ReplacedFacts(params, w, V(), us, units, list, u, w.q[at], need, f, gone);
        a, how := Hdr(w.entries[w.q[at]]), AfterAbort(at);
        AbortThenPlaced(v, V(), f, a, need, gone, trace);
      }
    }

    /**
     Adds a fragment to the cache.  It is placed unless the cache is at its maximum and, even
     after the trace in progress is aborted, no replacement can succeed; with nothing pinned that
     means that no unit is large enough.
     */
    method AddFragment(f: nat, s: Supply, trace: set<nat>, regen: bool)
      returns (placed: bool, ghost a: int, ghost gone: set<nat>, ghost how: How, ghost retries: nat)
      requires Valid() && f in entries && f !in q && f !in trace && !entries[f].empty && 0 <= entries[f].size <= 0xFFFF
      requires list[0] in units && Supplied(SlotFor(params, entries[f].size), s, 2)
      modifies this, ws
      ensures Valid() && list[0] in units
      ensures var need, grown := old(SlotFor(params, entries[f].size)), list != old(list);
              && Extended(grown, old(list), old(Potential()), s)
              && (grown <==> retries > 0 && !old(Reservable(need))) && (grown ==> old(MayGrow(need)))
              && (retries > 0 ==> old(ws.Warranted(need)) || NoneOld(old(V()), old(units), need))
              && (retries == 0 ==> FirstChoice(old(V()), old(units), need, how))
              && (retries == 0 && !how.InEmptySlot? ==> (how.AtEnd? <==> old(Roomy(need))))
              && (retries == 0 && how.OverFragments? ==>
                    if old(ws.Warranted(need)) then !old(Reservable(need)) && !old(MayGrow(need))
                    else OldestFirst(old(V()), old(units), need, how.at))
      ensures old(empties <= |q|) && empties <= |q|
      ensures var need, grown := old(SlotFor(params, entries[f].size)), list != old(list);
              ws.Now() == Reckoned(old(ws.Now()), old(Potential()), need, s, regen, how, retries, grown,
                                   Lost(old(V()), V())).(size := ws.size)
      ensures old(WithinMax()) ==>
                (WithinMax() <==>
                   list == old(list) || ws.maxSize == 0 ||
                   old(Potential()) + (s.reservedEnd - s.startPc) <= ws.maxSize)
      ensures s.reservedEnd - s.startPc == old(UnitSize(Potential(), SlotFor(params, entries[f].size))) ==>
                (old(WithinMax()) ==> WithinMax())
      ensures WithinMax() && ws.maxSize != 0 ==> ws.size <= ws.maxSize
      ensures placed ==> Outcome(old(V()), V(), f, a, old(SlotFor(params, entries[f].size)), gone, trace)
      ensures !placed ==>
                && Turns(old(V()), V(), {}, []) && Stuck(V(), units, old(SlotFor(params, entries[f].size)))
                && !MayGrow(old(SlotFor(params, entries[f].size)))
      ensures !placed && (forall id :: id in q && id in entries ==> !entries[id].pinned) ==>
                forall u :: u in spans && u in units ==>
                              units[u].endPc - units[u].startPc < old(SlotFor(params, entries[f].size))
    {
      hide Core, UnitsOk, RoomOk, AllAligned, Aligned, Turns, Replaceable, Outcome, Later, FirstChoice, OldestFirst;
      var need := SlotFor(params, entries[f].size);
      placed, a, gone, how, retries := AddFragmentCommon(f, need, s, trace, regen, 2);
      assert |[s.id] + old(list)| != |old(list)|;
      HeadUnit(params, spans, units, list[0]);
      SpanUnit(spans, units, list[0]);
      if !placed && (forall id :: id in q && id in entries ==> !entries[id].pinned) {
        forall u | u in spans && u in units ensures units[u].endPc - units[u].startPc < need {
          StuckUnit(params, V(), units, list, u, need);
        }
      }
    }

    /** Deletes fragment `f`: its slot becomes an empty slot at the FIFO's front and it leaves the FIFO. */
    method RemoveFragment(f: nat)
      requires Valid() && f in q && f in entries && !entries[f].empty
      modifies `mem, `entries, `fifo, `nextId, `tiles, `q, `empties
      ensures Valid() && Turns(old(V()), V(), {f}, []) && f !in q
      ensures 0 < empties <= |q| && q[0] in entries && entries[q[0]].empty
      ensures var e := entries[q[0]];
              Hdr(e) <= old(Hdr(entries[f])) && old(Hdr(entries[f]) + Slot(entries[f])) <= Hdr(e) + Slot(e)
    {
      hide Core, UnitsOk, RoomOk, AllAligned, Aligned, FragSeq, Turns, Ring;
      ghost var v := V();
      var a := Hdr(entries[f]);
      EntrySlot(v, f);
      VacatedCore(v, {}, {}, f);
      assert {} + {a} == {a} && {} + {f} == {f};
      CoreRing(v, {}, {});
      PrependEmpty(a, Slot(entries[f]), {a}, {f});
      ghost var w := V();
      RemovedSlot(params, v, w, units, list, f, a, old(nextId));
      FifoRemove(f);
    }

    /** Walks unit `u` from its start to the fragment whose body holds `pc`, if any. */
    method PcLookup(u: nat, pc: int) returns (found: Link)
      requires Valid() && u in units && !units[u].pendingFree && units[u].startPc <= pc < units[u].reservedEnd
      ensures found.At? ==> Holds(V(), found.id, pc)
      ensures found == Nil ==> forall f :: !Holds(V(), f, pc)
    {
      hide Core, RoomOk, AllAligned, ClearBelow;
      ghost var v := V();
      assert UnitOk(spans, units, u);
      LookupStart(v, u, pc);
      var cur := units[u].startPc;
      while cur < units[u].curPc && cur < pc
        invariant AtSlot(tiles, spans, u, cur) && ClearBelow(v, u, cur, pc)
      {
        SlotEntry(v, u, cur);
        var f := mem[cur];
        if InBody(entries[f], pc) {
          return At(f);
        }
        LookupNext(v, u, cur, pc);
        cur := cur + Slot(entries[f]);
      }
      LookupDone(v, u, cur, pc);
      return Nil;
    }

    // -------------------------------------------------------------- giving space back

    /** The slot in transit at the end of the current unit's slots becomes unclaimed room. */
    method PopTail(u: nat, h: int)
      requires Sound(params, V(), units, list, {h}, {}) && Fresh() && u == list[0] && u in units && u in spans
      requires h in tiles && tiles[h].unit == u && End(tiles, h) == units[u].curPc == spans[u].hi
      requires h + UnitEndHole(params) <= units[u].endPc
      modifies `tiles, `spans, `units
      ensures Valid() && empties <= |q| && FragsStay(old(V()), V())
      ensures units == old(units)[u := old(units[u]).(curPc := h, full := false)] && u in spans && spans[u].hi == h
    {
      hide Core, UnitsOk, RoomOk, AllAligned;
      ghost var v := V();
      CoreRing(v, {h}, {});
      PoppedSound(params, v, units, list, h);
      SpanUnit(v.spans, units, u);
      ghost var w := Popped(v, h);
      tiles, spans := w.tiles, w.spans;
      units := units[u := units[u].(curPc := h, full := false)];
      assert V() == w;
    }

    /** The slot in transit becomes an empty slot at the FIFO's front. */
    method FileTail(h: int, size: int)
      requires Sound(params, V(), units, list, {h}, {}) && Fresh() && h in tiles && tiles[h].size == size
      modifies `mem, `entries, `fifo, `nextId, `tiles, `q, `empties
      ensures Valid() && empties <= |q| && old(empties <= |q|) && FragsStay(old(V()), V())
      ensures q != [] && Covers(V(), q[0], h, h + size)
    {
      hide Core, UnitsOk, RoomOk, AllAligned, FragsStay;
      ghost var v := V();
      CoreRing(v, {h}, {});
      EmptyAddedSound(params, v, units, list, h, nextId);
      PrependEmpty(h, size, {h}, {});
      CoreRing(V(), {}, {});
    }

    /** The slot in transit joins the empty slot behind it. */
    method JoinNext(h: int, size: int)
      requires Sound(params, V(), units, list, {h}, {}) && Fresh() && h in tiles && tiles[h].size == size
      requires h + size in tiles && EmptyAt(V(), h + size) && mem[h + size] in q
      requires Hdr(entries[mem[h + size]]) == h + size
      modifies `mem, `entries, `tiles
      ensures Valid() && empties <= |q| && FragsStay(old(V()), V())
      ensures Covers(V(), old(mem[h + size]), h, h + size)
    {
      hide Core, UnitsOk, RoomOk, AllAligned, FragsStay;
      ghost var v := V();
      var id := mem[h + size];
      JoinedSound(params, v, units, list, h, id);
      tiles := Merge(tiles, h);
      entries := entries[id := entries[id].(startPc := h + HEADER_SIZE)];
      mem := mem[h := id];
      entries := entries[id := entries[id].(size := entries[id].size + size)];
      assert V() == GrownDown(v, h, id);
      CoreRing(V(), {}, {});
    }

    /** Do the `ret` returnable bytes of a slot that ends at `end` leave it? */
    method DoesRelease(u: nat, end: int, ret: int) returns (released: bool)
      requires Valid() && u in units
      requires end != units[u].curPc && end != units[u].endPc ==> end in mem && mem[end] in entries
      ensures released <==> Releases(params, V(), units[u], end, ret)
    {
      if ret <= 0 {
        return false;
      }
      if end == units[u].endPc {
        return ret >= UnitEndHole(params);
      }
      return end == units[u].curPc || entries[mem[end]].empty || ret >= params.minHole;
    }

    /** Cuts the slot of `f` after `n` bytes and gives its end back. */
    method TrimSlot(u: nat, f: nat, space: int, n: int)
      requires Valid() && f in q && f in entries && CanShorten(params, entries[f], space)
      requires n == Slot(entries[f]) - Returnable(params, entries[f], space)
      requires Hdr(entries[f]) in tiles && tiles[Hdr(entries[f])] == Tile(Slot(entries[f]), u) && u in units
      requires Releases(params, V(), units[u], Hdr(entries[f]) + Slot(entries[f]), Slot(entries[f]) - n)
      modifies `mem, `entries, `fifo, `nextId, `tiles, `q, `empties, `units, `spans
      ensures Valid() && f in q && f in entries && OthersKept(old(V()), V(), f)
      ensures SameButLinks(Shortened(old(entries[f]), space, n), entries[f])
      ensures var e := old(entries[f]);
              Reclaimed(old(V()), V(), old(units[u]), u, list[0], units, Hdr(e) + n, Hdr(e) + Slot(e))
    {
      hide Core, UnitsOk, RoomOk, AllAligned, FragsStay, OthersKept, Covers, Aligned;
      ghost var v := V();
      var e := entries[f];
      var h, end := Hdr(e) + n, Hdr(e) + Slot(e);
      ShortenedFits(params, e, space, n);
      SlotBehind(params, v, units, list, Hdr(e));
      TrimmedSound(params, v, units, list, f, Shortened(e, space, n), n);
      tiles := Split(tiles, Hdr(e), n);
      entries := entries[f := Shortened(e, space, n)];
      ghost var w := V();
      if end == units[u].endPc && u != list[0] {
        FileTail(h, end - h);
      } else if end == units[u].endPc || end == units[u].curPc {
        PopTail(u, h);
      } else if entries[mem[end]].empty {
        JoinNext(h, end - h);
      } else {
        FileTail(h, end - h);
      }
      TrimmedThenStay(v, w, V(), f, Shortened(e, space, n), n);
    }

    /**
     Gives the last `space` bytes of a fragment back, as far as alignment and the smallest legal
     slot allow; `given` is the number of bytes that left the slot.
     */
    method ReturnExtraSpace(f: nat, space: int) returns (given: int)
      requires Valid() && f in q && f in entries && !entries[f].empty && 0 <= space <= entries[f].size
      modifies `mem, `entries, `fifo, `nextId, `tiles, `q, `empties, `units, `spans
      ensures Valid() && f in q && f in entries && !entries[f].empty && OthersKept(old(V()), V(), f)
      ensures entries[f].size == old(entries[f].size) - space && Hdr(entries[f]) == old(Hdr(entries[f]))
      ensures Slot(entries[f]) + given == old(Slot(entries[f])) && CanShorten(params, entries[f], 0)
      ensures old(CanShorten(params, entries[f], space))
      ensures old(Hdr(entries[f]) in tiles && tiles[Hdr(entries[f])].unit in units)
      ensures var e, u := old(entries[f]), old(units[tiles[Hdr(entries[f])].unit]);
              var ret := Returnable(params, e, space);
              given == if Releases(params, old(V()), u, Hdr(e) + Slot(e), ret) then ret else 0
      ensures var e, u := old(entries[f]), old(tiles[Hdr(entries[f])].unit);
              given > 0 ==> Reclaimed(old(V()), V(), old(units)[u], u, list[0], units, Hdr(e) + Slot(e) - given,
                                      Hdr(e) + Slot(e))
    {
      hide Core, UnitsOk, RoomOk, AllAligned, FragsStay, Reclaimed, Aligned;
      ghost var v := V();
      var e := entries[f];
      CoreRing(v, {}, {});
      EntrySlot(v, f);
      FragmentFits(params, v, f, space);
      SlotBehind(params, v, units, list, Hdr(e));
      var u := LookupUnit(e.startPc, Hdr(e));
      var ret := Returnable(params, e, space);
      var released := DoesRelease(u, Hdr(e) + Slot(e), ret);
      given := if released then ret else 0;
      var n := Slot(e) - given;
      ShortenedFits(params, e, space, n);
      if released {
        TrimSlot(u, f, space, n);
      } else {
        RerecordedSound(params, v, units, list, f, Shortened(e, space, n));
        entries := entries[f := Shortened(e, space, n)];
      }
      FragmentFits(params, V(), f, 0);
    }
  }

  /**
   A dead unit that is reused needs only its committed part to fit: its reservation, which can
   be committed later without another look at the maximum, may exceed what the maximum leaves.
   */
  method ReservationOverMax(w: Set) returns (c: Cache)
    requires w.size == 0 && w.maxSize == 0x4000
    modifies w
    ensures c.ws == w && c.Valid() && c.list[0] in c.units && !c.WithinMax()
  {
    var p := Params(4, 64, 0x1000, 0x2000);
    c := new Cache(p, w, 0x1000, Supply(0, 0x1000, 0x2000, 0x2000));
    assert c.WithinMax() && c.Potential() == 0x1000;
    c.entries, c.nextId := map[0 := Entry(false, 0, 5000, 0, false, Nil, Nil)], 1;
    var need := SlotFor(p, 5000);
    var s := Supply(1, 0x1_0000, 0x1_3000, 0x1_4000);
    assert Supplies(p, c.UnitSize(c.Potential(), need), s);
    ghost var a, gone, how, retries;
    var placed;
    placed, a, gone, how, retries := c.AddFragmentCommon(0, need, s, {}, false, 2);
  }
}
