/**
 The invariant of a private cache: the FIFO holds exactly the entries whose slots tile the units,
 every header word points back at its entry, and empty slots come before fragments.

 `holes` are slots in transit that no entry describes; `limbo` are FIFO entries whose slot has
 already been given to another entry.
 */
module FifoLayout {
  import opened Layout
  import opened FifoRing
  import opened Units

  datatype View = View(tiles: Tiles, spans: Spans, mem: map<int, nat>, entries: Entries,
                       head: Link, q: seq<nat>, empties: nat)

  /** The slot's header word points at a FIFO entry that describes exactly this slot. */
  ghost predicate Backed(v: View, holes: set<int>, limbo: set<nat>, a: int) {
    a in v.tiles && a !in holes ==>
      && a in v.mem && v.mem[a] in v.entries
      && v.mem[a] in v.q && v.mem[a] !in limbo
      && Hdr(v.entries[v.mem[a]]) == a && Slot(v.entries[v.mem[a]]) == v.tiles[a].size
  }

  /** The FIFO entry describes a slot whose header word points back at it. */
  ghost predicate Owns(v: View, holes: set<int>, limbo: set<nat>, id: nat) {
    id in v.q && id !in limbo ==>
      && id in v.entries
      && var a := Hdr(v.entries[id]);
      && a in v.tiles && a !in holes && a in v.mem && v.mem[a] == id
  }

  predicate LegalSize(e: Entry) {
    0 <= e.size && HEADER_SIZE <= e.extra <= 255 && MIN_SLOT <= Slot(e)
  }

  /** Empty slots are a prefix of the FIFO, and fragments have legal sizes. */
  ghost predicate Ordered(v: View, i: int) {
    0 <= i < |v.q| ==>
      && v.q[i] in v.entries
      && (v.entries[v.q[i]].empty <==> i < v.empties)
      && (!v.entries[v.q[i]].empty ==> LegalSize(v.entries[v.q[i]]))
  }

  ghost predicate Core(v: View, holes: set<int>, limbo: set<nat>) {
    && Tiled(v.tiles, v.spans)
    && Ring(v.q, v.head, v.entries)
    && v.empties <= |v.q|
    && holes <= v.tiles.Keys
    && (forall a {:trigger Backed(v, holes, limbo, a)} :: Backed(v, holes, limbo, a))
    && (forall id {:trigger Owns(v, holes, limbo, id)} :: Owns(v, holes, limbo, id))
    && (forall i {:trigger Ordered(v, i)} :: Ordered(v, i))
  }

  /** FIFO entries and slots correspond one to one. */
  lemma OneToOne(v: View, id: nat, a: int)
    requires Core(v, {}, {})
    ensures id in v.q ==>
              && id in v.entries && Hdr(v.entries[id]) in v.tiles
              && Hdr(v.entries[id]) in v.mem && v.mem[Hdr(v.entries[id])] == id
    ensures a in v.tiles ==> a in v.mem && v.mem[a] in v.q && v.mem[a] in v.entries && Hdr(v.entries[v.mem[a]]) == a
    ensures id in v.q && a in v.tiles ==> (v.mem[a] == id <==> Hdr(v.entries[id]) == a)
  {
    assert Owns(v, {}, {}, id) && Backed(v, {}, {}, a);
  }

  function IndexOf(q: seq<nat>, id: nat): (i: int)
    requires id in q
    ensures 0 <= i < |q| && q[i] == id
  {
    if q[0] == id then 0 else 1 + IndexOf(q[1..], id)
  }

  // ---------------------------------------------------------------- unlinking an entry

  /** `id` leaves the FIFO; an empty slot's record is freed with it. */
  function Unlinked(v: View, id: nat): View
    requires id in v.q && id in v.entries
  {
    var i := IndexOf(v.q, id);
    var linked := LinksWithout(v.entries, v.head, id);
    v.(q := Without(v.q, i),
       head := HeadWithout(v.head, v.entries[id], id),
       entries := if v.entries[id].empty then linked - {id} else linked,
       empties := if i < v.empties then v.empties - 1 else v.empties)
  }

  lemma UnlinkedRing(v: View, holes: set<int>, limbo: set<nat>, id: nat)
    requires Core(v, holes, limbo) && id in v.q && id in v.entries
    ensures Ring(Unlinked(v, id).q, Unlinked(v, id).head, Unlinked(v, id).entries)
    ensures forall x :: x in Unlinked(v, id).q <==> x in v.q && x != id
    ensures forall x :: x in v.entries && x != id ==>
              && x in Unlinked(v, id).entries
              && SameButLinks(v.entries[x], Unlinked(v, id).entries[x])
    ensures !v.entries[id].empty ==>
              id in Unlinked(v, id).entries && SameButLinks(v.entries[id], Unlinked(v, id).entries[id])
  {
    var i := IndexOf(v.q, id);
    RingRemove(v.q, v.head, v.entries, i);
    WithoutMembers(v.q, i);
    var linked := LinksWithout(v.entries, v.head, id);
    RingFrame(Without(v.q, i), Unlinked(v, id).head, linked, Unlinked(v, id).entries);
  }

  lemma UnlinkedOrder(v: View, holes: set<int>, limbo: set<nat>, id: nat)
    requires Core(v, holes, limbo) && id in v.q && id in v.entries
    ensures Unlinked(v, id).empties <= |Unlinked(v, id).q|
    ensures forall j {:trigger Ordered(Unlinked(v, id), j)} :: Ordered(Unlinked(v, id), j)
  {
    var i, w := IndexOf(v.q, id), Unlinked(v, id);
    UnlinkedRing(v, holes, limbo, id);
    forall j ensures Ordered(w, j) {
      if 0 <= j < |w.q| {
        assert Ordered(v, if j < i then j else j + 1);
        assert w.q[j] in w.q;
      }
    }
    assert Ordered(v, i);
  }

  /** Unlinking an entry that owns its slot leaves the slot in transit. */
  lemma UnlinkedCore(v: View, holes: set<int>, limbo: set<nat>, id: nat)
    requires Core(v, holes, limbo) && id in v.q && id !in limbo && id in v.entries
    ensures Core(Unlinked(v, id), holes + {Hdr(v.entries[id])}, limbo)
  {
    var w, a := Unlinked(v, id), Hdr(v.entries[id]);
    UnlinkedRing(v, holes, limbo, id);
    UnlinkedOrder(v, holes, limbo, id);
    assert Owns(v, holes, limbo, id);
    forall b ensures Backed(w, holes + {a}, limbo, b) {
      assert Backed(v, holes, limbo, b);
    }
    forall x ensures Owns(w, holes + {a}, limbo, x) {
      assert Owns(v, holes, limbo, x);
    }
  }

  /** Unlinking an entry in limbo completes its removal. */
  lemma UnlinkedLimbo(v: View, holes: set<int>, limbo: set<nat>, id: nat)
    requires Core(v, holes, limbo) && id in v.q && id in limbo && id in v.entries
    ensures Core(Unlinked(v, id), holes, limbo - {id})
  {
    var w := Unlinked(v, id);
    UnlinkedRing(v, holes, limbo, id);
    UnlinkedOrder(v, holes, limbo, id);
    forall b ensures Backed(w, holes, limbo - {id}, b) {
      assert Backed(v, holes, limbo, b);
    }
    forall x ensures Owns(w, holes, limbo - {id}, x) {
      assert Owns(v, holes, limbo, x);
    }
  }

  // ---------------------------------------------------------------- placing a fragment

  /** A fragment not in the FIFO takes the slot in transit at `a` and goes to the FIFO's end. */
  function Settled(v: View, a: int, f: nat): View
    requires f in v.entries && (v.head.At? ==> v.head.id in v.entries)
  {
    v.(mem := v.mem[a := f], q := v.q + [f], head := if v.q == [] then At(f) else v.head,
       entries := LinksWithLast(v.entries, v.head, f))
  }

  lemma SettledCore(v: View, holes: set<int>, limbo: set<nat>, a: int, f: nat)
    requires Core(v, holes, limbo) && a in holes && f in v.entries && f !in v.q && f !in limbo
    requires v.head.At? ==> v.head.id in v.entries
    requires var e := v.entries[f];
             !e.empty && Hdr(e) == a && Slot(e) == v.tiles[a].size && LegalSize(e)
    ensures Core(Settled(v, a, f), holes - {a}, limbo)
  {
    var w := Settled(v, a, f);
    RingAppend(v.q, v.head, v.entries, f);
    forall b ensures Backed(w, holes - {a}, limbo, b) {
      assert Backed(v, holes, limbo, b);
    }
    forall x ensures Owns(w, holes - {a}, limbo, x) {
      assert Owns(v, holes, limbo, x);
    }
    forall i ensures Ordered(w, i) {
      assert Ordered(v, i);
    }
  }

  // ---------------------------------------------------------------- empty slots

  /** The slot in transit at `a` becomes an empty slot of its own at the FIFO's front. */
  function Prepended(v: View, a: int, id: nat): View
    requires a in v.tiles && (v.head.At? ==> v.head.id in v.entries)
  {
    var e := Entry(true, a + HEADER_SIZE, v.tiles[a].size, 0, false, Nil, Nil);
    v.(mem := v.mem[a := id], q := [id] + v.q, head := At(id),
       entries := LinksWithFirst(v.entries, v.head, id, e), empties := v.empties + 1)
  }

  lemma PrependedCore(v: View, holes: set<int>, limbo: set<nat>, a: int, id: nat)
    requires Core(v, holes, limbo) && a in v.tiles && a in holes && id !in v.entries && id !in limbo
    requires v.head.At? ==> v.head.id in v.entries
    ensures Core(Prepended(v, a, id), holes - {a}, limbo)
  {
    var w := Prepended(v, a, id);
    var e := Entry(true, a + HEADER_SIZE, v.tiles[a].size, 0, false, Nil, Nil);
    RingPrepend(v.q, v.head, v.entries, id, e);
    forall b ensures Backed(w, holes - {a}, limbo, b) {
      assert Backed(v, holes, limbo, b);
    }
    forall x ensures Owns(w, holes - {a}, limbo, x) {
      assert Owns(v, holes, limbo, x);
    }
    forall i ensures Ordered(w, i) {
      assert Ordered(v, i - 1);
    }
  }

  /** The slot in transit at `a` is right before the empty slot `id`, which grows downwards. */
  ghost function GrownDown(v: View, a: int, id: nat): View
    requires a in v.tiles && End(v.tiles, a) in v.tiles && id in v.entries
  {
    v.(tiles := Merge(v.tiles, a), mem := v.mem[a := id],
       entries := v.entries[id := v.entries[id].(startPc := a + HEADER_SIZE,
                                                 size := v.entries[id].size + v.tiles[a].size)])
  }

  lemma GrownDownCore(v: View, holes: set<int>, limbo: set<nat>, a: int, id: nat)
    requires Core(v, holes, limbo) && a in v.tiles && a in holes && id in v.q && id !in limbo && id in v.entries
    requires v.entries[id].empty && Hdr(v.entries[id]) == End(v.tiles, a) && End(v.tiles, a) in v.tiles
    ensures Core(GrownDown(v, a, id), holes - {a}, limbo)
  {
    var w, b := GrownDown(v, a, id), End(v.tiles, a);
    MergeTiled(v.tiles, v.spans, a);
    assert TileOk(v.tiles, v.spans, a) && Owns(v, holes, limbo, id) && Backed(v, holes, limbo, b);
    RingFrame(v.q, v.head, v.entries, w.entries);
    forall x ensures Backed(w, holes - {a}, limbo, x) {
      assert Backed(v, holes, limbo, x);
    }
    forall x ensures Owns(w, holes - {a}, limbo, x) {
      assert Owns(v, holes, limbo, x);
    }
    forall i ensures Ordered(w, i) {
      assert Ordered(v, i);
    }
  }

  /** The slot in transit at `a` is right after the empty slot `id`, which grows upwards. */
  ghost function GrownUp(v: View, id: nat): View
    requires id in v.entries && Hdr(v.entries[id]) in v.tiles && End(v.tiles, Hdr(v.entries[id])) in v.tiles
  {
    var p := Hdr(v.entries[id]);
    v.(tiles := Merge(v.tiles, p),
       entries := v.entries[id := v.entries[id].(size := v.entries[id].size + v.tiles[End(v.tiles, p)].size)])
  }

  lemma GrownUpCore(v: View, holes: set<int>, limbo: set<nat>, a: int, id: nat)
    requires Core(v, holes, limbo) && a in v.tiles && a in holes && id in v.q && id !in limbo && id in v.entries
    requires v.entries[id].empty && Hdr(v.entries[id]) in v.tiles && End(v.tiles, Hdr(v.entries[id])) == a
    ensures Core(GrownUp(v, id), holes - {a}, limbo)
  {
    var w, p := GrownUp(v, id), Hdr(v.entries[id]);
    MergeTiled(v.tiles, v.spans, p);
    assert TileOk(v.tiles, v.spans, p) && Owns(v, holes, limbo, id) && Backed(v, holes, limbo, p);
    RingFrame(v.q, v.head, v.entries, w.entries);
    forall x ensures Backed(w, holes - {a}, limbo, x) {
      assert Backed(v, holes, limbo, x);
    }
    forall x ensures Owns(w, holes - {a}, limbo, x) {
      assert Owns(v, holes, limbo, x);
    }
    forall i ensures Ordered(w, i) {
      assert Ordered(v, i);
    }
  }

  // ---------------------------------------------------------------- slots in transit

  /** A fragment's slot is taken from it while it stays in the FIFO. */
  lemma VacatedCore(v: View, holes: set<int>, limbo: set<nat>, id: nat)
    requires Core(v, holes, limbo) && id in v.q && id in v.entries && id !in limbo
    ensures Core(v, holes + {Hdr(v.entries[id])}, limbo + {id})
  {
    assert Owns(v, holes, limbo, id);
    forall x ensures Backed(v, holes + {Hdr(v.entries[id])}, limbo + {id}, x) {
      assert Backed(v, holes, limbo, x);
    }
    forall x ensures Owns(v, holes + {Hdr(v.entries[id])}, limbo + {id}, x) {
      assert Owns(v, holes, limbo, x);
    }
  }

  /** Two neighbouring slots in transit become one. */
  lemma JoinedCore(v: View, holes: set<int>, limbo: set<nat>, a: int)
    requires Core(v, holes, limbo) && a in v.tiles && a in holes && End(v.tiles, a) in v.tiles
    requires End(v.tiles, a) in holes
    ensures Core(v.(tiles := Merge(v.tiles, a)), holes - {End(v.tiles, a)}, limbo)
  {
    var w, b := v.(tiles := Merge(v.tiles, a)), End(v.tiles, a);
    MergeTiled(v.tiles, v.spans, a);
    assert TileOk(v.tiles, v.spans, a);
    forall x ensures Backed(w, holes - {b}, limbo, x) {
      assert Backed(v, holes, limbo, x);
    }
    forall x ensures Owns(w, holes - {b}, limbo, x) {
      assert Owns(v, holes, limbo, x);
    }
    forall i ensures Ordered(w, i) {
      assert Ordered(v, i);
    }
  }

  /** A slot in transit is cut in two. */
  lemma CutCore(v: View, holes: set<int>, limbo: set<nat>, a: int, n: int)
    requires Core(v, holes, limbo) && a in v.tiles && a in holes && 0 < n < v.tiles[a].size
    ensures Core(v.(tiles := Split(v.tiles, a, n)), holes + {a + n}, limbo) && a + n !in v.tiles
  {
    var w, more := v.(tiles := Split(v.tiles, a, n)), holes + {a + n};
    SplitTiled(v.tiles, v.spans, a, n);
    forall x ensures Backed(w, more, limbo, x) {
      assert Backed(v, holes, limbo, x);
    }
    forall x ensures Owns(w, more, limbo, x) {
      assert Owns(v, holes, limbo, x);
    }
    forall i ensures Ordered(w, i) {
      assert Ordered(v, i);
    }
  }

  /** The unit's slots grow by `n` bytes: a new last slot in transit. */
  ghost function Grown(v: View, u: nat, n: int): View
    requires u in v.spans
  {
    v.(tiles := Append(v.tiles, v.spans, u, n), spans := Raise(v.spans, u, v.spans[u].hi + n))
  }

  lemma GrownCore(v: View, holes: set<int>, limbo: set<nat>, u: nat, n: int)
    requires Core(v, holes, limbo) && u in v.spans && 0 < n && v.spans[u].hi + n <= v.spans[u].limit
    ensures Core(Grown(v, u, n), holes + {v.spans[u].hi}, limbo) && v.spans[u].hi !in v.tiles
  {
    var w, h := Grown(v, u, n), v.spans[u].hi;
    AppendTiled(v.tiles, v.spans, u, n);
    forall x ensures Backed(w, holes + {h}, limbo, x) {
      assert Backed(v, holes, limbo, x);
    }
    forall x ensures Owns(w, holes + {h}, limbo, x) {
      assert Owns(v, holes, limbo, x);
    }
    forall i ensures Ordered(w, i) {
      assert Ordered(v, i);
    }
  }

  lemma WithUnitCore(v: View, u: nat, lo: int, limit: int)
    requires Core(v, {}, {}) && u !in v.spans && 0 < lo <= limit
    requires forall s :: s in v.spans ==> Apart(v.spans[s], Span(lo, lo, limit))
    ensures Core(v.(spans := v.spans[u := Span(lo, lo, limit)]), {}, {})
  {
    var w := v.(spans := v.spans[u := Span(lo, lo, limit)]);
    AddSpanTiled(v.tiles, v.spans, u, lo, limit);
    forall x ensures Backed(w, {}, {}, x) {
      assert Backed(v, {}, {}, x);
    }
    forall x ensures Owns(w, {}, {}, x) {
      assert Owns(v, {}, {}, x);
    }
    forall i ensures Ordered(w, i) {
      assert Ordered(v, i);
    }
  }

  /** Records of fragments outside the FIFO may change or be freed. */
  lemma RecordCore(v: View, holes: set<int>, limbo: set<nat>, entries: Entries)
    requires Core(v, holes, limbo)
    requires forall id :: id in v.q && id in v.entries ==> id in entries && entries[id] == v.entries[id]
    ensures Core(v.(entries := entries), holes, limbo)
  {
    var w := v.(entries := entries);
    RingFrame(v.q, v.head, v.entries, entries);
    forall x ensures Backed(w, holes, limbo, x) {
      assert Backed(v, holes, limbo, x);
    }
    forall x ensures Owns(w, holes, limbo, x) {
      assert Owns(v, holes, limbo, x);
    }
    forall i ensures Ordered(w, i) {
      assert Ordered(v, i);
    }
  }

  // ---------------------------------------------------------------- contiguous victims

  /** The slots evicted from `pc` on to gain `need` bytes: as many as it takes, up to the unit's end. */
  ghost function Run(tiles: Tiles, spans: Spans, u: nat, pc: int, need: int): (r: seq<int>)
    requires Tiled(tiles, spans) && AtSlot(tiles, spans, u, pc)
    ensures forall a :: a in r ==> a in tiles && tiles[a].unit == u
    decreases spans[u].hi - pc
  {
    if pc == spans[u].hi || need <= 0 then [] else
      WalkStep(tiles, spans, u, pc);
      [pc] + Run(tiles, spans, u, End(tiles, pc), need - tiles[pc].size)
  }

  ghost function RunEnd(tiles: Tiles, spans: Spans, u: nat, pc: int, need: int): (e: int)
    requires Tiled(tiles, spans) && AtSlot(tiles, spans, u, pc)
    ensures pc <= e <= spans[u].hi && AtSlot(tiles, spans, u, e)
    decreases spans[u].hi - pc
  {
    if pc == spans[u].hi || need <= 0 then pc else
      WalkStep(tiles, spans, u, pc);
      RunEnd(tiles, spans, u, End(tiles, pc), need - tiles[pc].size)
  }

  /**
   The run is the shortest contiguous one: it covers the need or reaches the end of the unit's
   slots, it consists of exactly the slots in its range, and without its last slot it would not
   cover the need.
   */
  lemma {:induction false} RunShortest(tiles: Tiles, spans: Spans, u: nat, pc: int, need: int)
    requires Tiled(tiles, spans) && AtSlot(tiles, spans, u, pc)
    ensures var e := RunEnd(tiles, spans, u, pc, need);
            && (need <= e - pc || e == spans[u].hi)
            && (forall a :: a in Run(tiles, spans, u, pc, need) <==> a in tiles && tiles[a].unit == u && pc <= a < e)
            && (forall a :: a in Run(tiles, spans, u, pc, need) ==> a - pc < need)
    decreases spans[u].hi - pc
  {
    if pc != spans[u].hi && need > 0 {
      WalkStep(tiles, spans, u, pc);
      var next := End(tiles, pc);
      RunShortest(tiles, spans, u, next, need - tiles[pc].size);
      forall a | a in tiles && tiles[a].unit == u && pc <= a ensures a == pc || next <= a {
        assert InOrder(tiles, pc, a);
      }
    }
  }

  /** All slots from `a` up to `pc` replaced by one. */
  ghost function Fused(tiles: Tiles, a: int, pc: int, u: nat): Tiles {
    (map x | x in tiles && !(a <= x < pc && tiles[x].unit == u) :: tiles[x])[a := Tile(pc - a, u)]
  }

  lemma FusedStep(tiles: Tiles, spans: Spans, a: int, pc: int, u: nat)
    requires Tiled(tiles, spans) && a < pc && pc in tiles && tiles[pc].unit == u && u in spans
    ensures a in Fused(tiles, a, pc, u) && End(Fused(tiles, a, pc, u), a) == pc && pc in Fused(tiles, a, pc, u)
    ensures Merge(Fused(tiles, a, pc, u), a) == Fused(tiles, a, End(tiles, pc), u)
  {
    assert TileOk(tiles, spans, pc);
    forall x | x in tiles ensures x <= pc || End(tiles, pc) <= x {
      assert InOrder(tiles, pc, x);
    }
  }

  lemma FusedOne(tiles: Tiles, spans: Spans, a: int, u: nat)
    requires Tiled(tiles, spans) && a in tiles && tiles[a].unit == u
    ensures Fused(tiles, a, End(tiles, a), u) == tiles
  {
    assert TileOk(tiles, spans, a);
    forall x | x in tiles ensures x <= a || End(tiles, a) <= x {
      assert InOrder(tiles, a, x);
    }
  }

  /** The FIFO without the entries `gone`, order kept. */
  ghost function Kept(q: seq<nat>, gone: set<nat>): seq<nat> {
    if q == [] then [] else (if q[0] in gone then [] else [q[0]]) + Kept(q[1..], gone)
  }

  lemma {:induction false} KeptMembers(q: seq<nat>, gone: set<nat>)
    ensures forall x :: x in Kept(q, gone) <==> x in q && x !in gone
    ensures NoRepeat(q) ==> NoRepeat(Kept(q, gone))
  {
    if q != [] {
      KeptMembers(q[1..], gone);
    }
  }

  lemma {:induction false} KeptAll(q: seq<nat>)
    ensures Kept(q, {}) == q
  {
    if q != [] { KeptAll(q[1..]); }
  }

  lemma {:induction false} KeptOneLess(q: seq<nat>, gone: set<nat>, id: nat)
    requires NoRepeat(q) && id in q && id !in gone
    ensures id in Kept(q, gone)
    ensures Without(Kept(q, gone), IndexOf(Kept(q, gone), id)) == Kept(q, gone + {id})
  {
    var rest := q[1..];
    var k := Kept(rest, gone);
    if q[0] == id {
      KeptSame(rest, gone, id);
      assert Kept(q, gone) == [id] + k;
      assert Without([id] + k, 0) == k;
    } else {
      assert id in rest;
      KeptOneLess(rest, gone, id);
      if q[0] in gone {
        assert Kept(q, gone) == k;
      } else {
        KeptShift(q[0], k, id);
        assert Kept(q, gone) == [q[0]] + k;
      }
    }
  }

  lemma KeptShift(x: nat, k: seq<nat>, id: nat)
    requires id in k && x != id
    ensures id in [x] + k && Without([x] + k, IndexOf([x] + k, id)) == [x] + Without(k, IndexOf(k, id))
  {
    assert ([x] + k)[1..] == k;
    assert IndexOf([x] + k, id) == 1 + IndexOf(k, id);
  }

  lemma {:induction false} KeptSame(q: seq<nat>, gone: set<nat>, id: nat)
    requires id !in q
    ensures Kept(q, gone + {id}) == Kept(q, gone)
  {
    if q != [] { KeptSame(q[1..], gone, id); }
  }

  // ---------------------------------------------------------------- the whole cache

  /** Only the current unit may have unclaimed room, and then enough for another slot. */
  ghost predicate RoomOk(p: Params, spans: Spans, units: map<nat, Unit>, head: nat) {
    && head in units && head in spans
    && (forall u :: u in spans && u != head && u in units ==> units[u].full)
    && (!units[head].full ==> units[head].curPc + UnitEndHole(p) <= units[head].endPc)
  }

  ghost predicate Sound(p: Params, v: View, units: map<nat, Unit>, list: seq<nat>, holes: set<int>, limbo: set<nat>) {
    && ParamsOk(p)
    && Core(v, holes, limbo)
    && UnitsOk(v.spans, units)
    && list != [] && RoomOk(p, v.spans, units, list[0])
    && AllAligned(v.tiles, p.align)
  }

  /** The fragments in the order in which they will be replaced. */
  ghost function FragSeq(v: View): seq<nat>
    requires v.empties <= |v.q|
  {
    v.q[v.empties..]
  }

  predicate SameButLinks(x: Entry, y: Entry) {
    y == x.(next := y.next, prev := y.prev)
  }

  /** Fragments keep their order, slots and records; only empty slots come, go or grow. */
  ghost predicate FragsStay(v: View, w: View)
    requires v.empties <= |v.q| && w.empties <= |w.q|
  {
    && FragSeq(w) == FragSeq(v)
    && forall id :: id in FragSeq(v) && id in v.entries ==>
                      id in w.entries && SameButLinks(v.entries[id], w.entries[id])
  }

  /** Nothing happens to fragments, in the FIFO or not yet in it. */
  ghost predicate Calm(v: View, w: View) {
    && v.empties <= |v.q| && w.empties <= |w.q| && FragsStay(v, w)
    && forall id :: id in v.entries && id !in v.q ==> id in w.entries && w.entries[id] == v.entries[id] && id !in w.q
  }

  lemma CalmSame(v: View, w: View)
    requires w.q == v.q && w.empties == v.empties <= |v.q| && w.entries == v.entries
    ensures Calm(v, w)
  {
  }

  lemma CalmChain(v: View, w: View, x: View)
    requires Calm(v, w) && Calm(w, x)
    ensures Calm(v, x)
  {
    forall id | id in FragSeq(v) && id in v.entries
      ensures id in x.entries && SameButLinks(v.entries[id], x.entries[id])
    {
      assert id in w.entries;
    }
  }

  lemma HeadEntry(v: View, holes: set<int>, limbo: set<nat>)
    requires Core(v, holes, limbo) && v.head.At?
    ensures v.head.id in v.entries && v.head.id in v.q && v.q != [] && v.q[0] == v.head.id
    ensures v.entries[v.head.id].empty <==> 0 < v.empties
    ensures v.head.id !in limbo ==>
              var e := v.entries[v.head.id];
              Hdr(e) in v.tiles && Hdr(e) !in holes && v.tiles[Hdr(e)].size == Slot(e)
  {
    assert Member(v.q, v.entries, 0) && Ordered(v, 0) && Owns(v, holes, limbo, v.head.id);
    if v.head.id !in limbo {
      assert Backed(v, holes, limbo, Hdr(v.entries[v.head.id]));
    }
  }

  /** The three ways an empty slot joins the FIFO's front. */
  ghost function EmptyAdded(v: View, a: int, id: nat): View
    requires a in v.tiles && (v.head.At? ==> v.head.id in v.entries)
  {
    if v.head.At? && v.entries[v.head.id].empty &&
       Hdr(v.entries[v.head.id]) == End(v.tiles, a) && End(v.tiles, a) in v.tiles
    then GrownDown(v, a, v.head.id)
    else if v.head.At? && v.entries[v.head.id].empty && Hdr(v.entries[v.head.id]) in v.tiles &&
            End(v.tiles, Hdr(v.entries[v.head.id])) == a
    then GrownUp(v, v.head.id)
    else Prepended(v, a, id)
  }

  lemma EmptyAddedCore(v: View, holes: set<int>, limbo: set<nat>, a: int, id: nat)
    requires Core(v, holes, limbo) && a in v.tiles && a in holes && id !in v.entries && id !in limbo
    requires forall x :: x in limbo && x in v.entries ==> !v.entries[x].empty
    requires v.head.At? ==> v.head.id in v.entries
    ensures Core(EmptyAdded(v, a, id), holes - {a}, limbo)
    ensures FragsStay(v, EmptyAdded(v, a, id))
  {
    var w := EmptyAdded(v, a, id);
    if v.head.At? { HeadEntry(v, holes, limbo); }
    if v.head.At? && v.entries[v.head.id].empty &&
       Hdr(v.entries[v.head.id]) == End(v.tiles, a) && End(v.tiles, a) in v.tiles {
      GrownDownCore(v, holes, limbo, a, v.head.id);
      FragsNotHead(v, holes, limbo);
    } else if v.head.At? && v.entries[v.head.id].empty && Hdr(v.entries[v.head.id]) in v.tiles &&
              End(v.tiles, Hdr(v.entries[v.head.id])) == a {
      GrownUpCore(v, holes, limbo, a, v.head.id);
      FragsNotHead(v, holes, limbo);
    } else {
      PrependedCore(v, holes, limbo, a, id);
      RingPrepend(v.q, v.head, v.entries, id, Entry(true, a + HEADER_SIZE, v.tiles[a].size, 0, false, Nil, Nil));
      assert w.q[w.empties..] == v.q[v.empties..];
    }
  }

  lemma FragsNotHead(v: View, holes: set<int>, limbo: set<nat>)
    requires Core(v, holes, limbo) && v.head.At? && v.head.id in v.entries && v.entries[v.head.id].empty
    ensures v.head.id !in FragSeq(v)
  {
    forall i | v.empties <= i < |v.q| ensures v.q[i] != v.head.id {
      assert Ordered(v, i);
    }
  }

  lemma EmptyAddedAligned(p: Params, v: View, holes: set<int>, limbo: set<nat>, a: int, id: nat)
    requires ParamsOk(p) && Core(v, holes, limbo) && AllAligned(v.tiles, p.align) && a in v.tiles
    requires v.head.At? ==> v.head.id in v.entries
    ensures AllAligned(EmptyAdded(v, a, id).tiles, p.align)
  {
    if End(v.tiles, a) in v.tiles { AlignedSum(v.tiles[a].size, v.tiles[End(v.tiles, a)].size, p.align); }
    if v.head.At? && Hdr(v.entries[v.head.id]) in v.tiles {
      AlignedSum(v.tiles[Hdr(v.entries[v.head.id])].size, v.tiles[a].size, p.align);
    }
  }

  // ---------------------------------------------------------------- eviction

  /** `id` leaves the FIFO and its record, fragment or empty slot, is freed. */
  function Removed(v: View, id: nat): View
    requires id in v.q && id in v.entries
  {
    var w := Unlinked(v, id);
    w.(entries := w.entries - {id})
  }

  lemma RemovedCore(v: View, holes: set<int>, id: nat)
    requires Core(v, holes, {}) && id in v.q && id in v.entries
    ensures Core(Removed(v, id), holes + {Hdr(v.entries[id])}, {})
    ensures Removed(v, id).entries.Keys == v.entries.Keys - {id}
    ensures forall x :: x in v.entries && x != id ==> SameButLinks(v.entries[x], Removed(v, id).entries[x])
  {
    UnlinkedCore(v, holes, {}, id);
    UnlinkedRing(v, holes, {}, id);
    var i := IndexOf(v.q, id);
    RingRemove(v.q, v.head, v.entries, i);
    RecordCore(Unlinked(v, id), holes + {Hdr(v.entries[id])}, {}, Removed(v, id).entries);
  }

  /** The fragments, not empty slots, among `ids`. */
  ghost function FragsAmong(entries: Entries, ids: set<nat>): set<nat> {
    set id | id in ids && id in entries && !entries[id].empty
  }

  lemma NoFrags(entries: Entries)
    ensures FragsAmong(entries, {}) == {}
  {
  }

  lemma OneMoreFrag(entries: Entries, ids: set<nat>, id: nat)
    requires id !in ids && id in entries
    ensures |FragsAmong(entries, ids + {id})| == |FragsAmong(entries, ids)| + if entries[id].empty then 0 else 1
  {
    var more := FragsAmong(entries, ids + {id});
    if entries[id].empty {
      assert more == FragsAmong(entries, ids);
    } else {
      assert more == FragsAmong(entries, ids) + {id};
    }
  }

  /** The entries `gone` were evicted: their slots, from `a` up to `pc`, are one slot in transit. */
  ghost predicate Evicted(v: View, w: View, a: int, pc: int, u: nat, gone: set<nat>) {
    && w.tiles == Fused(v.tiles, a, pc, u) && w.spans == v.spans && w.mem == v.mem
    && w.q == Kept(v.q, gone)
    && w.entries.Keys == v.entries.Keys - gone
    && (forall id :: id in v.entries && id !in gone ==> SameButLinks(v.entries[id], w.entries[id]))
    && (forall id :: id in gone <==>
          exists x :: x in v.tiles && v.tiles[x].unit == u && a <= x < pc && x in v.mem && v.mem[x] == id)
  }

  lemma EvictFirst(v: View, u: nat, id: nat)
    requires Core(v, {}, {}) && id in v.q && id in v.entries
    requires Hdr(v.entries[id]) in v.tiles && v.tiles[Hdr(v.entries[id])].unit == u
    ensures var a := Hdr(v.entries[id]);
            && Core(Removed(v, id), {a}, {})
            && Evicted(v, Removed(v, id), a, End(v.tiles, a), u, {id})
  {
    var a, w := Hdr(v.entries[id]), Removed(v, id);
    RemovedCore(v, {}, id);
    assert {} + {a} == {a};
    FusedOne(v.tiles, v.spans, a, u);
    KeptAll(v.q);
    KeptOneLess(v.q, {}, id);
    assert {} + {id} == {id};
    assert Owns(v, {}, {}, id) && TileOk(v.tiles, v.spans, a);
    forall x | x in v.tiles && a <= x < End(v.tiles, a) ensures x == a {
      assert InOrder(v.tiles, a, x);
    }
  }

  lemma EvictNext(v: View, w: View, a: int, pc: int, u: nat, gone: set<nat>, id: nat)
    requires Core(v, {}, {}) && Core(w, {a}, {}) && Evicted(v, w, a, pc, u, gone) && a < pc
    requires pc in v.tiles && v.tiles[pc].unit == u && u in v.spans && pc in v.mem && v.mem[pc] == id
    ensures id in w.q && id in w.entries && Hdr(w.entries[id]) == pc
    ensures var x := Removed(w, id);
            var y := x.(tiles := Merge(x.tiles, a));
            && a in x.tiles && End(x.tiles, a) in x.tiles
            && Core(y, {a}, {}) && Evicted(v, y, a, End(v.tiles, pc), u, gone + {id})
  {
    EvictVictim(v, w, a, pc, u, gone, id);
    var x := Removed(w, id);
    RemovedCore(w, {a}, id);
    FusedStep(v.tiles, v.spans, a, pc, u);
    JoinedCore(x, {a} + {pc}, {}, a);
    assert ({a} + {pc}) - {pc} == {a};
    KeptOneLess(v.q, gone, id);
    EvictGone(v, a, pc, u, gone, id);
  }

  /** The next slot's entry is still in the FIFO. */
  lemma EvictVictim(v: View, w: View, a: int, pc: int, u: nat, gone: set<nat>, id: nat)
    requires Core(v, {}, {}) && Core(w, {a}, {}) && Evicted(v, w, a, pc, u, gone) && a < pc
    requires pc in v.tiles && pc in v.mem && v.mem[pc] == id
    ensures id in v.q && id !in gone && id in w.q && id in w.entries && Hdr(w.entries[id]) == pc
  {
    assert Backed(v, {}, {}, pc);
    forall x | x in v.tiles && x in v.mem && v.mem[x] == id ensures x == pc {
      assert Backed(v, {}, {}, x);
    }
    KeptMembers(v.q, gone);
  }

  lemma EvictGone(v: View, a: int, pc: int, u: nat, gone: set<nat>, id: nat)
    requires Core(v, {}, {}) && a < pc && pc in v.tiles && v.tiles[pc].unit == u && pc in v.mem && v.mem[pc] == id
    requires forall x :: x in gone <==>
                        exists b :: b in v.tiles && v.tiles[b].unit == u && a <= b < pc && b in v.mem && v.mem[b] == x
    ensures forall x :: x in gone + {id} <==>
              exists b :: b in v.tiles && v.tiles[b].unit == u && a <= b < End(v.tiles, pc) &&
                        b in v.mem && v.mem[b] == x
  {
    assert TileOk(v.tiles, v.spans, pc);
    forall b | b in v.tiles ensures b <= pc || End(v.tiles, pc) <= b {
      assert InOrder(v.tiles, pc, b);
    }
  }

  lemma {:induction false} KeptConcat(x: seq<nat>, y: seq<nat>, gone: set<nat>)
    ensures Kept(x + y, gone) == Kept(x, gone) + Kept(y, gone)
  {
    if x == [] {
      assert x + y == y;
    } else {
      assert (x + y)[1..] == x[1..] + y;
      KeptConcat(x[1..], y, gone);
    }
  }

  /** Eviction takes victims out of the replacement order and leaves the rest of it as it was. */
  lemma EvictedFrags(v: View, w: View, holes: set<int>, a: int, pc: int, u: nat, gone: set<nat>)
    requires Core(v, {}, {}) && Core(w, holes, {}) && Evicted(v, w, a, pc, u, gone)
    ensures FragSeq(w) == Kept(FragSeq(v), gone)
  {
    var x, y := v.q[..v.empties], v.q[v.empties..];
    assert v.q == x + y;
    KeptConcat(x, y, gone);
    KeptMembers(x, gone);
    KeptMembers(y, gone);
    var k := |Kept(x, gone)|;
    forall i | 0 <= i < |w.q| ensures w.q[i] in w.entries && (w.entries[w.q[i]].empty <==> i < k) {
      EvictedEmpty(v, w, holes, a, pc, u, gone, i);
    }
    hide Evicted;
    PrefixUnique(w, holes, k);
  }

  lemma PrefixUnique(w: View, holes: set<int>, k: nat)
    requires Core(w, holes, {}) && k <= |w.q|
    requires forall i :: 0 <= i < |w.q| ==> w.q[i] in w.entries && (w.entries[w.q[i]].empty <==> i < k)
    ensures w.empties == k
  {
    assert Ordered(w, k) && Ordered(w, w.empties);
  }

  lemma EvictedEmpty(v: View, w: View, holes: set<int>, a: int, pc: int, u: nat, gone: set<nat>, i: int)
    requires Core(v, {}, {}) && Core(w, holes, {}) && Evicted(v, w, a, pc, u, gone) && 0 <= i < |w.q|
    requires w.q == Kept(v.q[..v.empties], gone) + Kept(v.q[v.empties..], gone)
    ensures w.q[i] in w.entries && (w.entries[w.q[i]].empty <==> i < |Kept(v.q[..v.empties], gone)|)
  {
    var x, y := v.q[..v.empties], v.q[v.empties..];
    KeptMembers(x, gone);
    KeptMembers(y, gone);
    assert Ordered(w, i);
    if i < |Kept(x, gone)| {
      assert w.q[i] in Kept(x, gone);
      var j :| 0 <= j < |x| && x[j] == w.q[i];
      assert Ordered(v, j);
    } else {
      assert w.q[i] in Kept(y, gone);
      var j :| 0 <= j < |y| && y[j] == w.q[i];
      assert Ordered(v, v.empties + j);
    }
  }

  lemma {:induction false} FusedAligned(p: Params, v: View, u: nat, a: int, pc: int, need: int)
    requires ParamsOk(p) && Tiled(v.tiles, v.spans) && AllAligned(v.tiles, p.align) && AtSlot(v.tiles, v.spans, u, pc)
    requires Aligned(pc - a, p.align)
    ensures Aligned(RunEnd(v.tiles, v.spans, u, pc, need) - a, p.align)
    decreases v.spans[u].hi - pc
  {
    if pc != v.spans[u].hi && need > 0 {
      WalkStep(v.tiles, v.spans, u, pc);
      AlignedSum(pc - a, v.tiles[pc].size, p.align);
      FusedAligned(p, v, u, a, End(v.tiles, pc), need - v.tiles[pc].size);
    }
  }

  /** Where an entry's slot is, and that a walk can start there. */
  lemma EntrySlot(v: View, id: nat)
    requires Core(v, {}, {}) && id in v.q
    ensures id in v.entries && Hdr(v.entries[id]) in v.tiles && Slot(v.entries[id]) == v.tiles[Hdr(v.entries[id])].size
    ensures Hdr(v.entries[id]) in v.mem && v.mem[Hdr(v.entries[id])] == id
    ensures Tiled(v.tiles, v.spans)
    ensures var a := Hdr(v.entries[id]);
            && v.tiles[a].unit in v.spans && AtSlot(v.tiles, v.spans, v.tiles[a].unit, a)
            && a < End(v.tiles, a) <= v.spans[v.tiles[a].unit].hi
  {
    assert Owns(v, {}, {}, id);
    assert Backed(v, {}, {}, Hdr(v.entries[id])) && TileOk(v.tiles, v.spans, Hdr(v.entries[id]));
  }

  /** The header word of a slot in a walk names its entry. */
  lemma SlotEntry(v: View, u: nat, pc: int)
    requires Core(v, {}, {}) && AtSlot(v.tiles, v.spans, u, pc) && pc < v.spans[u].hi
    ensures pc in v.tiles && v.tiles[pc].unit == u && pc in v.mem && v.mem[pc] in v.entries && v.mem[pc] in v.q
    ensures Hdr(v.entries[v.mem[pc]]) == pc && Slot(v.entries[v.mem[pc]]) == v.tiles[pc].size && 0 < v.tiles[pc].size
    ensures AtSlot(v.tiles, v.spans, u, End(v.tiles, pc))
  {
    WalkStep(v.tiles, v.spans, u, pc);
    assert Backed(v, {}, {}, pc);
  }

  lemma CoreRing(v: View, holes: set<int>, limbo: set<nat>)
    requires Core(v, holes, limbo)
    ensures Ring(v.q, v.head, v.entries) && v.empties <= |v.q|
    ensures forall id :: id in v.q ==> id in v.entries
    ensures v.head.At? ==> v.head.id in v.entries
  {
    forall id | id in v.q ensures id in v.entries {
      var i :| 0 <= i < |v.q| && v.q[i] == id;
      assert Member(v.q, v.entries, i);
    }
  }

  lemma EvictedMem(v: View, w: View, a: int, pc: int, u: nat, gone: set<nat>)
    requires Evicted(v, w, a, pc, u, gone)
    ensures w.mem == v.mem && w.spans == v.spans
  {
  }

  lemma EvictedSlot(v: View, w: View, a: int, pc: int, u: nat, gone: set<nat>, id: nat)
    requires Evicted(v, w, a, pc, u, gone) && id in w.entries
    ensures id in v.entries && Slot(w.entries[id]) == Slot(v.entries[id]) && w.entries[id].empty == v.entries[id].empty
    ensures id !in gone
  {
  }

  // ---------------------------------------------------------------- placing over the victims

  /** A fragment not yet in the cache and the slot size computed for it. */
  predicate Request(p: Params, e: Entry, need: int) {
    && !e.empty && 0 <= e.size <= 0xFFFF
    && 0 < p.align && Aligned(need, p.align) && MIN_SLOT <= need
    && e.size + HEADER_SIZE <= need <= e.size + 91
  }

  function Placed(e: Entry, a: int, slot: int): Entry {
    e.(startPc := a + HEADER_SIZE, extra := (slot - e.size) % 256)
  }

  lemma EvictedSound(p: Params, v: View, w: View, units: map<nat, Unit>, list: seq<nat>, a: int, u: nat, need: int,
                     gone: set<nat>)
    requires Sound(p, v, units, list, {}, {}) && Core(w, {a}, {}) && AtSlot(v.tiles, v.spans, u, a)
    requires Evicted(v, w, a, RunEnd(v.tiles, v.spans, u, a, need), u, gone) && a in v.tiles
    ensures Sound(p, w, units, list, {a}, {})
  {
    hide UnitsOk, RoomOk;
    FusedAligned(p, v, u, a, a, need);
  }

  /** The slot in transit at `a`, last in its unit, takes `more` unclaimed bytes and a too-small rest. */
  ghost function Stretched(p: Params, v: View, n: Unit, a: int, u: nat, more: int): View
    requires u in v.spans && a in v.tiles && End(v.tiles, a) == v.spans[u].hi && v.spans[u].hi !in v.tiles
  {
    var w := Grown(v, u, more + Eaten(p, n, more));
    w.(tiles := Merge(w.tiles, a))
  }

  lemma StretchedSound(p: Params, v: View, units: map<nat, Unit>, list: seq<nat>, a: int, u: nat, more: int)
    requires Sound(p, v, units, list, {a}, {}) && a in v.tiles && v.tiles[a].unit == u && u in units && u in v.spans
    requires End(v.tiles, a) == v.spans[u].hi == units[u].curPc && v.spans[u].hi !in v.tiles
    requires 0 < more && units[u].curPc + more <= units[u].endPc && Aligned(v.tiles[a].size + more, p.align)
    ensures var x := Stretched(p, v, units[u], a, u, more);
            && Sound(p, x, units[u := Claimed(p, units[u], more)], list, {a}, {})
            && a in x.tiles && x.tiles[a] == Tile(v.tiles[a].size + more + Eaten(p, units[u], more), u)
  {
    hide RoomOk, UnitsOk, Aligned;
    var n := more + Eaten(p, units[u], more);
    StretchedCore(v, units, a, u, n);
    hide Core;
    ClaimedUnits(p, v.spans, units, list[0], u, more);
    var end := a + v.tiles[a].size + n;
    PageAligned(units[u].endPc, p);
    AlignedSum(units[u].endPc, a, p.align);
  }

  lemma StretchedCore(v: View, units: map<nat, Unit>, a: int, u: nat, n: int)
    requires Core(v, {a}, {}) && UnitsOk(v.spans, units) && a in v.tiles && v.tiles[a].unit == u && u in units
    requires u in v.spans
    requires End(v.tiles, a) == v.spans[u].hi == units[u].curPc && v.spans[u].hi !in v.tiles && 0 < n
    requires v.spans[u].hi + n <= units[u].endPc
    ensures var w := Grown(v, u, n);
            && Core(w.(tiles := Merge(w.tiles, a)), {a}, {})
            && Aligned(units[u].endPc, PAGE_SIZE)
  {
    var w := Grown(v, u, n);
    assert UnitOk(v.spans, units, u) && TileOk(v.tiles, v.spans, a);
    GrownCore(v, {a}, {}, u, n);
    JoinedCore(w, {a} + {v.spans[u].hi}, {}, a);
    assert ({a} + {v.spans[u].hi}) - {v.spans[u].hi} == {a};
  }

  lemma ClaimedUnits(p: Params, spans: Spans, units: map<nat, Unit>, head: nat, u: nat, more: int)
    requires UnitsOk(spans, units) && RoomOk(p, spans, units, head) && u in units && u in spans
    requires 0 < more && units[u].curPc + more <= units[u].endPc
    ensures var n := more + Eaten(p, units[u], more);
            && UnitsOk(Raise(spans, u, spans[u].hi + n), units[u := Claimed(p, units[u], more)])
            && RoomOk(p, Raise(spans, u, spans[u].hi + n), units[u := Claimed(p, units[u], more)], head)
            && u == head
  {
    hide Aligned;
    var us := units[u := Claimed(p, units[u], more)];
    var ss := Raise(spans, u, spans[u].hi + more + Eaten(p, units[u], more));
    assert UnitOk(spans, units, u);
    forall x | x in us ensures UnitOk(ss, us, x) {
      assert UnitOk(spans, units, x);
    }
    forall m, n | m in us && n in us && m != n ensures RangesApart(us[m], us[n]) {
      assert RangesApart(units[m], units[n]);
    }
  }

  /** The end of the slot in transit, beyond `need`, becomes an empty slot. */
  lemma LeftoverSound(p: Params, v: View, units: map<nat, Unit>, list: seq<nat>, a: int, need: int, id: nat)
    requires Sound(p, v, units, list, {a}, {}) && a in v.tiles && 0 < need < v.tiles[a].size && Aligned(need, p.align)
    requires id !in v.entries && (v.head.At? ==> v.head.id in v.entries)
    ensures var w := v.(tiles := Split(v.tiles, a, need));
            && a + need !in v.tiles && Core(w, {a, a + need}, {})
            && Sound(p, EmptyAdded(w, a + need, id), units, list, {a}, {})
            && FragsStay(v, EmptyAdded(w, a + need, id))
            && EmptyAdded(w, a + need, id).spans == v.spans
  {
    hide RoomOk, UnitsOk;
    var w := v.(tiles := Split(v.tiles, a, need));
    CutCore(v, {a}, {}, a, need);
    assert {a} + {a + need} == {a, a + need};
    EmptyAddedCore(w, {a, a + need}, {}, a + need, id);
    assert {a, a + need} - {a + need} == {a};
    AlignedSum(a, need, p.align);
    AlignedSum(v.tiles[a].size, need, p.align);
    EmptyAddedAligned(p, w, {a, a + need}, {}, a + need, id);
  }

  /** The slot in transit keeps its place and size while an empty slot is added after it. */
  lemma LeftoverTile(v: View, a: int, need: int, id: nat)
    requires Core(v, {a}, {}) && a in v.tiles && 0 < need < v.tiles[a].size && id !in v.entries
    requires v.head.At? ==> v.head.id in v.entries
    ensures var w := v.(tiles := Split(v.tiles, a, need));
            a in EmptyAdded(w, a + need, id).tiles &&
              EmptyAdded(w, a + need, id).tiles[a] == Tile(need, v.tiles[a].unit)
  {
    if v.head.At? { HeadEntry(v, {a}, {}); }
  }

  /** The fragment `f`, its record filled in, settles in the slot in transit at `a`. */
  lemma SettledSound(p: Params, v: View, units: map<nat, Unit>, list: seq<nat>, a: int, f: nat, e: Entry)
    requires Sound(p, v, units, list, {a}, {}) && a in v.tiles && f in v.entries && f !in v.q
    requires v.head.At? ==> v.head.id in v.entries && v.head.id != f
    requires !e.empty && Hdr(e) == a && Slot(e) == v.tiles[a].size && LegalSize(e)
    ensures var w := v.(entries := v.entries[f := e]);
            && (w.head.At? ==> w.head.id in w.entries)
            && Sound(p, Settled(w, a, f), units, list, {}, {})
            && v.empties <= |v.q| && Settled(w, a, f).empties <= |Settled(w, a, f).q|
            && FragSeq(Settled(w, a, f)) == FragSeq(v) + [f]
            && f in Settled(w, a, f).entries && SameButLinks(e, Settled(w, a, f).entries[f])
            && (forall id :: id in v.entries && id != f ==>
                  id in Settled(w, a, f).entries && SameButLinks(v.entries[id], Settled(w, a, f).entries[id]))
  {
    hide UnitsOk, RoomOk, AllAligned;
    var w := v.(entries := v.entries[f := e]);
    RecordCore(v, {a}, {}, w.entries);
    SettledCore(w, {a}, {}, a, f);
    assert {a} - {a} == {};
    RingAppend(w.q, w.head, w.entries, f);
    assert Settled(w, a, f).q[v.empties..] == v.q[v.empties..] + [f];
  }

  lemma PlacedFits(p: Params, e: Entry, need: int, a: int, slot: int)
    requires Request(p, e, need) && need <= slot < need + 128
    ensures var g := Placed(e, a, slot); Hdr(g) == a && Slot(g) == slot && HEADER_SIZE <= g.extra <= 255
  {
  }

  /**
   A replacement at `a`: the shortest contiguous run of victims that covers `need`, none of them
   pinned, made way for `f`; every other fragment keeps its slot, its record and its turn.
   */
  ghost predicate Replaced(p: Params, v: View, w: View, units: map<nat, Unit>, units': map<nat, Unit>,
                           u: nat, a: int, need: int, f: nat, gone: set<nat>)
  {
    RunGone(v, u, a, need, gone) && TurnsKept(v, w, f, gone) && SlotMade(p, v, w, units, units', u, a, need, f)
  }

  ghost predicate RunGone(v: View, u: nat, a: int, need: int, gone: set<nat>) {
    && Tiled(v.tiles, v.spans) && AtSlot(v.tiles, v.spans, u, a)
    && (forall id :: id in gone <==> exists x :: x in Run(v.tiles, v.spans, u, a, need) && x in v.mem && v.mem[x] == id)
  }

  ghost predicate TurnsKept(v: View, w: View, f: nat, gone: set<nat>) {
    && v.empties <= |v.q| && w.empties <= |w.q|
    && FragSeq(w) == Kept(FragSeq(v), gone) + [f]
    && (forall id :: id in FragSeq(v) && id !in gone && id in v.entries ==>
          id in w.entries && SameButLinks(v.entries[id], w.entries[id]))
  }

  /** Victim bytes plus newly claimed bytes are the fragment's slot plus the leftover empty slot. */
  ghost predicate SlotMade(p: Params, v: View, w: View, units: map<nat, Unit>, units': map<nat, Unit>, u: nat, a: int,
                           need: int, f: nat)
  {
    && Tiled(v.tiles, v.spans) && AtSlot(v.tiles, v.spans, u, a) && u in units && u in units'
    && f in v.entries && a in w.tiles && a in w.mem && w.mem[a] == f && f in w.entries
    && SameButLinks(Placed(v.entries[f], a, w.tiles[a].size), w.entries[f])
    && var total := RunEnd(v.tiles, v.spans, u, a, need) - a;
    && w.tiles[a].size == NewSlot(p, units[u], need, total)
    && total + (units'[u].curPc - units[u].curPc) == w.tiles[a].size + Leftover(p, need, total)
    && units' == if total < need then units[u := Claimed(p, units[u], need - total)] else units
  }

  /** The slot a replacement gives to the fragment, and what it leaves as an empty slot. */
  function NewSlot(p: Params, n: Unit, need: int, total: int): int {
    if total < need then need + Eaten(p, n, need - total)
    else if total - need < p.minHole then total
    else need
  }

  function Leftover(p: Params, need: int, total: int): int {
    if total - need < p.minHole then 0 else total - need
  }

  /** Adding an empty slot leaves records outside the FIFO, and their absence from it, alone. */
  lemma EmptyAddedOutside(v: View, holes: set<int>, a: int, id: nat)
    requires Core(v, holes, {}) && a in v.tiles && id !in v.entries && (v.head.At? ==> v.head.id in v.entries)
    ensures var w := EmptyAdded(v, a, id);
            forall x :: x in v.entries && x !in v.q ==> x in w.entries && w.entries[x] == v.entries[x] && x !in w.q
  {
    if v.head.At? { HeadEntry(v, holes, {}); }
  }

  lemma SpanUnit(spans: Spans, units: map<nat, Unit>, u: nat)
    requires UnitsOk(spans, units) && u in spans
    ensures u in units && spans[u] == Span(units[u].startPc, units[u].curPc, units[u].reservedEnd)
    ensures units[u].curPc <= units[u].endPc <= units[u].reservedEnd
    ensures units[u].full ==> units[u].curPc == units[u].endPc
  {
    assert UnitOk(spans, units, u);
  }

  /** What the code needs to know after the eviction. */
  lemma EvictedFacts(p: Params, v: View, w: View, units: map<nat, Unit>, a: int, u: nat, need: int, gone: set<nat>,
                     f: nat)
    requires Core(v, {}, {}) && Core(w, {a}, {}) && AtSlot(v.tiles, v.spans, u, a) && a in v.tiles
    requires UnitsOk(v.spans, units)
    requires Evicted(v, w, a, RunEnd(v.tiles, v.spans, u, a, need), u, gone)
    requires f in v.entries && f !in v.q
    ensures var e := RunEnd(v.tiles, v.spans, u, a, need);
            && a in w.tiles && w.tiles[a] == Tile(e - a, u) && u in w.spans && w.spans == v.spans
            && w.spans[u].hi !in w.tiles
            && (e - a < need ==> e == v.spans[u].hi) && w.entries.Keys <= v.entries.Keys
            && f in w.entries && SameButLinks(v.entries[f], w.entries[f]) && f !in w.q && f !in gone
  {
    RunShortest(v.tiles, v.spans, u, a, need);
    KeptMembers(v.q, gone);
    TopIsFree(w.tiles, w.spans, u);
    forall x | x in v.tiles && x in v.mem ensures v.mem[x] != f {
      assert Backed(v, {}, {}, x);
    }
  }

  lemma TurnsKeptSo(v: View, w: View, x: View, y: View, u: nat, a: int, need: int, f: nat, gone: set<nat>)
    requires Core(v, {}, {}) && Core(w, {a}, {}) && AtSlot(v.tiles, v.spans, u, a) && f !in v.q
    requires x.empties <= |x.q| && y.empties <= |y.q|
    requires Evicted(v, w, a, RunEnd(v.tiles, v.spans, u, a, need), u, gone) && w.empties <= |w.q| && FragsStay(w, x)
    requires FragSeq(y) == FragSeq(x) + [f]
    requires forall id :: id in x.entries && id != f ==> id in y.entries && SameButLinks(x.entries[id], y.entries[id])
    ensures RunGone(v, u, a, need, gone) && TurnsKept(v, y, f, gone)
  {
    hide Core, Evicted, FragSeq, TurnsKept;
    EvictedRun(v, w, u, a, need, gone);
    EvictedRecords(v, w, x, u, a, need, gone);
    TurnsThrough(v, x, y, f, gone);
  }

  lemma TurnsThrough(v: View, x: View, y: View, f: nat, gone: set<nat>)
    requires v.empties <= |v.q| && x.empties <= |x.q| && y.empties <= |y.q| && f !in v.q
    requires FragSeq(x) == Kept(FragSeq(v), gone) && FragSeq(y) == FragSeq(x) + [f]
    requires forall id :: id in FragSeq(v) && id !in gone && id in v.entries ==>
                        id in x.entries && SameButLinks(v.entries[id], x.entries[id])
    requires forall id :: id in x.entries && id != f ==> id in y.entries && SameButLinks(x.entries[id], y.entries[id])
    ensures TurnsKept(v, y, f, gone)
  {
    forall id | id in FragSeq(v) && id !in gone && id in v.entries
      ensures id in y.entries && SameButLinks(v.entries[id], y.entries[id])
    {
      assert id in v.q;
      assert id in x.entries && SameButLinks(v.entries[id], x.entries[id]);
    }
  }

  /** The evicted entries are exactly the run's, and no other fragment loses its turn. */
  lemma EvictedRun(v: View, w: View, u: nat, a: int, need: int, gone: set<nat>)
    requires Core(v, {}, {}) && Core(w, {a}, {}) && AtSlot(v.tiles, v.spans, u, a)
    requires Evicted(v, w, a, RunEnd(v.tiles, v.spans, u, a, need), u, gone)
    ensures Tiled(v.tiles, v.spans) && v.empties <= |v.q| && w.empties <= |w.q|
    ensures forall id :: id in gone <==>
                        exists x :: x in Run(v.tiles, v.spans, u, a, need) && x in v.mem && v.mem[x] == id
    ensures FragSeq(w) == Kept(FragSeq(v), gone)
  {
    RunShortest(v.tiles, v.spans, u, a, need);
    EvictedFrags(v, w, {a}, a, RunEnd(v.tiles, v.spans, u, a, need), u, gone);
  }

  lemma EvictedRecords(v: View, w: View, x: View, u: nat, a: int, need: int, gone: set<nat>)
    requires Core(v, {}, {}) && Core(w, {a}, {}) && AtSlot(v.tiles, v.spans, u, a) && x.empties <= |x.q|
    requires Evicted(v, w, a, RunEnd(v.tiles, v.spans, u, a, need), u, gone) && FragsStay(w, x)
    ensures forall id :: id in FragSeq(v) && id !in gone && id in v.entries ==>
                        id in x.entries && SameButLinks(v.entries[id], x.entries[id])
    ensures forall id :: id in v.entries && id !in gone ==>
                        id in w.entries && SameButLinks(v.entries[id], w.entries[id])
  {
    EvictedFrags(v, w, {a}, a, RunEnd(v.tiles, v.spans, u, a, need), u, gone);
    KeptMembers(FragSeq(v), gone);
  }

  lemma SlotMadeSo(p: Params, v: View, y: View, units: map<nat, Unit>, units': map<nat, Unit>, u: nat, a: int,
                   need: int, f: nat, e: Entry)
    requires ParamsOk(p) && Core(v, {}, {}) && AtSlot(v.tiles, v.spans, u, a) && u in units && f in v.entries
    requires SameButLinks(v.entries[f], e)
    requires a in y.tiles && a in y.mem && y.mem[a] == f && f in y.entries
    requires SameButLinks(Placed(e, a, y.tiles[a].size), y.entries[f])
    requires var total := RunEnd(v.tiles, v.spans, u, a, need) - a;
             && y.tiles[a].size == NewSlot(p, units[u], need, total)
             && units' == if total < need then units[u := Claimed(p, units[u], need - total)] else units
    ensures SlotMade(p, v, y, units, units', u, a, need, f)
  {
  }

  lemma RingNext(v: View, i: nat)
    requires Core(v, {}, {}) && i < |v.q|
    ensures v.q[i] in v.entries && v.entries[v.q[i]].next == NextOf(v.q, i)
  {
    assert Member(v.q, v.entries, i);
  }

  // ---------------------------------------------------------------- the end of the current unit

  /** The current unit's next `size` bytes, and a too-small rest, become a slot in transit. */
  lemma ClaimedSound(p: Params, v: View, units: map<nat, Unit>, list: seq<nat>, size: int)
    requires Sound(p, v, units, list, {}, {}) && 0 < size && Aligned(size, p.align)
    requires units[list[0]].curPc + size <= units[list[0]].endPc
    ensures var u := list[0];
            var n := size + Eaten(p, units[u], size);
            && v.spans[u].hi == units[u].curPc
            && Sound(p, Grown(v, u, n), units[u := Claimed(p, units[u], size)], list, {units[u].curPc}, {})
  {
    hide RoomOk, UnitsOk, Aligned;
    var u := list[0];
    HeadUnit(p, v.spans, units, u);
    var n := size + Eaten(p, units[u], size);
    SpanUnit(v.spans, units, u);
    SpanAligned(p, v.spans, units, u);
    TopAligned(p, v.tiles, v.spans, u);
    GrownCore(v, {}, {}, u, n);
    assert {} + {units[u].curPc} == {units[u].curPc};
    hide Core;
    ClaimedUnits(p, v.spans, units, u, u, size);
    AlignedSum(units[u].endPc, units[u].curPc, p.align);
  }

  lemma HeadUnit(p: Params, spans: Spans, units: map<nat, Unit>, head: nat)
    requires RoomOk(p, spans, units, head)
    ensures head in units && head in spans
    ensures !units[head].full ==> units[head].curPc + UnitEndHole(p) <= units[head].endPc
  {
  }

  lemma SpanAligned(p: Params, spans: Spans, units: map<nat, Unit>, u: nat)
    requires ParamsOk(p) && UnitsOk(spans, units) && u in spans && u in units
    ensures Aligned(spans[u].lo, p.align) && Aligned(units[u].endPc, p.align)
    ensures Aligned(units[u].endPc, PAGE_SIZE) && Aligned(units[u].reservedEnd, PAGE_SIZE)
  {
    assert UnitOk(spans, units, u);
    PageAligned(units[u].startPc, p);
    PageAligned(units[u].endPc, p);
  }

  lemma RoomAligned(p: Params, v: View, units: map<nat, Unit>, list: seq<nat>)
    requires Sound(p, v, units, list, {}, {}) && list[0] in units
    ensures Aligned(units[list[0]].endPc - units[list[0]].curPc, p.align)
  {
    hide RoomOk, UnitsOk, Aligned;
    var u := list[0];
    HeadUnit(p, v.spans, units, u);
    SpanUnit(v.spans, units, u);
    SpanAligned(p, v.spans, units, u);
    TopAligned(p, v.tiles, v.spans, u);
    AlignedSum(units[u].endPc, units[u].curPc, p.align);
  }

  /** Sealing: all of the current unit's room becomes an empty slot. */
  lemma SealedSound(p: Params, v: View, units: map<nat, Unit>, list: seq<nat>, id: nat)
    requires Sound(p, v, units, list, {}, {}) && id !in v.entries && !units[list[0]].full
    requires v.head.At? ==> v.head.id in v.entries
    ensures var u := list[0];
            var n := units[u];
            var w := Grown(v, u, n.endPc - n.curPc);
            && n.curPc + UnitEndHole(p) <= n.endPc && v.spans[u].hi == n.curPc
            && Core(w, {n.curPc}, {})
            && Sound(p, EmptyAdded(w, n.curPc, id), units[u := n.(curPc := n.endPc, full := true)], list, {}, {})
            && FragsStay(v, EmptyAdded(w, n.curPc, id))
  {
    hide Core, RoomOk, UnitsOk, Aligned, AllAligned;
    var u := list[0];
    HeadUnit(p, v.spans, units, u);
    var n := units[u];
    SpanUnit(v.spans, units, u);
    RoomAligned(p, v, units, list);
    ClaimedSound(p, v, units, list, n.endPc - n.curPc);
    var w := Grown(v, u, n.endPc - n.curPc);
    EmptyAddedCore(w, {n.curPc}, {}, n.curPc, id);
    assert {n.curPc} - {n.curPc} == {};
    EmptyAddedAligned(p, w, {n.curPc}, {}, n.curPc, id);
  }

  /** A unit's end is never lost: the current unit has either no room or enough for an empty slot. */
  lemma SealLeft(p: Params, v: View, units: map<nat, Unit>, list: seq<nat>)
    requires Sound(p, v, units, list, {}, {})
    ensures var n := units[list[0]];
            && (n.full <==> n.endPc - n.curPc < UnitEndHole(p))
            && (n.full ==> n == n.(curPc := n.endPc, full := true))
  {
    assert UnitOk(v.spans, units, list[0]);
  }

  /** Committing more of the current unit's reservation only adds room. */
  lemma CommittedSound(p: Params, v: View, units: map<nat, Unit>, list: seq<nat>, end: int)
    requires Sound(p, v, units, list, {}, {}) && Aligned(end, PAGE_SIZE)
    requires units[list[0]].endPc + UnitEndHole(p) <= end <= units[list[0]].reservedEnd
    ensures Sound(p, v, units[list[0] := units[list[0]].(endPc := end, full := false)], list, {}, {})
  {
    hide Core;
    var h := list[0];
    var us := units[h := units[h].(endPc := end, full := false)];
    assert UnitOk(v.spans, units, h);
    forall u | u in us ensures UnitOk(v.spans, us, u) {
      assert UnitOk(v.spans, units, u);
    }
    forall m, n | m in us && n in us && m != n ensures RangesApart(us[m], us[n]) {
      assert RangesApart(units[m], units[n]);
    }
  }

  /** A new unit becomes the current one once the old current one is full. */
  lemma NewUnitSound(p: Params, v: View, units: map<nat, Unit>, list: seq<nat>, s: Supply, size: int)
    requires Sound(p, v, units, list, {}, {}) && units[list[0]].full && Unmapped(units, s)
    requires 0 < size && Supplies(p, size, s)
    ensures Sound(p, v.(spans := v.spans[s.id := Span(s.startPc, s.startPc, s.reservedEnd)]),
                  units[s.id := NewUnit(s)], [s.id] + list, {}, {})
  {
    var us, ss := units[s.id := NewUnit(s)], v.spans[s.id := Span(s.startPc, s.startPc, s.reservedEnd)];
    forall u | u in v.spans ensures Apart(v.spans[u], Span(s.startPc, s.startPc, s.reservedEnd)) {
      assert UnitOk(v.spans, units, u) && RangesApart(units[u], NewUnit(s));
    }
    WithUnitCore(v, s.id, s.startPc, s.reservedEnd);
    hide Core;
    PageOrMore(s.startPc, s.endPc);
    forall u | u in us ensures UnitOk(ss, us, u) {
      if u != s.id { assert UnitOk(v.spans, units, u); }
    }
    forall m, n | m in us && n in us && m != n ensures RangesApart(us[m], us[n]) {
      if m in units && n in units { assert RangesApart(units[m], units[n]); }
    }
  }

  lemma PageOrMore(x: int, y: int)
    requires Aligned(x, PAGE_SIZE) && Aligned(y, PAGE_SIZE) && x < y
    ensures x + PAGE_SIZE <= y
  {
  }

  // ---------------------------------------------------------------- adding a fragment

  /** The fragment's slot, body and place are the same; it may have become deletable. */
  predicate SameSlot(x: Entry, y: Entry) {
    y == x.(next := y.next, prev := y.prev, pinned := y.pinned) && (y.pinned ==> x.pinned)
  }

  /** The fragments `gone` left, `tail` came last, and every other kept its slot and its turn. */
  ghost predicate Turns(v: View, w: View, gone: set<nat>, tail: seq<nat>) {
    && v.empties <= |v.q| && w.empties <= |w.q|
    && FragSeq(w) == Kept(FragSeq(v), gone) + tail
    && (forall id :: id in FragSeq(v) && id !in gone && id in v.entries ==>
          id in w.entries && SameSlot(v.entries[id], w.entries[id]))
  }

  lemma StayTurns(v: View, w: View)
    requires v.empties <= |v.q| && w.empties <= |w.q| && FragsStay(v, w)
    ensures Turns(v, w, {}, [])
  {
    KeptAll(FragSeq(v));
  }

  lemma AppendedTurns(v: View, w: View, x: View, f: nat)
    requires w.q == v.q && w.empties == v.empties <= |v.q| && w.entries == v.entries && f !in v.q
    requires x.empties <= |x.q| && FragSeq(x) == FragSeq(w) + [f]
    requires forall id :: id in w.entries && id != f ==> id in x.entries && SameButLinks(w.entries[id], x.entries[id])
    ensures Turns(v, x, {}, [f])
  {
    KeptAll(FragSeq(v));
  }

  lemma ReplacedTurns(v: View, w: View, f: nat, gone: set<nat>)
    requires TurnsKept(v, w, f, gone)
    ensures Turns(v, w, gone, [f])
  {
  }

  lemma TurnsChain(v: View, w: View, x: View, gone: set<nat>, tail: seq<nat>)
    requires Turns(v, w, {}, []) && Turns(w, x, gone, tail)
    requires forall id :: id in v.q ==> id in v.entries
    ensures Turns(v, x, gone, tail)
  {
    KeptAll(FragSeq(v));
    assert FragSeq(w) == FragSeq(v);
    forall id | id in FragSeq(v) && id !in gone && id in v.entries
      ensures id in x.entries && SameSlot(v.entries[id], x.entries[id])
    {
      assert id in w.entries && SameSlot(v.entries[id], w.entries[id]);
    }
  }

  /** Fragment `f` has the slot at `a`, which is `need` bytes or a little more. */
  ghost predicate PlacedAt(v: View, w: View, f: nat, a: int, need: int) {
    && f in v.entries && f in w.entries && a in w.tiles && a in w.mem && w.mem[a] == f
    && need <= w.tiles[a].size < need + 128
    && SameButLinks(Placed(v.entries[f], a, w.tiles[a].size), w.entries[f])
  }

  lemma ReplacedPlaced(p: Params, v: View, w: View, units: map<nat, Unit>, units': map<nat, Unit>, u: nat, a: int,
                       need: int, f: nat)
    requires ParamsOk(p) && SlotMade(p, v, w, units, units', u, a, need, f) && UnitsOk(v.spans, units)
    requires 0 < need && units[u].endPc - a >= need
    ensures PlacedAt(v, w, f, a, need)
  {
    RunShortest(v.tiles, v.spans, u, a, need);
    SpanUnit(v.spans, units, u);
  }

  /** Aborting the trace in progress makes its fragments deletable again. */
  function Unpinned(v: View, trace: set<nat>): View {
    v.(entries := map id | id in v.entries :: if id in trace then v.entries[id].(pinned := false) else v.entries[id])
  }

  lemma UnpinnedSound(p: Params, v: View, units: map<nat, Unit>, list: seq<nat>, trace: set<nat>)
    requires Sound(p, v, units, list, {}, {})
    ensures Sound(p, Unpinned(v, trace), units, list, {}, {}) && Turns(v, Unpinned(v, trace), {}, [])
  {
    UnpinnedCore(v, trace);
    hide Core, UnitsOk, RoomOk, AllAligned;
    CoreRing(v, {}, {});
    KeptAll(FragSeq(v));
  }

  lemma UnpinnedCore(v: View, trace: set<nat>)
    requires Core(v, {}, {})
    ensures Core(Unpinned(v, trace), {}, {})
  {
    var w := Unpinned(v, trace);
    RingFrame(v.q, v.head, v.entries, w.entries);
    forall x ensures Backed(w, {}, {}, x) {
      assert Backed(v, {}, {}, x);
    }
    forall x ensures Owns(w, {}, {}, x) {
      assert Owns(v, {}, {}, x);
    }
    forall i ensures Ordered(w, i) {
      assert Ordered(v, i);
    }
  }

  /** Can a replacement starting at entry `id` succeed? */
  ghost predicate Replaceable(v: View, units: map<nat, Unit>, id: nat, need: int) {
    && id in v.entries && Hdr(v.entries[id]) in v.tiles
    && var a := Hdr(v.entries[id]);
    var u := v.tiles[a].unit;
    && u in units && units[u].endPc - a >= need
    && Tiled(v.tiles, v.spans) && AtSlot(v.tiles, v.spans, u, a)
    && forall x :: x in Run(v.tiles, v.spans, u, a, need) ==>
                     x in v.mem && v.mem[x] in v.entries && !v.entries[v.mem[x]].pinned
  }

  /** What a replacement at entry `id` did, in the terms of the callers. */
  lemma ReplacedFacts(p: Params, v: View, w: View, units: map<nat, Unit>, units': map<nat, Unit>, list: seq<nat>,
                      u: nat, id: nat, need: int, f: nat, gone: set<nat>)
    requires Sound(p, v, units, list, {}, {}) && Replaceable(v, units, id, need) && 0 < need
    requires u == v.tiles[Hdr(v.entries[id])].unit
    requires Replaced(p, v, w, units, units', u, Hdr(v.entries[id]), need, f, gone)
    ensures PlacedAt(v, w, f, Hdr(v.entries[id]), need) && Turns(v, w, gone, [f])
    ensures forall g :: g in gone ==> g in v.entries && !v.entries[g].pinned
  {
    hide Core, UnitsOk, RoomOk, AllAligned, Tiled;
    ReplacedPlaced(p, v, w, units, units', u, Hdr(v.entries[id]), need, f);
    ReplacedTurns(v, w, f, gone);
  }

  /** How many fragments have left since `v`, a new one in `w` apart. */
  ghost function Lost(v: View, w: View): int
    requires v.empties <= |v.q| && w.empties <= |w.q|
  {
    |FragSeq(v)| + 1 - |FragSeq(w)|
  }

  function Among(q: seq<nat>, gone: set<nat>): set<nat> {
    set x | x in q && x in gone
  }

  lemma AmongStep(x: nat, q: seq<nat>, gone: set<nat>)
    requires x !in q
    ensures |Among([x] + q, gone)| == |Among(q, gone)| + if x in gone then 1 else 0
  {
    if x in gone {
      assert Among([x] + q, gone) == Among(q, gone) + {x};
    } else {
      assert Among([x] + q, gone) == Among(q, gone);
    }
  }

  lemma {:induction false} KeptCount(q: seq<nat>, gone: set<nat>)
    requires NoRepeat(q)
    ensures |q| - |Kept(q, gone)| == |Among(q, gone)|
  {
    if q == [] {
      assert Among(q, gone) == {};
    } else {
      hide Among;
      assert q == [q[0]] + q[1..] && q[0] !in q[1..];
      AmongStep(q[0], q[1..], gone);
      KeptCount(q[1..], gone);
    }
  }

  /** The fragments among the victims are those that have left the FIFO. */
  lemma ReplacedCount(p: Params, v: View, w: View, units: map<nat, Unit>, units': map<nat, Unit>, u: nat, a: int,
                      need: int, f: nat, gone: set<nat>)
    requires Core(v, {}, {}) && Replaced(p, v, w, units, units', u, a, need, f, gone)
    ensures v.empties <= |v.q| && w.empties <= |w.q| && |FragsAmong(v.entries, gone)| == Lost(v, w)
  {
    var s := FragSeq(v);
    forall id | id in FragsAmong(v.entries, gone) ensures id in s {
      var x :| x in Run(v.tiles, v.spans, u, a, need) && x in v.mem && v.mem[x] == id;
      assert Backed(v, {}, {}, x);
      var i := IndexOf(v.q, id);
      assert Ordered(v, i) && s[i - v.empties] == id;
    }
    forall id | id in s ensures id in v.entries && !v.entries[id].empty {
      var i :| 0 <= i < |s| && s[i] == id;
      assert Ordered(v, v.empties + i);
    }
    assert FragsAmong(v.entries, gone) == Among(s, gone);
    KeptCount(s, gone);
  }

  /** No fragment in the FIFO could be where a replacement starts. */
  ghost predicate NoneOld(v: View, units: map<nat, Unit>, need: int) {
    forall i :: v.empties <= i < |v.q| ==> !Replaceable(v, units, v.q[i], need)
  }

  lemma CalmLost(v: View, w: View, x: View)
    requires Calm(v, w) && x.empties <= |x.q|
    ensures v.empties <= |v.q| && w.empties <= |w.q| && Lost(v, x) == Lost(w, x)
  {
  }

  /** The first fragment in the FIFO comes right after the empty slots. */
  lemma FirstFragment(v: View, at: nat)
    requires Core(v, {}, {}) && at <= |v.q|
    requires forall i :: 0 <= i < at ==> v.q[i] in v.entries && v.entries[v.q[i]].empty
    requires at < |v.q| ==> v.q[at] in v.entries && !v.entries[v.q[at]].empty
    ensures at == v.empties
  {
    assert Ordered(v, at) && Ordered(v, v.empties);
  }

  /** With nothing pinned, a unit large enough that holds anything at all can always take the fragment. */
  lemma UnitReplaceable(p: Params, v: View, units: map<nat, Unit>, list: seq<nat>, u: nat, need: int) returns (i: nat)
    requires Sound(p, v, units, list, {}, {}) && u in v.spans && u in units
    requires units[u].startPc < units[u].curPc && units[u].endPc - units[u].startPc >= need
    requires forall x :: x in v.q && x in v.entries ==> !v.entries[x].pinned
    ensures i < |v.q| && Replaceable(v, units, v.q[i], need)
  {
    SpanUnit(v.spans, units, u);
    var a := units[u].startPc;
    assert SpanOk(v.tiles, v.spans, u);
    SlotEntry(v, u, a);
    i := IndexOf(v.q, v.mem[a]);
    forall x | x in Run(v.tiles, v.spans, u, a, need)
      ensures x in v.mem && v.mem[x] in v.entries && !v.entries[v.mem[x]].pinned
    {
      assert Backed(v, {}, {}, x);
    }
  }

  /** Which choice placed a fragment, and at which FIFO position. */
  datatype How = InEmptySlot(at: nat) | AtEnd | OverFragments(at: nat) | AfterAbort(at: nat) | Nowhere

  /** No victim was a fragment that could not be deleted, except those of the aborted trace. */
  ghost predicate NonePinned(v: View, gone: set<nat>, trace: set<nat>) {
    v.empties <= |v.q| &&
    forall g :: g in FragSeq(v) && g in gone && g in v.entries && v.entries[g].pinned ==> g in trace
  }

  /** `f` was placed at `a`; only deletable fragments left, and the others kept their turns. */
  ghost predicate Outcome(v: View, w: View, f: nat, a: int, need: int, gone: set<nat>, trace: set<nat>) {
    PlacedAt(v, w, f, a, need) && Turns(v, w, gone, [f]) && NonePinned(v, gone, trace)
  }

  lemma OutcomeWhole(v: View, w: View, f: nat, a: int, need: int, gone: set<nat>, trace: set<nat>)
    requires PlacedAt(v, w, f, a, need) && Turns(v, w, gone, [f])
    requires forall g :: g in gone ==> g in v.entries && !v.entries[g].pinned
    ensures Outcome(v, w, f, a, need, gone, trace)
  {
  }

  lemma OutcomeTrace(v: View, w: View, f: nat, a: int, need: int, gone: set<nat>, trace: set<nat>)
    requires Outcome(v, w, f, a, need, gone, {})
    ensures Outcome(v, w, f, a, need, gone, trace)
  {
  }

  lemma CalmOutside(v: View, w: View, f: nat)
    requires Calm(v, w)
    ensures v.empties <= |v.q| && w.empties <= |w.q|
    ensures f in v.entries && f !in v.q ==> f in w.entries && w.entries[f] == v.entries[f] && f !in w.q
  {
  }

  /** The outcome of placing `f`, seen from before some calm steps. */
  lemma CalmThenPlaced(v: View, w: View, x: View, f: nat, a: int, need: int, gone: set<nat>, trace: set<nat>)
    requires Calm(v, w) && f in v.entries && f !in v.q && (forall id :: id in v.q ==> id in v.entries)
    requires Outcome(w, x, f, a, need, gone, trace)
    ensures Outcome(v, x, f, a, need, gone, trace)
  {
    StayTurns(v, w);
    TurnsChain(v, w, x, gone, [f]);
  }

  lemma CalmThenTurns(v: View, w: View, x: View)
    requires Calm(v, w) && Turns(w, x, {}, []) && (forall id :: id in v.q ==> id in v.entries)
    ensures Turns(v, x, {}, [])
  {
    StayTurns(v, w);
    TurnsChain(v, w, x, {}, []);
  }

  /** After calm steps the first fragment is still the first fragment. */
  lemma CalmFirst(v: View, w: View, next: Link)
    requires Calm(v, w) && next == (if v.empties < |v.q| then At(v.q[v.empties]) else Nil)
    ensures next == (if w.empties < |w.q| then At(w.q[w.empties]) else Nil)
  {
    if v.empties < |v.q| { assert v.q[v.empties] == FragSeq(v)[0] == FragSeq(w)[0]; }
    assert |FragSeq(v)| == |FragSeq(w)|;
  }

  /** The same, seen from before an aborted trace. */
  lemma AbortThenPlaced(v: View, x: View, f: nat, a: int, need: int, gone: set<nat>, trace: set<nat>)
    requires f in v.entries && f !in v.q && f !in trace && (forall id :: id in v.q ==> id in v.entries)
    requires Turns(v, Unpinned(v, trace), {}, [])
    requires PlacedAt(Unpinned(v, trace), x, f, a, need) && Turns(Unpinned(v, trace), x, gone, [f])
    requires forall g :: g in gone ==> g in Unpinned(v, trace).entries && !Unpinned(v, trace).entries[g].pinned
    ensures Outcome(v, x, f, a, need, gone, trace)
  {
    TurnsChain(v, Unpinned(v, trace), x, gone, [f]);
  }

  /** Empty slots are tried in order, and the end of the unit only when none of them will do. */
  ghost predicate FirstChoice(v: View, units: map<nat, Unit>, need: int, how: How) {
    && v.empties <= |v.q|
    && (how.InEmptySlot? ==> how.at < v.empties && v.q[how.at] in v.entries && Replaceable(v, units, v.q[how.at], need))
    && (forall i :: 0 <= i < (if how.InEmptySlot? then how.at else v.empties) ==> !Replaceable(v, units, v.q[i], need))
  }

  lemma HeadAt(v: View)
    requires Core(v, {}, {})
    ensures v.head == if 0 < |v.q| then At(v.q[0]) else Nil
  {
  }

  lemma EmptyPosition(v: View, at: nat)
    requires Core(v, {}, {}) && at < |v.q| && v.q[at] in v.entries && v.entries[v.q[at]].empty
    ensures at < v.empties
  {
    assert Ordered(v, at);
  }

  /** The replacement started at the first fragment, in FIFO order, where one could succeed. */
  ghost predicate OldestFirst(v: View, units: map<nat, Unit>, need: int, at: nat) {
    && v.empties <= at < |v.q| && Replaceable(v, units, v.q[at], need)
    && (forall i :: v.empties <= i < at ==> !Replaceable(v, units, v.q[i], need))
  }

  /** No replacement can succeed anywhere. */
  ghost predicate Stuck(v: View, units: map<nat, Unit>, need: int) {
    forall i :: 0 <= i < |v.q| ==> !Replaceable(v, units, v.q[i], need)
  }

  lemma StuckUnit(p: Params, v: View, units: map<nat, Unit>, list: seq<nat>, u: nat, need: int)
    requires Sound(p, v, units, list, {}, {}) && u in v.spans && u in units && list[0] in units
    requires Stuck(v, units, need) && 0 < need && units[list[0]].endPc < units[list[0]].curPc + need
    requires forall x :: x in v.q && x in v.entries ==> !v.entries[x].pinned
    ensures units[u].endPc - units[u].startPc < need
  {
    SpanUnit(v.spans, units, u);
    if units[u].startPc < units[u].curPc && units[u].endPc - units[u].startPc >= need {
      var _ := UnitReplaceable(p, v, units, list, u, need);
    }
  }

  lemma UnlinkedFrags(v: View, holes: set<int>, limbo: set<nat>, f: nat)
    requires Core(v, holes, limbo) && f in v.q && f in v.entries && !v.entries[f].empty
    ensures Unlinked(v, f).empties == v.empties <= |Unlinked(v, f).q|
    ensures FragSeq(Unlinked(v, f)) == Kept(FragSeq(v), {f})
  {
    var i := IndexOf(v.q, f);
    assert Ordered(v, i);
    forall j | 0 <= j < v.empties ensures v.q[j] != f {
      assert Ordered(v, j);
    }
    RingDistinct(v, holes, limbo);
    hide Core;
    WithoutSuffix(v.q, v.empties, f);
  }

  lemma RingDistinct(v: View, holes: set<int>, limbo: set<nat>)
    requires Core(v, holes, limbo)
    ensures NoRepeat(v.q)
  {
  }

  lemma WithoutSuffix(q: seq<nat>, k: nat, f: nat)
    requires NoRepeat(q) && f in q && k <= |q| && f !in q[..k]
    ensures k <= |Without(q, IndexOf(q, f))| && Without(q, IndexOf(q, f))[k..] == Kept(q[k..], {f})
  {
    hide Kept, Without, IndexOf;
    var x, y := q[..k], q[k..];
    KeptAll(q);
    KeptOneLess(q, {}, f);
    assert {} + {f} == {f} && q == x + y;
    KeptConcat(x, y, {f});
    KeptAll(x);
    KeptSame(x, {}, f);
    assert (x + Kept(y, {f}))[k..] == Kept(y, {f});
  }

  /** How the front of the FIFO looks once the slot at `a` is part of an empty slot. */
  lemma EmptyAddedFront(v: View, holes: set<int>, limbo: set<nat>, a: int, id: nat)
    requires Core(v, holes, limbo) && a in v.tiles && a in holes && id !in v.entries && id !in limbo
    requires forall x :: x in limbo && x in v.entries ==> !v.entries[x].empty
    requires v.head.At? ==> v.head.id in v.entries
    ensures var w := EmptyAdded(v, a, id);
            && 0 < w.empties <= |w.q| && w.q[0] in w.entries && w.entries[w.q[0]].empty
            && Hdr(w.entries[w.q[0]]) <= a && a + v.tiles[a].size <= Hdr(w.entries[w.q[0]]) + Slot(w.entries[w.q[0]])
            && (forall x :: x in v.q ==> x in w.q)
            && (forall x :: x in v.entries ==> x in w.entries && (w.entries[x].empty <==> v.entries[x].empty))
  {
    assert TileOk(v.tiles, v.spans, a);
    if v.head.At? {
      HeadEntry(v, holes, limbo);
      if Hdr(v.entries[v.head.id]) in v.tiles { assert TileOk(v.tiles, v.spans, Hdr(v.entries[v.head.id])); }
    }
  }

  /** Removing a fragment whose slot has become an empty one. */
  lemma RemovedSlot(p: Params, v: View, w: View, units: map<nat, Unit>, list: seq<nat>, f: nat, a: int, id: nat)
    requires Sound(p, v, units, list, {}, {}) && f in v.q && f in v.entries && !v.entries[f].empty
    requires a == Hdr(v.entries[f])
    requires Core(v, {a}, {f}) && a in v.tiles && id !in v.entries && (v.head.At? ==> v.head.id in v.entries)
    requires w == EmptyAdded(v, a, id)
    ensures f in w.q && f in w.entries && Ring(w.q, w.head, w.entries)
    ensures var x := Unlinked(w, f);
            && Sound(p, x, units, list, {}, {}) && Turns(v, x, {f}, []) && f !in x.q
            && 0 < x.empties <= |x.q| && x.q[0] in x.entries && x.entries[x.q[0]].empty
            && Hdr(x.entries[x.q[0]]) <= a && a + Slot(v.entries[f]) <= Hdr(x.entries[x.q[0]]) + Slot(x.entries[x.q[0]])
  {
    hide RoomOk, UnitsOk, Turns, FragsStay;
    EntrySlot(v, f);
    EmptyAddedCore(v, {a}, {f}, a, id);
    EmptyAddedAligned(p, v, {a}, {f}, a, id);
    EmptyAddedFront(v, {a}, {f}, a, id);
    assert {a} - {a} == {};
    hide Core, EmptyAdded;
    UnlinkFront(w, f);
    UnlinkedLimbo(w, {}, {f}, f);
    assert {f} - {f} == {};
    CoreRing(w, {}, {f});
    UnlinkedTurns(v, w, {f}, f);
  }

  lemma UnlinkFront(w: View, f: nat)
    requires Core(w, {}, {f}) && f in w.q && f in w.entries && !w.entries[f].empty
    requires 0 < w.empties <= |w.q| && w.q[0] in w.entries && w.entries[w.q[0]].empty
    ensures var x := Unlinked(w, f);
            && f !in x.q && 0 < x.empties <= |x.q| && x.q[0] == w.q[0] && x.q[0] in x.entries
            && SameButLinks(w.entries[x.q[0]], x.entries[x.q[0]])
  {
    UnlinkedRing(w, {}, {f}, f);
    UnlinkedFrags(w, {}, {f}, f);
  }

  lemma UnlinkedTurns(v: View, w: View, limbo: set<nat>, f: nat)
    requires Core(w, {}, limbo) && f in w.q && f in w.entries && !w.entries[f].empty
    requires v.empties <= |v.q| && w.empties <= |w.q| && FragsStay(v, w)
    ensures Turns(v, Unlinked(w, f), {f}, [])
  {
    hide Unlinked, Kept, Ring, Tiled;
    UnlinkedFrags(w, {}, limbo, f);
    UnlinkedRing(w, {}, limbo, f);
    hide Core, FragSeq;
    forall id | id in FragSeq(v) && id !in {f} && id in v.entries
      ensures id in Unlinked(w, f).entries && SameSlot(v.entries[id], Unlinked(w, f).entries[id])
    {
      assert id in w.entries && SameButLinks(v.entries[id], w.entries[id]);
    }
    assert Kept(FragSeq(v), {f}) + [] == Kept(FragSeq(v), {f});
  }

  /** Removing a fragment undoes its addition: what is left is what the addition had left of the others. */
  lemma AddedThenRemoved(v: View, w: View, x: View, gone: set<nat>, f: nat)
    requires Turns(v, w, gone, [f]) && Turns(w, x, {f}, []) && f !in FragSeq(v)
    ensures Turns(v, x, gone, [])
  {
    var k := Kept(FragSeq(v), gone);
    KeptConcat(k, [f], {f});
    KeptMembers(FragSeq(v), gone);
    KeptAll(k);
    KeptSame(k, {}, f);
    assert {} + {f} == {f};
    assert Kept([f], {f}) == [];
    forall id | id in FragSeq(v) && id !in gone && id in v.entries
      ensures id in x.entries && SameSlot(v.entries[id], x.entries[id])
    {
      assert id in k && id in FragSeq(w);
    }
  }

  lemma FirstChoiceOther(v: View, units: map<nat, Unit>, need: int, how: How, other: How)
    requires FirstChoice(v, units, need, how) && !how.InEmptySlot? && !other.InEmptySlot?
    ensures FirstChoice(v, units, need, other)
  {
  }

  // ---------------------------------------------------------------- looking up an address

  predicate InBody(e: Entry, pc: int) {
    !e.empty && e.startPc <= pc < e.startPc + e.size
  }

  /** `f` is a fragment of the cache and its body holds `pc`. */
  ghost predicate Holds(v: View, f: nat, pc: int) {
    f in v.q && f in v.entries && InBody(v.entries[f], pc)
  }

  /** At most one fragment's body holds a given pc. */
  lemma BodiesApart(v: View, f: nat, g: nat, pc: int)
    requires Core(v, {}, {}) && Holds(v, f, pc) && Holds(v, g, pc)
    ensures f == g
  {
    BodyInSlot(v, f, pc);
    BodyInSlot(v, g, pc);
    var a, b := Hdr(v.entries[f]), Hdr(v.entries[g]);
    assert InOrder(v.tiles, a, b) && InOrder(v.tiles, b, a);
  }

  /** A fragment's body lies strictly inside its slot, past the header. */
  lemma BodyInSlot(v: View, f: nat, pc: int)
    requires Core(v, {}, {}) && Holds(v, f, pc)
    ensures var a := Hdr(v.entries[f]);
            a in v.tiles && a in v.mem && v.mem[a] == f && a < pc < End(v.tiles, a) && v.tiles[a].unit in v.spans
  {
    EntrySlot(v, f);
    assert Ordered(v, IndexOf(v.q, f));
  }

  /** No fragment whose slot in unit `u` starts below `cur` holds `pc`. */
  ghost predicate ClearBelow(v: View, u: nat, cur: int, pc: int) {
    forall f :: Holds(v, f, pc) ==>
                  var a := Hdr(v.entries[f]);
                  a in v.tiles && (v.tiles[a].unit == u ==> cur <= a)
  }

  lemma LookupStart(v: View, u: nat, pc: int)
    requires Core(v, {}, {}) && u in v.spans
    ensures AtSlot(v.tiles, v.spans, u, v.spans[u].lo) && ClearBelow(v, u, v.spans[u].lo, pc)
  {
    assert SpanOk(v.tiles, v.spans, u);
    forall f | Holds(v, f, pc) ensures Hdr(v.entries[f]) in v.tiles {
      BodyInSlot(v, f, pc);
    }
    forall a | a in v.tiles ensures TileOk(v.tiles, v.spans, a) {
    }
  }

  /** The entry at `cur` does not hold `pc`, so the walk goes on behind it. */
  lemma LookupNext(v: View, u: nat, cur: int, pc: int)
    requires Core(v, {}, {}) && AtSlot(v.tiles, v.spans, u, cur) && cur < v.spans[u].hi && cur in v.tiles
    requires cur in v.mem
    requires ClearBelow(v, u, cur, pc) && !Holds(v, v.mem[cur], pc)
    ensures ClearBelow(v, u, End(v.tiles, cur), pc)
  {
    forall f | Holds(v, f, pc) && v.tiles[Hdr(v.entries[f])].unit == u ensures End(v.tiles, cur) <= Hdr(v.entries[f]) {
      BodyInSlot(v, f, pc);
      assert InOrder(v.tiles, cur, Hdr(v.entries[f]));
    }
  }

  /** The walk has passed every slot that could hold an address of the unit. */
  lemma LookupDone(v: View, u: nat, cur: int, pc: int)
    requires Core(v, {}, {}) && AtSlot(v.tiles, v.spans, u, cur) && ClearBelow(v, u, cur, pc)
    requires cur == v.spans[u].hi || pc <= cur
    requires v.spans[u].lo <= pc < v.spans[u].limit
    ensures forall f :: !Holds(v, f, pc)
  {
    forall f ensures !Holds(v, f, pc) {
      if Holds(v, f, pc) {
        BodyInSlot(v, f, pc);
        var a := Hdr(v.entries[f]);
        var w := v.tiles[a].unit;
        assert TileOk(v.tiles, v.spans, a) && SpanOk(v.tiles, v.spans, w) && SpanOk(v.tiles, v.spans, u);
        UnitOfAddress(v.spans, v.tiles, u, w, pc);
      }
    }
  }
}
