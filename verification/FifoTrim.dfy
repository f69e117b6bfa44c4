/**
 Shortening a fragment of a private cache: the end of its slot goes back to the unclaimed room of
 the current unit, to the empty slot behind it, or becomes an empty slot of its own.
 */
module FifoTrim {
  import opened Layout
  import opened FifoRing
  import opened Units
  import opened FifoLayout

  // ---------------------------------------------------------------- the fragment's record

  /** The record describes a fragment in an aligned slot of legal size that can give up `space` bytes. */
  predicate CanShorten(p: Params, e: Entry, space: int) {
    && ParamsOk(p) && !e.empty && LegalSize(e) && 0 <= space <= e.size
    && Aligned(Hdr(e), p.align) && Aligned(Slot(e), p.align)
  }

  function Returnable(p: Params, e: Entry, space: int): int
    requires CanShorten(p, e, space)
  {
    ExcessAt(p, Hdr(e), Slot(e), e.extra, space).returnable
  }

  /** The record after `space` bytes of the fragment are given up and a slot of `n` bytes kept. */
  function Shortened(e: Entry, space: int, n: int): Entry {
    e.(size := e.size - space, extra := (n - (e.size - space)) % 256)
  }

  /** `e` is the record of the same fragment with another size. */
  predicate Resizes(was: Entry, e: Entry) {
    !was.empty && e == was.(size := e.size, extra := e.extra) && LegalSize(e)
  }

  /** The one-byte field for the bytes beyond the fragment does not overflow. */
  lemma ShortenedFits(p: Params, e: Entry, space: int, n: int)
    requires CanShorten(p, e, space)
    requires n == Slot(e) - Returnable(p, e, space) || (n == Slot(e) && Returnable(p, e, space) < UnitEndHole(p))
    ensures Resizes(e, Shortened(e, space, n)) && Slot(Shortened(e, space, n)) == n
    ensures n < Slot(e) ==> 0 < n && Aligned(n, p.align)
  {
  }

  lemma FragmentFits(p: Params, v: View, f: nat, space: int)
    requires ParamsOk(p) && Core(v, {}, {}) && AllAligned(v.tiles, p.align)
    requires f in v.q && f in v.entries && !v.entries[f].empty && 0 <= space <= v.entries[f].size
    ensures CanShorten(p, v.entries[f], space)
  {
    EntrySlot(v, f);
    assert Ordered(v, IndexOf(v.q, f));
  }

  lemma RerecordedSound(p: Params, v: View, units: map<nat, Unit>, list: seq<nat>, f: nat, e: Entry)
    requires Sound(p, v, units, list, {}, {}) && f in v.q && f in v.entries
    requires Resizes(v.entries[f], e) && Slot(e) == Slot(v.entries[f])
    ensures Sound(p, v.(entries := v.entries[f := e]), units, list, {}, {})
  {
    hide UnitsOk, RoomOk, AllAligned;
    var w := v.(entries := v.entries[f := e]);
    RingFrame(v.q, v.head, v.entries, w.entries);
    forall x ensures Backed(w, {}, {}, x) {
      assert Backed(v, {}, {}, x);
    }
    forall x ensures Owns(w, {}, {}, x) {
      assert Owns(v, {}, {}, x);
    }
    forall i ensures Ordered(w, i) {
      assert Ordered(v, i);
    }
  }

  // ---------------------------------------------------------------- the end of the slot

  /** The slot of `f` is cut after `n` bytes; its end is in transit. */
  ghost function Trimmed(v: View, f: nat, e: Entry, n: int): View
    requires f in v.entries && Hdr(v.entries[f]) in v.tiles
  {
    v.(tiles := Split(v.tiles, Hdr(v.entries[f]), n), entries := v.entries[f := e])
  }

  lemma TrimmedCore(v: View, f: nat, e: Entry, n: int)
    requires Core(v, {}, {}) && f in v.q && f in v.entries && Hdr(v.entries[f]) in v.tiles
    requires Resizes(v.entries[f], e) && Slot(e) == n && 0 < n < Slot(v.entries[f]) == v.tiles[Hdr(v.entries[f])].size
    ensures Core(Trimmed(v, f, e, n), {Hdr(e) + n}, {})
  {
    var w, a := Trimmed(v, f, e, n), Hdr(v.entries[f]);
    var hole := {a + n};
    SplitTiled(v.tiles, v.spans, a, n);
    RingFrame(v.q, v.head, v.entries, w.entries);
    forall x ensures Backed(w, hole, {}, x) {
      assert Backed(v, {}, {}, x) && Owns(v, {}, {}, f);
    }
    forall x ensures Owns(w, hole, {}, x) {
      assert Owns(v, {}, {}, x);
    }
    forall i ensures Ordered(w, i) {
      assert Ordered(v, i);
    }
  }

  lemma TrimmedSound(p: Params, v: View, units: map<nat, Unit>, list: seq<nat>, f: nat, e: Entry, n: int)
    requires Sound(p, v, units, list, {}, {}) && f in v.q && f in v.entries && Hdr(v.entries[f]) in v.tiles
    requires Resizes(v.entries[f], e) && Slot(e) == n && 0 < n < Slot(v.entries[f]) == v.tiles[Hdr(v.entries[f])].size
    requires Aligned(n, p.align)
    ensures var w, h := Trimmed(v, f, e, n), Hdr(e) + n;
            && Sound(p, w, units, list, {h}, {})
            && h in w.tiles && w.tiles[h] == Tile(Slot(v.entries[f]) - n, v.tiles[Hdr(e)].unit)
  {
    hide UnitsOk, RoomOk;
    var a := Hdr(e);
    TrimmedCore(v, f, e, n);
    AlignedSum(a, n, p.align);
    AlignedSum(v.tiles[a].size, n, p.align);
  }

  /** The last slot of a unit, in transit, becomes unclaimed room. */
  ghost function Popped(v: View, a: int): View
    requires a in v.tiles && v.tiles[a].unit in v.spans
  {
    v.(tiles := v.tiles - {a}, spans := Raise(v.spans, v.tiles[a].unit, a))
  }

  lemma PoppedCore(v: View, a: int)
    requires Core(v, {a}, {}) && a in v.tiles && v.tiles[a].unit in v.spans
    requires End(v.tiles, a) == v.spans[v.tiles[a].unit].hi
    ensures Core(Popped(v, a), {}, {})
  {
    var w := Popped(v, a);
    PopTiled(v.tiles, v.spans, a);
    forall x ensures Backed(w, {}, {}, x) {
      assert Backed(v, {a}, {}, x);
    }
    forall x ensures Owns(w, {}, {}, x) {
      assert Owns(v, {a}, {}, x);
    }
    forall i ensures Ordered(w, i) {
      assert Ordered(v, i);
    }
  }

  lemma PoppedSound(p: Params, v: View, units: map<nat, Unit>, list: seq<nat>, a: int)
    requires Sound(p, v, units, list, {a}, {}) && a in v.tiles && v.tiles[a].unit == list[0] && list[0] in v.spans
    requires list[0] in units && End(v.tiles, a) == v.spans[list[0]].hi && a + UnitEndHole(p) <= units[list[0]].endPc
    ensures Sound(p, Popped(v, a), units[list[0] := units[list[0]].(curPc := a, full := false)], list, {}, {})
  {
    var u, w := list[0], Popped(v, a);
    var units' := units[u := units[u].(curPc := a, full := false)];
    assert TileOk(v.tiles, v.spans, a);
    PoppedCore(v, a);
    hide Core;
    forall x | x in units' ensures UnitOk(w.spans, units', x) {
      assert UnitOk(v.spans, units, x);
    }
  }

  lemma EmptyAddedSound(p: Params, v: View, units: map<nat, Unit>, list: seq<nat>, a: int, id: nat)
    requires Sound(p, v, units, list, {a}, {}) && a in v.tiles && id !in v.entries
    requires v.head.At? ==> v.head.id in v.entries
    ensures var w := EmptyAdded(v, a, id);
            && Sound(p, w, units, list, {}, {}) && v.empties <= |v.q| && FragsStay(v, w)
            && 0 < |w.q| && Covers(w, w.q[0], a, End(v.tiles, a))
  {
    hide UnitsOk, RoomOk;
    EmptyAddedCore(v, {a}, {}, a, id);
    EmptyAddedAligned(p, v, {a}, {}, a, id);
    EmptyAddedFront(v, {a}, {}, a, id);
    assert {a} - {a} == {};
  }

  lemma JoinedSound(p: Params, v: View, units: map<nat, Unit>, list: seq<nat>, a: int, id: nat)
    requires Sound(p, v, units, list, {a}, {}) && a in v.tiles && id in v.q && id in v.entries
    requires v.entries[id].empty && Hdr(v.entries[id]) == End(v.tiles, a) && End(v.tiles, a) in v.tiles
    ensures var w := GrownDown(v, a, id);
            && Sound(p, w, units, list, {}, {}) && v.empties <= |v.q| && FragsStay(v, w)
            && Covers(w, id, a, End(v.tiles, a))
  {
    hide UnitsOk, RoomOk;
    GrownDownCore(v, {a}, {}, a, id);
    assert {a} - {a} == {};
    AlignedSum(v.tiles[a].size, v.tiles[End(v.tiles, a)].size, p.align);
    assert Backed(v, {a}, {}, End(v.tiles, a)) && Owns(v, {a}, {}, id);
    assert TileOk(v.tiles, v.spans, End(v.tiles, a));
    forall i | v.empties <= i < |v.q| ensures v.q[i] != id {
      assert Ordered(v, i);
    }
  }

  // ---------------------------------------------------------------- what becomes of the bytes

  /** The bytes from `lo` to `hi` lie in the empty slot `id`. */
  ghost predicate Covers(v: View, id: nat, lo: int, hi: int) {
    && id in v.q && id in v.entries && v.entries[id].empty
    && Hdr(v.entries[id]) <= lo && hi <= Hdr(v.entries[id]) + Slot(v.entries[id])
  }

  /** A slot follows at `end`, and it is empty. */
  ghost predicate EmptyAt(v: View, end: int) {
    end in v.mem && v.mem[end] in v.entries && v.entries[v.mem[end]].empty
  }

  /**
   Where the bytes from `lo` to `hi`, cut off the end of a slot in unit `u`, have gone: to the room of
   the current unit, to the empty slot behind them, or to the empty slot at the FIFO's front.
   */
  ghost predicate Reclaimed(v: View, w: View, n: Unit, u: nat, head: nat, units': map<nat, Unit>, lo: int, hi: int) {
    if hi == n.curPc && u == head then
      u in units' && u in w.spans && units'[u] == n.(curPc := lo, full := false) && w.spans[u].hi == lo
    else if hi != n.curPc && EmptyAt(v, hi) then Covers(w, v.mem[hi], lo, hi)
    else w.q != [] && Covers(w, w.q[0], lo, hi)
  }

  /** When the `ret` returnable bytes of a slot that ends at `end` leave it. */
  ghost predicate Releases(p: Params, v: View, n: Unit, end: int, ret: int) {
    && 0 < ret
    && if end == n.endPc then UnitEndHole(p) <= ret
       else end == n.curPc || EmptyAt(v, end) || p.minHole <= ret
  }

  /** No fragment but `f` is touched, and all keep their turns. */
  ghost predicate OthersKept(v: View, w: View, f: nat) {
    && v.empties <= |v.q| && w.empties <= |w.q| && FragSeq(w) == FragSeq(v)
    && forall id :: id in FragSeq(v) && id != f && id in v.entries ==>
                      id in w.entries && SameButLinks(v.entries[id], w.entries[id])
  }

  lemma TrimmedThenStay(v: View, w: View, x: View, f: nat, e: Entry, n: int)
    requires Core(v, {}, {}) && f in v.q && f in v.entries && !v.entries[f].empty && Hdr(v.entries[f]) in v.tiles
    requires w == Trimmed(v, f, e, n) && w.empties <= |w.q| && x.empties <= |x.q| && FragsStay(w, x)
    ensures OthersKept(v, x, f) && f in x.q && f in x.entries && SameButLinks(e, x.entries[f])
  {
    var i := IndexOf(v.q, f);
    assert Ordered(v, i);
    assert FragSeq(w) == FragSeq(v) && FragSeq(v)[i - v.empties] == f;
    assert f in FragSeq(x);
  }

  /** A slot that ends short of what its unit has committed and filled is followed by another. */
  lemma SlotBehind(p: Params, v: View, units: map<nat, Unit>, list: seq<nat>, a: int)
    requires Sound(p, v, units, list, {}, {}) && a in v.tiles
    ensures var u, end := v.tiles[a].unit, End(v.tiles, a);
            && u in units && u in v.spans && units[u].curPc == v.spans[u].hi
            && (end == units[u].endPc ==> end == units[u].curPc)
            && (end == units[u].curPc && end != units[u].endPc ==>
                  u == list[0] && end + UnitEndHole(p) <= units[u].endPc)
            && (end != units[u].curPc ==>
                  && end in v.tiles && end in v.mem && v.mem[end] in v.entries && v.mem[end] in v.q
                  && Hdr(v.entries[v.mem[end]]) == end)
  {
    var u, end := v.tiles[a].unit, End(v.tiles, a);
    assert TileOk(v.tiles, v.spans, a);
    assert UnitOk(v.spans, units, u);
    assert Backed(v, {}, {}, end);
  }
}
