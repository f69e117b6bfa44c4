/**
 What must hold of a whole shared cache (units, current unit, alignment, layout and free lists
 together), and why each operation's effect on the layout keeps it.
 */
module SharedLayout {
  import opened Layout
  import opened FreeChain
  import opened FreeSlots
  import opened Units

  /**
   Only the current unit may have unclaimed room.  It never ends in a free slot, and always has
   either room for another slot or a last slot so large that giving it back makes such room.
   */
  ghost predicate HeadOk(p: Params, v: View, units: map<nat, Unit>, head: nat) {
    && head in units && head in v.spans
    && (forall u :: u in v.spans && u != head && u in units ==> units[u].full)
    && (!units[head].full ==> units[head].curPc + UnitEndHole(p) <= units[head].endPc)
    && (forall a {:trigger EdgeOk(p, v, units[head], head, a)} :: a in v.tiles ==> EdgeOk(p, v, units[head], head, a))
  }

  ghost predicate EdgeOk(p: Params, v: View, n: Unit, head: nat, a: int) {
    a in v.tiles && a in v.kind && v.tiles[a].unit == head && End(v.tiles, a) == n.curPc ==>
      && !v.kind[a].Free?
      && (n.full ==> UnitEndHole(p) <= v.tiles[a].size)
  }

  ghost predicate ListOk(v: View, list: seq<nat>) {
    list != [] && ListIn(v, list)
  }

  ghost predicate ListIn(v: View, list: seq<nat>) {
    && (forall i :: 0 <= i < |list| ==> list[i] in v.spans)
    && (forall i, j :: 0 <= i < j < |list| ==> list[i] != list[j])
  }

  /** Everything that holds of a shared cache, except that `holes` are the slots in transit. */
  ghost predicate Sound(p: Params, v: View, units: map<nat, Unit>, list: seq<nat>, holes: set<int>, ex: set<int>) {
    && ParamsOk(p)
    && Core(v, ex)
    && (forall a :: a in v.kind ==> (v.kind[a].Hole? <==> a in holes))
    && UnitsOk(v.spans, units)
    && ListOk(v, list)
    && HeadOk(p, v, units, list[0])
    && AllAligned(v.tiles, p.align)
  }

  /** Bytes the slot at `start` covers once it has swallowed its free neighbours. */
  ghost function RangeLo(v: View, start: int): int {
    if Follows(v, start) && start - FOOTER_SIZE in v.mem.foot
    then start - v.mem.foot[start - FOOTER_SIZE] else start
  }

  ghost predicate NextIsFree(v: View, start: int) {
    && start in v.tiles && End(v.tiles, start) in v.tiles
    && End(v.tiles, start) in v.kind && v.kind[End(v.tiles, start)].Free?
  }

  ghost function RangeHi(v: View, start: int): int
    requires start in v.tiles
  {
    if NextIsFree(v, start) then End(v.tiles, End(v.tiles, start)) else End(v.tiles, start)
  }

  /** The slots that vanish when the hole at `start` is coalesced. */
  ghost function Swallowed(v: View, start: int): set<int>
    requires start in v.tiles
  {
    {RangeLo(v, start), start} + if NextIsFree(v, start) then {End(v.tiles, start)} else {}
  }

  ghost function CoalescedTiles(v: View, start: int): Tiles
    requires start in v.tiles
  {
    (v.tiles - Swallowed(v, start))
      [RangeLo(v, start) := Tile(RangeHi(v, start) - RangeLo(v, start), v.tiles[start].unit)]
  }

  /**
   What returning the slot at `start` of unit `u` does to the layout: its coalesced range goes
   back to the unclaimed space when it ends at the append point of the current unit `head`, and
   becomes one free slot otherwise.
   */
  ghost predicate Returned(v: View, w: View, units: map<nat, Unit>, units': map<nat, Unit>,
                           head: nat, u: nat, start: int)
  {
    && start in v.tiles && u in units && u in v.spans
    && var lo, hi := RangeLo(v, start), RangeHi(v, start);
    if u == head && units[u].curPc == hi then
      && w.tiles == v.tiles - Swallowed(v, start)
      && w.kind == v.kind - Swallowed(v, start)
      && w.spans == Raise(v.spans, u, lo)
      && units' == units[u := units[u].(curPc := lo, full := false)]
      && (forall a :: a in w.kind && a in w.tiles && w.kind[a].Free? ==> End(w.tiles, a) != lo)
    else
      && w.tiles == CoalescedTiles(v, start)
      && w.kind == (v.kind - Swallowed(v, start))[lo := Free]
      && w.spans == v.spans
      && units' == units
  }

  /** The hole at `start` has swallowed its free neighbours and is now at `st`. */
  ghost predicate Absorbed(v: View, w: View, start: int, st: int) {
    && start in v.tiles && st == RangeLo(v, start)
    && w.tiles == CoalescedTiles(v, start)
    && w.kind == (v.kind - Swallowed(v, start))[st := Hole(false)]
    && w.spans == v.spans
  }

  lemma AbsorbedNext(v: View, w: View, ex: set<int>, start: int)
    requires Core(v, ex) && start in v.tiles && RangeLo(v, start) == start && v.kind[start] == Hole(false)
    requires w.tiles == (if NextIsFree(v, start) then Merge(v.tiles, start) else v.tiles) && w.spans == v.spans
    requires w.kind == if NextIsFree(v, start) then v.kind - {End(v.tiles, start)} else v.kind
    ensures Absorbed(v, w, start, start)
  {
    CoalesceLayout(v, start);
    assert TileOk(v.tiles, v.spans, start);
  }

  lemma AbsorbedPrev(v: View, w: View, x: View, ex: set<int>, start: int, p: int)
    requires Core(v, ex) && start in v.tiles && RangeLo(v, start) == p && p in v.tiles && p < start
    requires End(v.tiles, p) == start
    requires w.tiles == (if NextIsFree(v, start) then Merge(v.tiles, start) else v.tiles) && w.spans == v.spans
    requires w.kind == if NextIsFree(v, start) then v.kind - {End(v.tiles, start)} else v.kind
    requires p in w.tiles && End(w.tiles, p) in w.tiles && x.tiles == Merge(w.tiles, p) && x.spans == w.spans
    requires x.kind == (w.kind - {start})[p := Hole(false)]
    ensures Absorbed(v, x, start, p)
  {
    CoalesceLayout(v, start);
    assert TileOk(v.tiles, v.spans, start);
  }

  lemma FiledReturns(v: View, w: View, x: View, units: map<nat, Unit>, head: nat, u: nat, start: int, st: int)
    requires Absorbed(v, w, start, st) && u in units && u in v.spans
    requires x.tiles == w.tiles && x.kind == w.kind[st := Free] && x.spans == w.spans
    requires u == head ==> units[u].curPc != RangeHi(v, start)
    ensures Returned(v, x, units, units, head, u, start)
  {
  }

  lemma ShrunkReturns(v: View, w: View, x: View, units: map<nat, Unit>, units': map<nat, Unit>, u: nat, start: int,
                      st: int)
    requires Absorbed(v, w, start, st) && u in units && u in v.spans && w.tiles[st].unit == u
    requires x == Shrunk(w, st) && units' == units[u := units[u].(curPc := st, full := false)]
    requires units[u].curPc == RangeHi(v, start)
    requires forall a :: a in x.kind && a in x.tiles && x.kind[a].Free? ==> End(x.tiles, a) != st
    ensures Returned(v, x, units, units', u, u, start)
  {
    assert x.tiles == v.tiles - Swallowed(v, start);
  }

  /** Returning a slot restores the whole invariant, whichever way the slot goes. */
  lemma ReturnedSound(p: Params, v: View, w: View, units: map<nat, Unit>, units': map<nat, Unit>,
                      list: seq<nat>, holes: set<int>, u: nat, start: int)
    requires start in v.tiles && v.tiles[start].unit == u
    requires Sound(p, v, units, list, holes, {End(v.tiles, start)}) && start in holes
    requires u in units && u in v.spans && Core(w, {})
    requires Returned(v, w, units, units', list[0], u, start)
    ensures Sound(p, w, units', list, holes - {start}, {})
  {
    hide HeadOk, UnitsOk;
    assert TileOk(v.tiles, v.spans, start);
    ReturnedRange(v, {End(v.tiles, start)}, start);
    hide Core;
    ReturnedAligned(p, v, start);
    ReturnedUnits(p, v, w, units, units', list[0], u, start);
    ReturnedHead(p, v, w, units, units', list[0], u, start);
  }

  lemma ReturnedUnits(p: Params, v: View, w: View, units: map<nat, Unit>, units': map<nat, Unit>,
                      head: nat, u: nat, start: int)
    requires start in v.tiles && v.tiles[start].unit == u && u in units && u in v.spans
    requires 0 < p.align && UnitsOk(v.spans, units)
    requires Returned(v, w, units, units', head, u, start)
    requires RangeLo(v, start) <= start && v.spans[u].lo <= RangeLo(v, start) && start <= v.spans[u].hi
    ensures UnitsOk(w.spans, units')
  {
    assert UnitOk(v.spans, units, u);
    forall n | n in units' ensures UnitOk(w.spans, units', n) {
      assert UnitOk(v.spans, units, n);
    }
    forall m, n | m in units' && n in units' && m != n ensures RangesApart(units'[m], units'[n]) {
      assert RangesApart(units[m], units[n]);
    }
  }

  lemma ReturnedHead(p: Params, v: View, w: View, units: map<nat, Unit>, units': map<nat, Unit>,
                     head: nat, u: nat, start: int)
    requires start in v.tiles && v.tiles[start].unit == u && start in v.kind && v.kind[start].Hole?
    requires 0 < p.align && HeadOk(p, v, units, head) && UnitsOk(v.spans, units)
    requires u in units && u in v.spans
    requires Returned(v, w, units, units', head, u, start)
    requires RangeLo(v, start) <= start && start <= RangeHi(v, start)
    requires NextIsFree(v, start) ==> v.tiles[End(v.tiles, start)].unit == u
    ensures HeadOk(p, w, units', head)
  {
    assert UnitOk(v.spans, units, u);
    assert EdgeOk(p, v, units[head], head, start);
    if NextIsFree(v, start) { assert EdgeOk(p, v, units[head], head, End(v.tiles, start)); }
    forall a | a in w.tiles ensures EdgeOk(p, w, units'[head], head, a) {
      assert EdgeOk(p, v, units[head], head, a);
    }
  }

  /** The coalesced range is made of whole slots of the same unit. */
  lemma ReturnedRange(v: View, ex: set<int>, start: int)
    requires Core(v, ex) && start in v.tiles && start !in ex && v.kind[start].Hole?
    ensures var lo := RangeLo(v, start);
            && lo in v.tiles && v.tiles[lo].unit == v.tiles[start].unit && lo <= start
            && v.tiles[lo].unit in v.spans && v.spans[v.tiles[lo].unit].lo <= lo
            && start <= v.spans[v.tiles[lo].unit].hi
            && (lo != start ==> v.kind[lo].Free? && End(v.tiles, lo) == start)
    ensures start <= RangeHi(v, start)
    ensures NextIsFree(v, start) ==> v.tiles[End(v.tiles, start)].unit == v.tiles[start].unit
  {
    var lo := RangeLo(v, start);
    assert SlotOk(v, ex, start) && TileOk(v.tiles, v.spans, start) && TileOk(v.tiles, v.spans, lo);
    if Follows(v, start) {
      assert SlotOk(v, ex, lo);
      NextInUnit(v.tiles, v.spans, lo);
    }
    if NextIsFree(v, start) {
      NextInUnit(v.tiles, v.spans, start);
      assert TileOk(v.tiles, v.spans, End(v.tiles, start));
    }
  }

  lemma ReturnedAligned(p: Params, v: View, start: int)
    requires ParamsOk(p) && AllAligned(v.tiles, p.align) && start in v.tiles
    requires RangeLo(v, start) in v.tiles
    requires RangeLo(v, start) != start ==> End(v.tiles, RangeLo(v, start)) == start
    ensures AllAligned(CoalescedTiles(v, start), p.align)
  {
    var lo := RangeLo(v, start);
    AlignedSum(v.tiles[start].size, v.tiles[lo].size, p.align);
    if NextIsFree(v, start) {
      var n := v.tiles[End(v.tiles, start)].size;
      AlignedSum(v.tiles[start].size, n, p.align);
      AlignedSum(v.tiles[start].size + n, v.tiles[lo].size, p.align);
    }
  }

  lemma CoalesceLayout(v: View, start: int)
    requires Tiled(v.tiles, v.spans) && start in v.tiles
    ensures var t := if NextIsFree(v, start) then Merge(v.tiles, start) else v.tiles;
            var p := RangeLo(v, start);
            && (p == start ==> t == CoalescedTiles(v, start))
            && (p in v.tiles && p < start && End(v.tiles, p) == start ==>
                  p in t && End(t, p) in t && Merge(t, p) == CoalescedTiles(v, start))
  {
    assert TileOk(v.tiles, v.spans, start);
    var t := if NextIsFree(v, start) then Merge(v.tiles, start) else v.tiles;
    var p := RangeLo(v, start);
    if p in v.tiles && p < start && End(v.tiles, p) == start {
      NextInUnit(v.tiles, v.spans, p);
      assert Merge(t, p) == CoalescedTiles(v, start);
    }
  }

  ghost predicate OnlyFlagsChange(before: map<nat, Frag>, after: map<nat, Frag>) {
    && before.Keys == after.Keys
    && forall f :: f in before ==> before[f] == after[f].(followsFree := before[f].followsFree)
  }

  /** Every fragment on the lazy list has been marked deleted. */
  ghost predicate LazyOk(frags: map<nat, Frag>, lazy: set<nat>) {
    forall f :: f in lazy && f in frags ==> frags[f].wasDeleted
  }

  lemma FlagsSame(frags: map<nat, Frag>)
    ensures OnlyFlagsChange(frags, frags)
  {
  }

  lemma LazyKept(before: map<nat, Frag>, after: map<nat, Frag>, lazy: set<nat>)
    requires LazyOk(before, lazy) && OnlyFlagsChange(before, after)
    ensures LazyOk(after, lazy)
  {
  }

  /** Apart from flags only the record of `f` changes. */
  ghost predicate OnlyRecordChanges(before: map<nat, Frag>, after: map<nat, Frag>, f: nat) {
    && f in before && f in after && after[f].wasDeleted == before[f].wasDeleted
    && OnlyFlagsChange(before[f := after[f]], after)
  }

  lemma RecordKept(before: map<nat, Frag>, after: map<nat, Frag>, lazy: set<nat>, f: nat)
    requires LazyOk(before, lazy) && OnlyRecordChanges(before, after, f)
    ensures LazyOk(after, lazy)
  {
    forall g | g in lazy && g in after ensures after[g].wasDeleted {
      assert g in before[f := after[f]];
    }
  }

  lemma RecordAfterFlags(before: map<nat, Frag>, mid: map<nat, Frag>, after: map<nat, Frag>, f: nat)
    requires OnlyFlagsChange(before, mid) && f in before && OnlyRecordChanges(mid, after, f)
    ensures OnlyRecordChanges(before, after, f)
  {
    var b, m := before[f := after[f]], mid[f := after[f]];
    assert b.Keys == before.Keys && m.Keys == mid.Keys;
    forall g | g in b ensures b[g] == after[g].(followsFree := b[g].followsFree) {
      assert g in m && m[g] == after[g].(followsFree := m[g].followsFree);
    }
  }

  lemma TrimmedRecord(before: map<nat, Frag>, after: map<nat, Frag>, kept: Frag, f: nat)
    requires f in before && kept.wasDeleted == before[f].wasDeleted && OnlyFlagsChange(before[f := kept], after)
    ensures OnlyRecordChanges(before, after, f)
  {
    var b, m := before[f := after[f]], before[f := kept];
    forall g | g in b ensures b[g] == after[g].(followsFree := b[g].followsFree) {
      assert g in m && m[g] == after[g].(followsFree := m[g].followsFree);
    }
  }

  // ---------------------------------------------------------------- facts read off the invariant

  lemma CoreTile(v: View, ex: set<int>, a: int)
    requires Core(v, ex) && a in v.tiles
    ensures TileOk(v.tiles, v.spans, a) && a in v.kind
  {
  }

  lemma CoreSpan(v: View, ex: set<int>, u: nat)
    requires Core(v, ex) && u in v.spans
    ensures Tiled(v.tiles, v.spans) && AtSlot(v.tiles, v.spans, u, v.spans[u].lo)
    ensures v.spans[u].hi !in v.tiles && v.kind.Keys == v.tiles.Keys
    ensures forall a :: a in v.tiles && v.tiles[a].unit == u ==> v.spans[u].lo <= a
  {
    assert SpanOk(v.tiles, v.spans, u);
    TopIsFree(v.tiles, v.spans, u);
    forall a | a in v.tiles && v.tiles[a].unit == u ensures v.spans[u].lo <= a {
      assert TileOk(v.tiles, v.spans, a);
    }
  }

  lemma SpanUnit(p: Params, v: View, units: map<nat, Unit>, u: nat)
    requires 0 < p.align && UnitsOk(v.spans, units) && u in v.spans
    ensures u in units && v.spans[u] == Span(units[u].startPc, units[u].curPc, units[u].reservedEnd)
  {
    assert UnitOk(v.spans, units, u);
  }

  lemma HeadFacts(p: Params, v: View, units: map<nat, Unit>, head: nat)
    requires 0 < p.align && UnitsOk(v.spans, units) && HeadOk(p, v, units, head)
    ensures head in units && head in v.spans && UnitOk(v.spans, units, head)
    ensures 0 < UnitEndHole(p) ==> (units[head].full <==> units[head].curPc == units[head].endPc)
    ensures units[head].curPc < units[head].endPc ==> units[head].curPc + UnitEndHole(p) <= units[head].endPc
  {
    assert UnitOk(v.spans, units, head);
  }

  // ---------------------------------------------------------------- fragments that stay put

  ghost predicate LiveAt(v: View, a: int, g: nat) {
    a in v.tiles && a in v.kind && v.kind[a] == Live(g) && g in v.frags
  }

  predicate SameButFlag(x: Frag, y: Frag) {
    x == y.(followsFree := x.followsFree)
  }

  /** The fragment at `a` keeps its slot and, up to the follows-free flag, its record. */
  ghost predicate Stays(v: View, w: View, a: int, g: nat) {
    && (LiveAt(v, a, g) <==> LiveAt(w, a, g))
    && (LiveAt(v, a, g) ==> w.tiles[a] == v.tiles[a] && SameButFlag(v.frags[g], w.frags[g]))
  }

  /** No operation on fragment `f` moves, drops, resizes or creates any other fragment. */
  ghost predicate OthersStay(v: View, w: View, f: nat) {
    forall a, g {:trigger Stays(v, w, a, g)} :: g != f ==> Stays(v, w, a, g)
  }

  ghost predicate AllStay(v: View, w: View) {
    forall a, g {:trigger Stays(v, w, a, g)} :: Stays(v, w, a, g)
  }

  lemma NothingMoves(v: View, f: nat)
    requires f in v.frags
    ensures OthersStay(v, v, f) && OnlyRecordChanges(v.frags, v.frags, f)
  {
    forall a, g ensures Stays(v, v, a, g) {
    }
    assert v.frags[f := v.frags[f]] == v.frags;
  }

  lemma AllStayChain(v: View, w: View, x: View)
    requires AllStay(v, w) && AllStay(w, x)
    ensures AllStay(v, x)
  {
    forall a, g ensures Stays(v, x, a, g) {
      assert Stays(v, w, a, g) && Stays(w, x, a, g);
    }
  }

  lemma UnfiledStays(v: View, w: View, a: int)
    requires a in v.kind && !v.kind[a].Live? && w.kind == v.kind[a := Hole(false)]
    requires w.tiles == v.tiles && w.frags == v.frags
    ensures AllStay(v, w)
  {
    forall b, g ensures Stays(v, w, b, g) {
    }
  }

  lemma StillNotPlaced(v: View, w: View, g: nat)
    requires AllStay(v, w) && Core(w, {}) && NotPlaced(v, g)
    ensures NotPlaced(w, g)
  {
    forall a | a in w.kind ensures w.kind[a] != Live(g) {
      assert SlotOk(w, {}, a) && Stays(v, w, a, g);
    }
  }

  lemma StayThenPlace(v: View, w: View, x: View, f: nat)
    requires AllStay(v, w) && OthersStay(w, x, f)
    ensures OthersStay(v, x, f)
  {
    StayChain(v, w, x, f);
  }

  lemma StayChain(v: View, w: View, x: View, f: nat)
    requires OthersStay(v, w, f) && OthersStay(w, x, f)
    ensures OthersStay(v, x, f)
  {
    forall a, g | g != f ensures Stays(v, x, a, g) {
      assert Stays(v, w, a, g) && Stays(w, x, a, g);
    }
  }

  lemma ReturnedOthers(v: View, w: View, units: map<nat, Unit>, units': map<nat, Unit>,
                       head: nat, u: nat, start: int)
    requires start in v.tiles && u in units && u in v.spans && start in v.kind && v.kind[start].Hole?
    requires Returned(v, w, units, units', head, u, start)
    requires RangeLo(v, start) != start ==> RangeLo(v, start) in v.kind && v.kind[RangeLo(v, start)].Free?
    requires OnlyFlagsChange(v.frags, w.frags)
    ensures AllStay(v, w)
  {
    forall a, g ensures Stays(v, w, a, g) {
    }
  }

  // ---------------------------------------------------------------- freeing a fragment

  lemma VacatedSound(p: Params, v: View, units: map<nat, Unit>, list: seq<nat>, a: int)
    requires Sound(p, v, units, list, {}, {}) && a in v.tiles && v.kind[a].Live?
    ensures Sound(p, Vacated(v, a), units, list, {a}, {End(v.tiles, a)})
  {
    var w := Vacated(v, a);
    VacatedCore(v, {}, a);
    CoreExempt(w, {}, {End(v.tiles, a)});
    hide Core;
    forall x | x in w.tiles ensures EdgeOk(p, w, units[list[0]], list[0], x) {
      assert EdgeOk(p, v, units[list[0]], list[0], x);
    }
  }

  lemma VacatedOthers(v: View, a: int, f: nat)
    requires LiveAt(v, a, f) && NotElsewhere(v, a)
    ensures OthersStay(v, Vacated(v, a), f)
  {
    var w := Vacated(v, a);
    forall x, g | g != f ensures Stays(v, w, x, g) {
    }
  }

  /** What the record of a live fragment says about its slot. */
  lemma LiveFacts(v: View, ex: set<int>, a: int, f: nat)
    requires Core(v, ex) && LiveAt(v, a, f)
    ensures LiveOk(v, f, a) && a <= v.frags[f].startPc < End(v.tiles, a)
    ensures NotElsewhere(v, a) && NotPlaced(Vacated(v, a), f)
  {
    assert SlotOk(v, ex, a);
    LiveOnce(v, ex, a);
  }

  // ---------------------------------------------------------------- trimming a slot

  /** The fragment at `a` keeps the first `n` bytes of its slot; the rest becomes a hole. */
  ghost function Trimmed(v: View, a: int, fr: Frag, n: int): View
    requires a in v.tiles && a in v.kind && v.kind[a].Live?
  {
    var f := v.kind[a].f;
    v.(tiles := Split(v.tiles, a, n), kind := v.kind[a + n := Hole(false)], frags := v.frags[f := fr])
  }

  lemma TrimmedCore(v: View, a: int, fr: Frag, n: int)
    requires Core(v, {}) && a in v.tiles && v.kind[a].Live? && NotElsewhere(v, a)
    requires 0 < n < v.tiles[a].size
    requires fr.followsFree == Follows(v, a)
    requires HdrStart(fr) == a && SlotSize(fr) == n && MIN_SLOT <= n
    requires !fr.freeListBit && 0 <= fr.size && HEADER_SIZE <= fr.extra <= 255
    ensures Core(Trimmed(v, a, fr, n), {})
  {
    var f := v.kind[a].f;
    assert SlotOk(v, {}, a);
    VacatedCore(v, {}, a);
    var w := Vacated(v, a);
    CutCore(w, {}, a, n);
    var x := Cut(w, a, n);
    SettledCore(x, {}, a, f, fr);
    assert Settled(x, a, f, fr) == Trimmed(v, a, fr, n);
  }

  /** No second slot holds the fragment at `a`. */
  ghost predicate NotElsewhere(v: View, a: int)
    requires a in v.kind
  {
    forall b :: b in v.kind && b != a ==> v.kind[b] != v.kind[a]
  }

  lemma LiveOnce(v: View, ex: set<int>, a: int)
    requires Core(v, ex) && a in v.tiles && v.kind[a].Live?
    ensures NotElsewhere(v, a)
  {
    forall b | b in v.kind && b != a ensures v.kind[b] != v.kind[a] {
      assert SlotOk(v, ex, a) && SlotOk(v, ex, b);
    }
  }

  lemma TrimmedSound(p: Params, v: View, units: map<nat, Unit>, list: seq<nat>, a: int, fr: Frag, n: int)
    requires Sound(p, v, units, list, {}, {}) && a in v.tiles && v.kind[a].Live?
    requires Core(Trimmed(v, a, fr, n), {}) && 0 < n < v.tiles[a].size && Aligned(n, p.align)
    requires v.tiles[a].unit == list[0] && units[list[0]].full && End(v.tiles, a) == units[list[0]].curPc ==>
               UnitEndHole(p) <= v.tiles[a].size - n
    ensures Sound(p, Trimmed(v, a, fr, n), units, list, {a + n}, {End(v.tiles, a)})
    ensures var w := Trimmed(v, a, fr, n);
            && LiveAt(w, a, v.kind[a].f) && w.tiles[a] == Tile(n, v.tiles[a].unit) && w.frags[v.kind[a].f] == fr
            && a + n in w.tiles && w.tiles[a + n] == Tile(v.tiles[a].size - n, v.tiles[a].unit)
            && w.kind[a + n] == Hole(false)
            && (NextIsFree(v, a) ==> NextIsFree(w, a + n))
  {
    var w := Trimmed(v, a, fr, n);
    CoreExempt(w, {}, {End(v.tiles, a)});
    SplitTiled(v.tiles, v.spans, a, n);
    assert TileOk(v.tiles, v.spans, a) && UnitOk(v.spans, units, list[0]);
    hide Core;
    AlignedSum(a, n, p.align);
    AlignedSum(v.tiles[a].size, n, p.align);
    forall x | x in w.tiles ensures EdgeOk(p, w, units[list[0]], list[0], x) {
      assert EdgeOk(p, v, units[list[0]], list[0], x);
    }
  }

  lemma TrimmedOthers(v: View, a: int, fr: Frag, n: int)
    requires Core(v, {}) && a in v.tiles && a in v.kind && v.kind[a].Live? && NotElsewhere(v, a)
    requires 0 < n < v.tiles[a].size
    ensures OthersStay(v, Trimmed(v, a, fr, n), v.kind[a].f)
  {
    SplitTiled(v.tiles, v.spans, a, n);
    var w := Trimmed(v, a, fr, n);
    forall x, g | g != v.kind[a].f ensures Stays(v, w, x, g) {
    }
  }

  /** The record of a live fragment changes but still describes the same slot. */
  function Rerecorded(v: View, f: nat, fr: Frag): View {
    v.(frags := v.frags[f := fr])
  }

  lemma RerecordedSound(p: Params, v: View, units: map<nat, Unit>, list: seq<nat>, a: int, f: nat, fr: Frag)
    requires Sound(p, v, units, list, {}, {}) && LiveAt(v, a, f)
    requires HdrStart(fr) == a && SlotSize(fr) == v.tiles[a].size && fr.followsFree == v.frags[f].followsFree
    requires !fr.freeListBit && 0 <= fr.size && HEADER_SIZE <= fr.extra <= 255
    ensures Sound(p, Rerecorded(v, f, fr), units, list, {}, {})
    ensures OthersStay(v, Rerecorded(v, f, fr), f)
  {
    var w := Rerecorded(v, f, fr);
    LiveFacts(v, {}, a, f);
    VacatedCore(v, {}, a);
    SettledCore(Vacated(v, a), {}, a, f, fr);
    assert w == Settled(Vacated(v, a), a, f, fr);
    hide Core;
    forall x | x in w.tiles ensures EdgeOk(p, w, units[list[0]], list[0], x) {
      assert EdgeOk(p, v, units[list[0]], list[0], x);
    }
    forall x, g | g != f ensures Stays(v, w, x, g) {
    }
  }

  /** Giving back the last slot of the current unit is one way of returning it. */
  lemma GivenBack(v: View, w: View, units: map<nat, Unit>, units': map<nat, Unit>, u: nat, start: int)
    requires start in v.tiles && v.tiles[start].unit == u && start in v.kind && v.kind[start] == Hole(false)
    requires u in v.spans && u in units && End(v.tiles, start) == v.spans[u].hi == units[u].curPc
    requires End(v.tiles, start) !in v.tiles
    requires w == Shrunk(v, start) && units' == units[u := units[u].(curPc := start, full := false)]
    requires forall a :: a in w.kind && a in w.tiles && w.kind[a].Free? ==> End(w.tiles, a) != start
    ensures Returned(v, w, units, units', u, u, start)
  {
    assert Swallowed(v, start) == {start};
  }

  /** When the `ret` returnable bytes of the slot at `a` in unit `n` leave it. */
  ghost predicate Releases(p: Params, v: View, n: Unit, a: int, ret: int)
    requires a in v.tiles
  {
    && 0 < ret
    && if End(v.tiles, a) == n.endPc then UnitEndHole(p) <= ret
       else End(v.tiles, a) == n.curPc || NextIsFree(v, a) || p.minHole <= ret
  }

  // ---------------------------------------------------------------- slot arithmetic

  /** FRAG_SIZE_ASSIGN stores the part of a slot beyond the fragment's size in one byte. */
  function ToByte(x: int): int {
    x % 256
  }

  function Resized(f: Frag, slot: int): Frag {
    f.(extra := ToByte(slot - (f.size + StartPadding(f))))
  }

  /** The record describes an aligned slot of legal size. */
  predicate Fits(p: Params, f: Frag)
    requires ParamsOk(p)
  {
    && HEADER_SIZE <= f.extra && MIN_SLOT <= SlotSize(f)
    && Aligned(HdrStart(f), p.align) && Aligned(SlotSize(f), p.align)
  }

  lemma LiveFits(p: Params, v: View, a: int, f: nat)
    requires ParamsOk(p) && Core(v, {}) && AllAligned(v.tiles, p.align) && LiveAt(v, a, f)
    ensures Fits(p, v.frags[f])
  {
    LiveFacts(v, {}, a, f);
  }

  /** The shortened record describes a slot of `n` bytes, and its one-byte field does not overflow. */
  lemma ShorterFits(p: Params, f: Frag, space: int, n: int)
    requires ParamsOk(p) && Fits(p, f) && 0 <= space <= f.size
    requires n == SlotSize(f) - ExcessOf(p, f, space).returnable ||
             (n == SlotSize(f) && ExcessOf(p, f, space).returnable < UnitEndHole(p))
    ensures var g := Resized(f.(size := f.size - space), n);
            && HdrStart(g) == HdrStart(f) && SlotSize(g) == n
            && HEADER_SIZE <= g.extra <= 255 && 0 <= g.size
  {
  }

  function ExcessOf(p: Params, f: Frag, space: int): Excess
    requires ParamsOk(p) && Fits(p, f) && 0 <= space <= f.size
  {
    ExcessAt(p, HdrStart(f), SlotSize(f), f.extra, space)
  }

  // ---------------------------------------------------------------- reusing a free slot

  /** A free slot large enough for `size`. */
  ghost predicate Suits(v: View, size: int, x: int) {
    x in v.kind && x in v.tiles && v.kind[x].Free? && size <= v.tiles[x].size
  }

  ghost predicate NoneSuits(v: View, size: int) {
    forall x :: !Suits(v, size, x)
  }

  /** `a` is the free slot that first fit finds. */
  ghost predicate FitsFirst(v: View, size: int, a: int) {
    |v.lists| == BUCKETS && exists k, i :: FirstFit(v, size, k, i) && v.lists[k][i] == a
  }

  /**
   Where a slot of `size` bytes goes: to the first free slot that fits, else to the append point of
   the current unit `n` if its reservation holds it, else to the start of a new unit.
   */
  ghost predicate Goes(v: View, n: Unit, size: int, s: Supply, a: int) {
    if !NoneSuits(v, size) then FitsFirst(v, size, a)
    else a == if n.curPc + size <= n.reservedEnd then n.curPc else s.startPc
  }

  lemma GoesNow(v: View, n: Unit, size: int, s: Supply, a: int)
    requires if NoneSuits(v, size) then a == n.curPc && n.curPc + size <= n.reservedEnd else FitsFirst(v, size, a)
    ensures Goes(v, n, size, s, a)
  {
  }

  /** Making more space does not change where the slot goes. */
  lemma GoesLater(v: View, w: View, n: Unit, m: Unit, size: int, s: Supply, a: int)
    requires NoneSuits(v, size) && NoneSuits(w, size) && Goes(w, m, size, s, a)
    requires n.curPc + size <= n.reservedEnd ==> m.curPc == n.curPc && m.curPc + size <= m.reservedEnd
    requires n.curPc + size > n.reservedEnd ==> m.curPc == s.startPc
    ensures Goes(v, n, size, s, a)
  {
  }

  /** The first suitable entry of the lowest bucket that has one. */
  ghost predicate FirstFit(v: View, size: int, k: int, i: int)
    requires |v.lists| == BUCKETS
  {
    && 0 <= k < BUCKETS && 0 <= i < |v.lists[k]|
    && Suits(v, size, v.lists[k][i])
    && (forall j :: 0 <= j < i ==> !Suits(v, size, v.lists[k][j]))
    && (forall m, j :: 0 <= m < k && 0 <= j < |v.lists[m]| ==> !Suits(v, size, v.lists[m][j]))
  }

  /** Sizes in a lower bucket are smaller, so the search may start at the request's own bucket. */
  lemma LowerBucketsTooSmall(v: View, size: int, m: int, j: int)
    requires ListsOk(v) && 0 <= m < Bucket(size) && 0 <= j < |v.lists[m]|
    ensures !Suits(v, size, v.lists[m][j])
  {
    assert BelongsIn(v, m, v.lists[m][j]);
  }

  lemma UnfiledSound(p: Params, v: View, units: map<nat, Unit>, list: seq<nat>, a: int, w: View)
    requires Sound(p, v, units, list, {}, {}) && a in v.tiles && v.kind[a].Free?
    requires Core(w, {End(v.tiles, a)}) && w.tiles == v.tiles && w.spans == v.spans
    requires w.kind == v.kind[a := Hole(false)]
    ensures Sound(p, w, units, list, {a}, {End(v.tiles, a)})
    ensures End(v.tiles, a) in v.tiles ==> v.kind[End(v.tiles, a)].Live?
    ensures MIN_SLOT <= v.tiles[a].size && v.tiles[a].unit in v.spans && v.tiles[a].unit in units
    ensures v.tiles[a].unit == list[0] ==> units[list[0]].curPc != End(v.tiles, a)
    ensures units[v.tiles[a].unit].curPc > End(v.tiles, a) <==> End(v.tiles, a) in v.tiles
  {
    assert SlotOk(v, {}, a) && TileOk(v.tiles, v.spans, a) && UnitOk(v.spans, units, v.tiles[a].unit);
    assert EdgeOk(p, v, units[list[0]], list[0], a);
    TopIsFree(v.tiles, v.spans, v.tiles[a].unit);
    hide Core;
    forall x | x in w.tiles ensures EdgeOk(p, w, units[list[0]], list[0], x) {
      assert EdgeOk(p, v, units[list[0]], list[0], x);
    }
  }

  /** The part of a hole beyond `n` bytes becomes a hole of its own. */
  lemma CutSound(p: Params, v: View, units: map<nat, Unit>, list: seq<nat>, a: int, n: int)
    requires a in v.tiles && Sound(p, v, units, list, {a}, {End(v.tiles, a)}) && 0 < n < v.tiles[a].size
    requires Aligned(n, p.align)
    requires v.kind[a] == Hole(false)
    requires v.tiles[a].unit == list[0] ==> units[list[0]].curPc != End(v.tiles, a)
    ensures Sound(p, Cut(v, a, n), units, list, {a, a + n}, {End(v.tiles, a)})
    ensures a + n !in v.tiles && AllStay(v, Cut(v, a, n))
  {
    var w := Cut(v, a, n);
    CutStays(v, a, n);
    CutCore(v, {End(v.tiles, a)}, a, n);
    assert TileOk(v.tiles, v.spans, a) && UnitOk(v.spans, units, list[0]);
    hide Core, AllStay;
    AlignedSum(a, n, p.align);
    AlignedSum(v.tiles[a].size, n, p.align);
    forall x | x in w.tiles ensures EdgeOk(p, w, units[list[0]], list[0], x) {
      assert EdgeOk(p, v, units[list[0]], list[0], x);
    }
  }

  lemma SettledSound(p: Params, v: View, units: map<nat, Unit>, list: seq<nat>, a: int, f: nat, fr: Frag)
    requires Sound(p, v, units, list, {a}, {}) && a in v.tiles && v.kind[a] == Hole(false) && NotPlaced(v, f)
    requires HdrStart(fr) == a && SlotSize(fr) == v.tiles[a].size && MIN_SLOT <= SlotSize(fr)
    requires !fr.followsFree && !fr.freeListBit && 0 <= fr.size && HEADER_SIZE <= fr.extra <= 255
    ensures Sound(p, Settled(v, a, f, fr), units, list, {}, {})
    ensures LiveAt(Settled(v, a, f, fr), a, f) && OthersStay(v, Settled(v, a, f, fr), f)
  {
    var w := Settled(v, a, f, fr);
    SettledCore(v, {}, a, f, fr);
    hide Core;
    forall x | x in w.tiles ensures EdgeOk(p, w, units[list[0]], list[0], x) {
      assert EdgeOk(p, v, units[list[0]], list[0], x);
    }
    forall x, g | g != f ensures Stays(v, w, x, g) {
    }
  }

  /** A fragment not yet in the cache, and the slot size computed for it. */
  predicate Request(p: Params, fr: Frag, size: int) {
    && !fr.followsFree && !fr.freeListBit && 0 <= fr.size <= 0xFFFF
    && 0 < p.align && Aligned(size, p.align) && MIN_SLOT <= size
    && fr.size + HEADER_SIZE <= size <= fr.size + 91
  }

  function Placed(fr: Frag, a: int, slot: int): Frag {
    Resized(fr.(startPc := a + HEADER_SIZE), slot)
  }

  /** A freshly placed record describes its slot; up to 127 eaten bytes still fit the one-byte field. */
  lemma PlacedFits(p: Params, fr: Frag, size: int, a: int, slot: int)
    requires ParamsOk(p) && Request(p, fr, size) && Aligned(a, p.align) && size <= slot < size + 128
    ensures var g := Placed(fr, a, slot);
            && HdrStart(g) == a && SlotSize(g) == slot && g.size == fr.size
            && HEADER_SIZE <= g.extra <= 255
  {
    AlignedByFour(a, p);
  }

  lemma AlignedByFour(a: int, p: Params)
    requires ParamsOk(p) && Aligned(a, p.align)
    ensures a % 4 == 0
  {
  }

  /** The layout after `size` bytes of the free slot `a` went to fragment `f`. */
  ghost predicate Reused(p: Params, v: View, w: View, f: nat, size: int, a: int) {
    && Suits(v, size, a) && LiveAt(w, a, f) && w.spans == v.spans
    && if v.tiles[a].size - size > p.minHole then
         && w.tiles == Split(v.tiles, a, size)
         && w.kind == v.kind[a := Live(f)][a + size := Free]
       else
         && w.tiles == v.tiles
         && w.kind == v.kind[a := Live(f)]
  }

  /** Returning the end of a cut hole, with no free slot after it, files it as it is. */
  lemma RestFiled(v: View, w: View, units: map<nat, Unit>, units': map<nat, Unit>, head: nat, u: nat, b: int)
    requires Returned(v, w, units, units', head, u, b)
    requires b in v.kind && v.kind[b] == Hole(false) && v.tiles[b].unit == u
    requires !NextIsFree(v, b) && (u == head ==> units[u].curPc != End(v.tiles, b))
    ensures w.tiles == v.tiles && w.kind == v.kind[b := Free] && w.spans == v.spans && units' == units
  {
  }

  // ---------------------------------------------------------------- growing at the end

  /** A new last slot in the current unit, still a hole; the unit's fields follow. */
  lemma GrownSound(p: Params, v: View, w: View, units: map<nat, Unit>, us: map<nat, Unit>, list: seq<nat>, h: nat,
                   size: int)
    requires Sound(p, v, units, list, {}, {}) && h == list[0] && h in units && !units[h].full
    requires 0 < size && Aligned(size, p.align) && units[h].curPc + size <= units[h].endPc
    requires h in v.spans && w == Grown(v, h, size + Eaten(p, units[h], size))
    requires us == units[h := Claimed(p, units[h], size)]
    ensures Aligned(units[h].curPc, p.align) && v.spans[h].hi == units[h].curPc && units[h].curPc !in v.tiles
    ensures Sound(p, w, us, list, {units[h].curPc}, {})
  {
    hide HeadOk, UnitsOk, Aligned;
    GrownTop(p, v, units, h, size);
    hide Core;
    GrownUnits(p, v, units, h, size);
    AlignedSum(units[h].endPc, units[h].curPc, p.align);
    GrownEdge(p, v, units, h, size);
  }

  lemma GrownTop(p: Params, v: View, units: map<nat, Unit>, h: nat, size: int)
    requires ParamsOk(p) && Core(v, {}) && UnitsOk(v.spans, units) && HeadOk(p, v, units, h)
    requires AllAligned(v.tiles, p.align) && !units[h].full
    requires 0 < size && units[h].curPc + size <= units[h].endPc
    ensures Core(Grown(v, h, size + Eaten(p, units[h], size)), {})
    ensures v.spans[h].hi == units[h].curPc && units[h].curPc !in v.tiles
    ensures Aligned(units[h].curPc, p.align) && Aligned(units[h].endPc, p.align)
    ensures forall a :: a in v.tiles && v.tiles[a].unit == h ==> End(v.tiles, a) <= units[h].curPc
  {
    assert UnitOk(v.spans, units, h);
    forall a | a in v.kind && v.kind[a].Free? && v.tiles[a].unit == h ensures End(v.tiles, a) != v.spans[h].hi {
      assert EdgeOk(p, v, units[h], h, a);
    }
    GrownCore(v, {}, h, size + Eaten(p, units[h], size));
    PageAligned(units[h].startPc, p);
    PageAligned(units[h].endPc, p);
    TopAligned(p, v.tiles, v.spans, h);
    forall a | a in v.tiles && v.tiles[a].unit == h ensures End(v.tiles, a) <= units[h].curPc {
      assert TileOk(v.tiles, v.spans, a);
    }
  }

  lemma GrownUnits(p: Params, v: View, units: map<nat, Unit>, h: nat, size: int)
    requires 0 < p.align && UnitsOk(v.spans, units) && h in units && h in v.spans && !units[h].full
    requires 0 < size && units[h].curPc + size <= units[h].endPc
    ensures UnitsOk(Grown(v, h, size + Eaten(p, units[h], size)).spans, units[h := Claimed(p, units[h], size)])
  {
    var w, us := Grown(v, h, size + Eaten(p, units[h], size)), units[h := Claimed(p, units[h], size)];
    assert UnitOk(v.spans, units, h);
    forall u | u in us ensures UnitOk(w.spans, us, u) {
      assert UnitOk(v.spans, units, u);
    }
    forall m, n | m in us && n in us && m != n ensures RangesApart(us[m], us[n]) {
      assert RangesApart(units[m], units[n]);
    }
  }

  lemma GrownEdge(p: Params, v: View, units: map<nat, Unit>, h: nat, size: int)
    requires 0 < p.align && HeadOk(p, v, units, h) && UnitsOk(v.spans, units) && !units[h].full
    requires 0 < size && units[h].curPc + size <= units[h].endPc
    requires forall a :: a in v.tiles && v.tiles[a].unit == h ==> End(v.tiles, a) <= units[h].curPc
    ensures HeadOk(p, Grown(v, h, size + Eaten(p, units[h], size)), units[h := Claimed(p, units[h], size)], h)
  {
    var w, us := Grown(v, h, size + Eaten(p, units[h], size)), units[h := Claimed(p, units[h], size)];
    assert UnitOk(v.spans, units, h);
    forall a | a in w.tiles ensures EdgeOk(p, w, us[h], h, a) {
    }
  }

  // ---------------------------------------------------------------- sealing and adding units

  /** No unit has unclaimed room; a free slot may end the current unit now. */
  ghost predicate Sealed(p: Params, v: View, units: map<nat, Unit>, list: seq<nat>) {
    && ParamsOk(p) && Core(v, {}) && NoHoles(v) && UnitsOk(v.spans, units) && ListOk(v, list)
    && AllAligned(v.tiles, p.align)
    && (forall u :: u in v.spans && u in units ==> units[u].full)
  }

  /** The rest of the current unit, all of it, as a hole in transit. */
  lemma RestGrown(p: Params, v: View, units: map<nat, Unit>, h: nat)
    requires ParamsOk(p) && Core(v, {}) && UnitsOk(v.spans, units) && HeadOk(p, v, units, h)
    requires AllAligned(v.tiles, p.align) && units[h].curPc < units[h].endPc
    ensures var left := units[h].endPc - units[h].curPc;
            && !units[h].full && UnitEndHole(p) <= left && v.spans[h].hi == units[h].curPc && units[h].curPc !in v.tiles
            && Core(Grown(v, h, left), {}) && AllAligned(Grown(v, h, left).tiles, p.align)
            && units[h].endPc !in Grown(v, h, left).tiles && Grown(v, h, left).kind.Keys == Grown(v, h, left).tiles.Keys
            && v.spans[h].limit - v.spans[h].lo <= MAX_UINT
  {
    hide Aligned, Core, UnitsOk, HeadOk;
    HeadFacts(p, v, units, h);
    var n := units[h];
    GrownTop(p, v, units, h, n.endPc - n.curPc);
    AlignedSum(n.endPc, n.curPc, p.align);
    CoreSpan(Grown(v, h, n.endPc - n.curPc), {}, h);
  }

  lemma RestSealed(p: Params, v: View, w: View, x: View, units: map<nat, Unit>, list: seq<nat>)
    requires Sound(p, v, units, list, {}, {}) && !units[list[0]].full
    requires var n := units[list[0]];
             && n.curPc !in v.tiles && v.spans[list[0]].hi == n.curPc && 0 < n.endPc - n.curPc
             && n.endPc !in w.tiles
             && w == Grown(v, list[0], n.endPc - n.curPc) && AllAligned(w.tiles, p.align)
             && Returned(w, x, units, units, list[0], list[0], n.curPc)
    requires Core(x, {})
    ensures Sealed(p, x, units[list[0] := units[list[0]].(curPc := units[list[0]].endPc, full := true)], list)
  {
    hide Core;
    var h := list[0];
    var us := units[h := units[h].(curPc := units[h].endPc, full := true)];
    UnitIn(v.spans, units, h);
    RestFiled(w, x, units, units, h, h, units[h].curPc);
    UnitChanged(v.spans, x.spans, units, h, us[h]);
  }

  /** The rest of a unit, filed as a free slot, suits no request larger than it. */
  lemma RestSuits(v: View, w: View, x: View, units: map<nat, Unit>, h: nat, left: int, size: int)
    requires h in v.spans && w == Grown(v, h, left) && v.spans[h].hi !in v.tiles && left < size && NoneSuits(v, size)
    requires h in units && units[h].curPc == v.spans[h].hi && 0 < left && v.spans[h].hi + left !in w.tiles
    requires Returned(w, x, units, units, h, h, v.spans[h].hi)
    ensures NoneSuits(x, size)
  {
    RestFiled(w, x, units, units, h, h, v.spans[h].hi);
    forall b ensures !Suits(x, size, b) {
      assert !Suits(v, size, b);
    }
  }

  lemma NewHeadSound(p: Params, v: View, units: map<nat, Unit>, list: seq<nat>, rest: seq<nat>, s: Supply, size: int)
    requires Sealed(p, v, units, list) && rest <= list && Unmapped(units, s)
    requires PAGE_SIZE <= size && Supplies(p, size, s)
    ensures Sound(p, WithUnit(v, s.id, s.startPc, s.reservedEnd), units[s.id := NewUnit(s)], [s.id] + rest, {}, {})
  {
    var w, us, l := WithUnit(v, s.id, s.startPc, s.reservedEnd), units[s.id := NewUnit(s)], [s.id] + rest;
    forall u | u in v.spans ensures Apart(v.spans[u], Span(s.startPc, s.startPc, s.reservedEnd)) {
      assert UnitOk(v.spans, units, u) && RangesApart(units[u], NewUnit(s));
    }
    WithUnitCore(v, {}, s.id, s.startPc, s.reservedEnd);
    forall a | a in w.tiles ensures EdgeOk(p, w, us[s.id], s.id, a) {
      assert TileOk(v.tiles, v.spans, a);
    }
    hide Core;
    forall u | u in us ensures UnitOk(w.spans, us, u) {
      if u != s.id { assert UnitOk(v.spans, units, u); }
    }
    forall m, n | m in us && n in us && m != n ensures RangesApart(us[m], us[n]) {
      if m in units && n in units { assert RangesApart(units[m], units[n]); }
    }
    assert forall i :: 0 < i < |l| ==> l[i] == list[i - 1];
  }

  /** Committing more of the current unit's reservation only adds room. */
  lemma CommittedSound(p: Params, v: View, units: map<nat, Unit>, list: seq<nat>, end: int)
    requires Sound(p, v, units, list, {}, {})
    requires units[list[0]].endPc + UnitEndHole(p) <= end <= units[list[0]].reservedEnd && Aligned(end, PAGE_SIZE)
    ensures Sound(p, v, units[list[0] := units[list[0]].(endPc := end, full := false)], list, {}, {})
  {
    hide Core, UnitsOk, Aligned;
    var h := list[0];
    var us := units[h := units[h].(endPc := end, full := false)];
    UnitIn(v.spans, units, h);
    UnitChanged(v.spans, v.spans, units, h, us[h]);
    forall a | a in v.tiles ensures EdgeOk(p, v, us[h], h, a) {
      assert EdgeOk(p, v, units[h], h, a);
    }
  }

  lemma CutStays(v: View, a: int, n: int)
    requires Tiled(v.tiles, v.spans) && a in v.tiles && a in v.kind && v.kind[a].Hole? && 0 < n < v.tiles[a].size
    ensures AllStay(v, Cut(v, a, n))
  {
    SplitTiled(v.tiles, v.spans, a, n);
    var w := Cut(v, a, n);
    forall x, g ensures Stays(v, w, x, g) {
    }
  }

  lemma StayReflexive(v: View)
    ensures AllStay(v, v)
  {
    forall a, g ensures Stays(v, v, a, g) {
    }
  }

  /** A current unit with less room than MIN_UNIT_END_HOLE has none at all, so sealing strands no byte. */
  lemma FullIsSealed(p: Params, v: View, units: map<nat, Unit>, list: seq<nat>)
    requires Sound(p, v, units, list, {}, {}) && list[0] in units
    requires units[list[0]].endPc - units[list[0]].curPc < UnitEndHole(p)
    ensures units[list[0]].full && units[list[0]].endPc == units[list[0]].curPc
    ensures Sealed(p, v, units, list)
  {
    hide Core;
    assert UnitOk(v.spans, units, list[0]);
  }

  lemma GrownStays(v: View, w: View, h: nat, n: int)
    requires h in v.spans && w == Grown(v, h, n) && v.spans[h].hi !in v.tiles
    ensures AllStay(v, w)
  {
    forall a, g ensures Stays(v, w, a, g) {
    }
  }

  /** Filing the whole rest of the current unit seals it. */
  lemma SealSound(p: Params, v: View, x: View, units: map<nat, Unit>, list: seq<nat>, u: nat)
    requires Sound(p, v, units, list, {}, {}) && u == list[0] && u in units && u in v.spans && !units[u].full
    requires Core(x, {}) && OnlyFlagsChange(v.frags, x.frags) && units[u].curPc < units[u].endPc
    requires Returned(Grown(v, u, units[u].endPc - units[u].curPc), x, units, units, u, u, units[u].curPc)
    ensures Sealed(p, x, units[u := units[u].(curPc := units[u].endPc, full := true)], list)
    ensures AllStay(v, x)
  {
    hide HeadOk, UnitsOk, AllAligned, Returned, AllStay, Core;
    var left := units[u].endPc - units[u].curPc;
    var w := Grown(v, u, left);
    RestGrown(p, v, units, u);
    GrownStays(v, w, u, left);
    RestSealed(p, v, w, x, units, list);
    ReturnedOthers(w, x, units, units, u, u, units[u].curPc);
    AllStayChain(v, w, x);
  }

  /** A new cache: one unit, no slots, empty buckets. */
  lemma EmptySound(p: Params, v: View, s: Supply, size: int)
    requires ParamsOk(p) && PAGE_SIZE <= size && Supplies(p, size, s)
    requires v.tiles == map[] && v.kind == map[] && v.spans == map[s.id := Span(s.startPc, s.startPc, s.reservedEnd)]
    requires v.lists == seq(BUCKETS, _ => []) && v.heads == seq(BUCKETS, _ => Null)
    ensures Sound(p, v, map[s.id := NewUnit(s)], [s.id], {}, {})
  {
    assert UnitOk(v.spans, map[s.id := NewUnit(s)], s.id);
    assert SpanOk(v.tiles, v.spans, s.id);
    forall k | 0 <= k < BUCKETS ensures Chain(v.lists[k], v.heads[k], v.mem.first, v.mem.prev) {
      assert v.lists[k] == [];
    }
  }

  // ---------------------------------------------------------------- looking up a pc

  predicate InBody(f: Frag, pc: int) {
    f.startPc <= pc < f.startPc + f.size
  }

  /** A fragment's body lies strictly inside its slot, past the header. */
  lemma BodyInSlot(v: View, ex: set<int>, a: int, f: nat, pc: int)
    requires Core(v, ex) && LiveAt(v, a, f) && InBody(v.frags[f], pc)
    ensures a < pc < End(v.tiles, a)
  {
    assert SlotOk(v, ex, a);
  }

  /** At most one fragment's body holds a given pc. */
  lemma BodiesDisjoint(v: View, ex: set<int>, a: int, f: nat, b: int, g: nat, pc: int)
    requires Core(v, ex) && LiveAt(v, a, f) && LiveAt(v, b, g)
    requires InBody(v.frags[f], pc) && InBody(v.frags[g], pc)
    ensures a == b && f == g
  {
    BodyInSlot(v, ex, a, f, pc);
    BodyInSlot(v, ex, b, g, pc);
    assert InOrder(v.tiles, a, b) && InOrder(v.tiles, b, a);
  }

  /** No fragment of unit `u` whose slot starts below `cur` holds `pc`. */
  ghost predicate ClearBelow(v: View, u: nat, cur: int, pc: int) {
    forall a, f {:trigger LiveAt(v, a, f)} :: LiveAt(v, a, f) && v.tiles[a].unit == u && a < cur ==>
      !InBody(v.frags[f], pc)
  }

  /** One step of the header walk: what the first word tells, and where the next slot starts. */
  lemma LookupStep(v: View, u: nat, cur: int, pc: int)
    requires Core(v, {}) && NoHoles(v) && AtSlot(v.tiles, v.spans, u, cur) && cur < v.spans[u].hi
    requires ClearBelow(v, u, cur, pc)
    ensures cur in v.tiles && cur in v.mem.first && AtSlot(v.tiles, v.spans, u, End(v.tiles, cur))
    ensures cur < End(v.tiles, cur)
    ensures WordIsFree(v.frags, v.mem, v.mem.first[cur]) ==>
              cur in v.mem.size && v.mem.size[cur] == v.tiles[cur].size && ClearBelow(v, u, End(v.tiles, cur), pc)
    ensures !WordIsFree(v.frags, v.mem, v.mem.first[cur]) ==>
              && v.mem.first[cur].ToFrag? && LiveAt(v, cur, v.mem.first[cur].frag)
              && SlotSize(v.frags[v.mem.first[cur].frag]) == v.tiles[cur].size
              && (!InBody(v.frags[v.mem.first[cur].frag], pc) ==> ClearBelow(v, u, End(v.tiles, cur), pc))
  {
    WalkStep(v.tiles, v.spans, u, cur);
    FirstWordTellsKind(v, {}, cur);
    assert SlotOk(v, {}, cur);
    forall a | a in v.tiles ensures a <= cur || End(v.tiles, cur) <= a {
      assert InOrder(v.tiles, cur, a);
    }
  }

  lemma LookupDone(v: View, u: nat, cur: int, pc: int)
    requires Core(v, {}) && AtSlot(v.tiles, v.spans, u, cur) && ClearBelow(v, u, cur, pc)
    requires cur == v.spans[u].hi || pc <= cur
    requires v.spans[u].lo <= pc < v.spans[u].limit
    ensures forall a, f :: LiveAt(v, a, f) ==> !InBody(v.frags[f], pc)
  {
    forall a, f | LiveAt(v, a, f) ensures !InBody(v.frags[f], pc) {
      assert TileOk(v.tiles, v.spans, a) && SpanOk(v.tiles, v.spans, v.tiles[a].unit);
      if InBody(v.frags[f], pc) {
        BodyInSlot(v, {}, a, f, pc);
        UnitOfAddress(v.spans, v.tiles, u, v.tiles[a].unit, pc);
      }
    }
  }

  // ---------------------------------------------------------------- detaching a unit

  ghost function Detached(v: View, u: nat): View {
    v.(tiles := TilesOutside(v.tiles, u), spans := v.spans - {u},
       kind := map a | a in v.kind && a in v.tiles && v.tiles[a].unit != u :: v.kind[a])
  }

  /** Once none of its slots is on a free list, a whole unit can leave the cache. */
  lemma DetachedCore(v: View, ex: set<int>, u: nat)
    requires Core(v, ex) && u in v.spans
    requires forall a :: a in v.tiles && v.tiles[a].unit == u ==> !v.kind[a].Free?
    requires forall e :: e in ex && e in v.tiles ==> v.tiles[e].unit == u
    ensures Core(Detached(v, u), {})
  {
    var w := Detached(v, u);
    DropSpanTiled(v.tiles, v.spans, u);
    forall x | x in w.tiles ensures SlotOk(w, {}, x) {
      assert SlotOk(v, ex, x);
      if Follows(v, x) {
        NextInUnit(v.tiles, v.spans, x - v.mem.foot[x - FOOTER_SIZE]);
      }
    }
    forall m, x | 0 <= m < BUCKETS ensures x in w.lists[m] <==> BelongsIn(w, m, x) {
      assert x in v.lists[m] <==> BelongsIn(v, m, x);
    }
  }

  lemma DetachedSound(p: Params, v: View, w: View, units: map<nat, Unit>, list: seq<nat>, u: nat)
    requires Sound(p, v, units, list, {}, {}) && u in v.spans && u in units && u !in list
    requires Core(w, {}) && w.tiles == TilesOutside(v.tiles, u) && w.spans == v.spans - {u}
    requires forall a :: a in w.kind ==> a in v.kind && w.kind[a] == v.kind[a]
    ensures Sound(p, w, units[u := units[u].(pendingFree := true)], list, {}, {})
  {
    hide Core;
    var us := units[u := units[u].(pendingFree := true)];
    forall n | n in us ensures UnitOk(w.spans, us, n) {
      assert UnitOk(v.spans, units, n);
    }
    forall m, n | m in us && n in us && m != n ensures RangesApart(us[m], us[n]) {
      assert RangesApart(units[m], units[n]);
    }
    forall a | a in w.tiles ensures EdgeOk(p, w, us[list[0]], list[0], a) {
      assert EdgeOk(p, v, units[list[0]], list[0], a);
    }
  }

  /** Chaining fragments through their next links does not concern the layout. */
  ghost predicate OnlyNextChanges(before: map<nat, Frag>, after: map<nat, Frag>) {
    && before.Keys == after.Keys
    && forall f :: f in before ==> after[f] == before[f].(next := after[f].next)
  }

  lemma NextChangeCore(v: View, ex: set<int>, frags: map<nat, Frag>)
    requires Core(v, ex) && OnlyNextChanges(v.frags, frags)
    ensures Core(v.(frags := frags), ex)
  {
    var w := v.(frags := frags);
    forall x | x in w.tiles ensures SlotOk(w, ex, x) {
      assert SlotOk(v, ex, x);
      if v.kind[x].Free? && End(v.tiles, x) in v.tiles { assert SlotOk(v, ex, End(v.tiles, x)); }
    }
    forall m, x | 0 <= m < BUCKETS ensures x in w.lists[m] <==> BelongsIn(w, m, x) {
      assert x in v.lists[m] <==> BelongsIn(v, m, x);
    }
  }

  /** The fragments a unit flush chains: live ones, and deleted ones still waiting on the lazy list. */
  predicate Chains(fr: Frag, f: nat, lazy: set<nat>) {
    fr.wasDeleted ==> f in lazy
  }

  ghost function FlushedIn(v: View, lazy: set<nat>, slots: seq<int>): seq<nat> {
    if slots == [] then []
    else
      var a := slots[|slots| - 1];
      FlushedIn(v, lazy, slots[..|slots| - 1]) +
      if a in v.kind && v.kind[a].Live? && v.kind[a].f in v.frags && Chains(v.frags[v.kind[a].f], v.kind[a].f, lazy)
      then [v.kind[a].f] else []
  }

  /** `q` is linked through the records' next fields, null-terminated unless `open`. */
  ghost predicate Linked(frags: map<nat, Frag>, q: seq<nat>, open: bool) {
    && (forall i :: 0 <= i < |q| ==> q[i] in frags)
    && (forall i :: 0 <= i < |q| - 1 ==> frags[q[i]].next == ToFrag(q[i + 1]))
    && (q != [] && !open ==> frags[q[|q| - 1]].next == Null)
  }

  function HeadOf(q: seq<nat>): Ptr {
    if q == [] then Null else ToFrag(q[0])
  }

  function TailOf(q: seq<nat>): Ptr {
    if q == [] then Null else ToFrag(q[|q| - 1])
  }

  /** Slots are met in address order, so the chain has no repetition. */
  ghost predicate InAddressOrder(frags: map<nat, Frag>, q: seq<nat>) {
    forall i, j :: 0 <= i < j < |q| && q[i] in frags && q[j] in frags ==> HdrStart(frags[q[i]]) < HdrStart(frags[q[j]])
  }

  /** Where a flush walk of unit `u` stands at `pc`: entries below it are off their lists. */
  ghost predicate Walking(v: View, w: View, ex: set<int>, u: nat, pc: int) {
    && w.tiles == v.tiles && w.spans == v.spans && w.mem.size == v.mem.size
    && w.kind.Keys == v.kind.Keys
    && OnlyNextChanges(v.frags, w.frags)
    && (forall a :: a in v.kind && a in v.tiles ==>
          w.kind[a] == if v.tiles[a].unit == u && a < pc && v.kind[a].Free? then Hole(false) else v.kind[a])
    && (forall e :: e in ex && e in v.tiles ==> v.tiles[e].unit == u)
  }

  /** What the flush walk has chained so far. */
  ghost predicate Chained(v: View, frags: map<nat, Frag>, lazy: set<nat>, lazy': set<nat>, done: seq<int>,
                          chain: seq<nat>, pc: int)
  {
    && chain == FlushedIn(v, lazy, done)
    && Linked(frags, chain, true) && InAddressOrder(frags, chain)
    && (forall g :: g in chain ==> HdrStart(frags[g]) < pc)
    && lazy' == lazy - Elems(chain)
    && (forall g :: g in frags && g in v.frags && g !in chain ==> frags[g] == v.frags[g])
  }

  lemma WalkingStart(v: View, u: nat)
    requires Core(v, {}) && u in v.spans
    ensures Walking(v, v, {}, u, v.spans[u].lo)
  {
    CoreSpan(v, {}, u);
  }

  lemma WalkedEnd(v: View, w: View, x: View, ex: set<int>, u: nat, pc: int)
    requires Walking(v, w, ex, u, pc) && x == w.(frags := x.frags) && OnlyNextChanges(w.frags, x.frags)
    ensures Walking(v, x, ex, u, pc)
  {
  }

  /** What the walk finds at `pc`. */
  lemma WalkingAt(v: View, w: View, ex: set<int>, u: nat, pc: int)
    requires Core(v, {}) && NoHoles(v) && Core(w, ex) && Walking(v, w, ex, u, pc)
    requires AtSlot(v.tiles, v.spans, u, pc) && pc < v.spans[u].hi
    ensures pc in v.tiles && pc in v.kind && v.tiles[pc].unit == u && pc in w.mem.first && pc < End(v.tiles, pc)
    ensures w.kind[pc] == v.kind[pc]
    ensures AtSlot(v.tiles, v.spans, u, End(v.tiles, pc))
    ensures Walk(v.tiles, v.spans, u, pc) == [pc] + Walk(v.tiles, v.spans, u, End(v.tiles, pc))
    ensures WordIsFree(w.frags, w.mem, w.mem.first[pc]) <==> v.kind[pc].Free?
    ensures v.kind[pc].Free? ==> pc in w.mem.size && w.mem.size[pc] == v.tiles[pc].size
    ensures !v.kind[pc].Free? ==>
              && w.mem.first[pc].ToFrag? && v.kind[pc] == Live(w.mem.first[pc].frag)
              && w.mem.first[pc].frag in w.frags && w.mem.first[pc].frag in v.frags
              && HdrStart(w.frags[w.mem.first[pc].frag]) == pc
              && SlotSize(w.frags[w.mem.first[pc].frag]) == v.tiles[pc].size
  {
    WalkStep(v.tiles, v.spans, u, pc);
    FirstWordTellsKind(w, ex, pc);
    assert SlotOk(w, ex, pc);
  }

  lemma WalkedFree(v: View, w: View, x: View, ex: set<int>, u: nat, pc: int)
    requires Core(v, {}) && Walking(v, w, ex, u, pc) && pc in v.tiles && v.tiles[pc].unit == u && v.kind[pc].Free?
    requires x.tiles == w.tiles && x.spans == w.spans && x.frags == w.frags && x.mem.size == w.mem.size
    requires x.kind == w.kind[pc := Hole(false)]
    ensures Walking(v, x, ex + {End(v.tiles, pc)}, u, End(v.tiles, pc))
  {
    WalkedPast(v, u, pc);
    if End(v.tiles, pc) in v.tiles { NextInUnit(v.tiles, v.spans, pc); }
  }

  lemma WalkedLive(v: View, w: View, x: View, ex: set<int>, u: nat, pc: int)
    requires Core(v, {}) && Walking(v, w, ex, u, pc) && pc in v.tiles && v.tiles[pc].unit == u && !v.kind[pc].Free?
    requires x == w.(frags := x.frags) && OnlyNextChanges(w.frags, x.frags)
    ensures Walking(v, x, ex, u, End(v.tiles, pc))
  {
    WalkedPast(v, u, pc);
  }

  /** No slot starts strictly inside the one just walked. */
  lemma WalkedPast(v: View, u: nat, pc: int)
    requires Core(v, {}) && pc in v.tiles
    ensures pc < End(v.tiles, pc) && forall a :: a in v.tiles ==> a <= pc || End(v.tiles, pc) <= a
  {
    assert TileOk(v.tiles, v.spans, pc);
    forall a | a in v.tiles ensures a <= pc || End(v.tiles, pc) <= a {
      assert InOrder(v.tiles, pc, a);
    }
  }

  lemma WalkInit(p: Params, v: View, units: map<nat, Unit>, list: seq<nat>, u: nat, lazy: set<nat>)
    requires Sound(p, v, units, list, {}, {}) && u in v.spans && u in units
    ensures Core(v, {}) && NoHoles(v) && Tiled(v.tiles, v.spans) && AtSlot(v.tiles, v.spans, u, v.spans[u].lo)
    ensures Walking(v, v, {}, u, v.spans[u].lo) && Chained(v, v.frags, lazy, lazy, [], [], v.spans[u].lo)
  {
    hide HeadOk, UnitsOk, AllAligned;
    CoreSpan(v, {}, u);
    WalkingStart(v, u);
  }

  /** The fragment about to be walked is not chained yet, so its place on the lazy list is unchanged. */
  lemma ChainsAgree(v: View, w: View, ex: set<int>, u: nat, lazy: set<nat>, lazy': set<nat>, done: seq<int>,
                    chain: seq<nat>, pc: int, f: nat)
    requires Walking(v, w, ex, u, pc) && Chained(v, w.frags, lazy, lazy', done, chain, pc)
    requires f in v.frags && f in w.frags && HdrStart(w.frags[f]) == pc
    ensures Chains(w.frags[f], f, lazy') == Chains(v.frags[f], f, lazy)
    ensures LazyOk(v.frags, lazy) && f in lazy' ==> w.frags[f].wasDeleted
    ensures Linked(w.frags, chain, true) && InAddressOrder(w.frags, chain)
  {
  }

  lemma ChainedSkip(v: View, frags: map<nat, Frag>, lazy: set<nat>, lazy': set<nat>, done: seq<int>, chain: seq<nat>,
                    pc: int, next: int)
    requires Chained(v, frags, lazy, lazy', done, chain, pc) && pc < next && pc in v.kind
    requires v.kind[pc].Live? && v.kind[pc].f in v.frags ==> !Chains(v.frags[v.kind[pc].f], v.kind[pc].f, lazy)
    ensures Chained(v, frags, lazy, lazy', done + [pc], chain, next)
  {
    assert (done + [pc])[..|done|] == done;
  }

  lemma ChainedAdd(v: View, frags: map<nat, Frag>, after: map<nat, Frag>, lazy: set<nat>, lazy': set<nat>,
                   left: set<nat>, done: seq<int>, chain: seq<nat>, pc: int, next: int, f: nat)
    requires Chained(v, frags, lazy, lazy', done, chain, pc) && pc < next && pc in v.kind
    requires v.kind[pc] == Live(f) && f in v.frags && Chains(v.frags[f], f, lazy)
    requires f in frags && HdrStart(frags[f]) == pc
    requires OnlyNextChanges(frags, after) && Linked(after, chain + [f], true)
    requires left == lazy' - {f} && (forall g :: g in frags && g !in chain ==> after[g] == frags[g])
    ensures Chained(v, after, lazy, left, done + [pc], chain + [f], next)
  {
    assert (done + [pc])[..|done|] == done;
    var q := chain + [f];
    forall i, j | 0 <= i < j < |q| && q[i] in after && q[j] in after
      ensures HdrStart(after[q[i]]) < HdrStart(after[q[j]])
    {
      assert q[i] in chain;
    }
  }

  // ---------------------------------------------------------------- flushing several units

  /** The chain a flush of unit `u` alone produces. */
  ghost function UnitChain(v: View, lazy: set<nat>, u: nat): seq<nat> {
    if Tiled(v.tiles, v.spans) && u in v.spans && AtSlot(v.tiles, v.spans, u, v.spans[u].lo)
    then FlushedIn(v, lazy, Walk(v.tiles, v.spans, u, v.spans[u].lo))
    else []
  }

  ghost function UnitChains(v: View, lazy: set<nat>, us: seq<nat>): seq<nat> {
    if us == [] then [] else UnitChains(v, lazy, us[..|us| - 1]) + UnitChain(v, lazy, us[|us| - 1])
  }

  function Elems(us: seq<nat>): set<nat> {
    set u | u in us
  }

  /** Fragment `g` has a slot in one of the units `us`. */
  ghost predicate LivesIn(v: View, us: set<nat>, g: nat) {
    exists a :: LiveAt(v, a, g) && v.tiles[a].unit in us
  }

  lemma {:induction false} FlushedMembers(v: View, lazy: set<nat>, slots: seq<int>, g: nat)
    requires g in FlushedIn(v, lazy, slots)
    ensures exists a :: a in slots && a in v.kind && v.kind[a] == Live(g) && g in v.frags
  {
    if slots != [] {
      var a := slots[|slots| - 1];
      var init := slots[..|slots| - 1];
      if g in FlushedIn(v, lazy, init) {
        FlushedMembers(v, lazy, init, g);
        var b :| b in init && b in v.kind && v.kind[b] == Live(g) && g in v.frags;
        assert b in slots;
      } else {
        assert a in slots && v.kind[a] == Live(g);
      }
    }
  }

  lemma ChainLivesIn(v: View, lazy: set<nat>, u: nat, g: nat)
    requires g in UnitChain(v, lazy, u)
    ensures LivesIn(v, {u}, g)
  {
    var w := Walk(v.tiles, v.spans, u, v.spans[u].lo);
    FlushedMembers(v, lazy, w, g);
    var a :| a in w && a in v.kind && v.kind[a] == Live(g) && g in v.frags;
    assert LiveAt(v, a, g);
  }

  /** A fragment has one slot, hence one unit. */
  lemma LivesInOne(v: View, ex: set<int>, us: set<nat>, ws: set<nat>, g: nat)
    requires Core(v, ex) && LivesIn(v, us, g) && LivesIn(v, ws, g)
    ensures us * ws != {}
  {
    var a :| LiveAt(v, a, g) && v.tiles[a].unit in us;
    var b :| LiveAt(v, b, g) && v.tiles[b].unit in ws;
    LiveOnce(v, ex, a);
    assert v.tiles[a].unit in us * ws;
  }

  /** The state of a flush after the units `gone` have left: the others are as they were. */
  ghost predicate FlushedSo(v: View, w: View, lazy: set<nat>, lazy': set<nat>, gone: set<nat>) {
    && w.spans == v.spans - gone
    && (forall a :: a in w.tiles <==> a in v.tiles && v.tiles[a].unit !in gone)
    && (forall a :: a in w.tiles && a in v.tiles ==> w.tiles[a] == v.tiles[a])
    && (forall a :: a in w.tiles && a in v.tiles && a in v.kind && a in w.kind ==> w.kind[a] == v.kind[a])
    && OnlyNextChanges(v.frags, w.frags)
    && (forall g :: g in v.frags && !LivesIn(v, gone, g) ==> w.frags[g] == v.frags[g] && (g in lazy' <==> g in lazy))
  }

  lemma {:induction false} WalkFrame(v: View, w: View, u: nat, pc: int)
    requires Tiled(v.tiles, v.spans) && Tiled(w.tiles, w.spans) && u in w.spans && u in v.spans
    requires w.spans[u] == v.spans[u]
    requires forall a :: a in v.tiles && v.tiles[a].unit == u ==> a in w.tiles && w.tiles[a] == v.tiles[a]
    requires AtSlot(v.tiles, v.spans, u, pc)
    ensures AtSlot(w.tiles, w.spans, u, pc)
    ensures Walk(w.tiles, w.spans, u, pc) == Walk(v.tiles, v.spans, u, pc)
    decreases v.spans[u].hi - pc
  {
    if pc < v.spans[u].hi {
      WalkStep(v.tiles, v.spans, u, pc);
      WalkStep(w.tiles, w.spans, u, pc);
      WalkFrame(v, w, u, End(v.tiles, pc));
    }
  }

  lemma {:induction false} FlushedFrame(v: View, w: View, lazy: set<nat>, lazy': set<nat>, slots: seq<int>)
    requires forall a :: a in slots ==> a in v.kind && a in w.kind && w.kind[a] == v.kind[a]
    requires forall a :: a in slots && a in v.kind && v.kind[a].Live? ==>
               var f := v.kind[a].f;
               f in v.frags && f in w.frags && w.frags[f] == v.frags[f] && (f in lazy' <==> f in lazy)
    ensures FlushedIn(w, lazy', slots) == FlushedIn(v, lazy, slots)
  {
    if slots != [] {
      assert slots[|slots| - 1] in slots;
      FlushedFrame(v, w, lazy, lazy', slots[..|slots| - 1]);
    }
  }

  /** Flushing other units first does not change what a unit's own flush chains. */
  lemma UnitChainFrame(v: View, w: View, lazy: set<nat>, lazy': set<nat>, gone: set<nat>, u: nat)
    requires Core(v, {}) && Core(w, {}) && FlushedSo(v, w, lazy, lazy', gone) && u in v.spans && u !in gone
    ensures UnitChain(w, lazy', u) == UnitChain(v, lazy, u)
  {
    CoreSpan(v, {}, u);
    CoreSpan(w, {}, u);
    var lo := v.spans[u].lo;
    WalkFrame(v, w, u, lo);
    var slots := Walk(v.tiles, v.spans, u, lo);
    forall a | a in slots && v.kind[a].Live? ensures v.kind[a].f in v.frags && !LivesIn(v, gone, v.kind[a].f) {
      var f := v.kind[a].f;
      assert SlotOk(v, {}, a) && LiveAt(v, a, f);
      if LivesIn(v, gone, f) {
        assert LivesIn(v, {u}, f);
        LivesInOne(v, {}, gone, {u}, f);
      }
    }
    FlushedFrame(v, w, lazy, lazy', slots);
  }

  /** A walked unit leaves the cache; nothing outside it is touched. */
  lemma DetachAfterWalk(p: Params, v: View, w: View, ex: set<int>, units: map<nat, Unit>, list: seq<nat>, u: nat,
                        pc: int)
    requires Sound(p, v, units, list, {}, {}) && u in v.spans && u in units && u !in list
    requires Core(w, ex) && Walking(v, w, ex, u, pc) && pc == v.spans[u].hi
    ensures Sound(p, Detached(w, u), units[u := units[u].(pendingFree := true)], list, {}, {})
  {
    hide UnitsOk, HeadOk, AllAligned;
    forall a | a in w.tiles && w.tiles[a].unit == u ensures !w.kind[a].Free? {
      assert TileOk(v.tiles, v.spans, a) && SlotOk(v, {}, a);
    }
    DetachedCore(w, ex, u);
    DetachedSound(p, v, Detached(w, u), units, list, u);
  }

  lemma FlushedOne(v: View, w: View, ex: set<int>, lazy: set<nat>, lazy': set<nat>, u: nat, pc: int, chain: seq<nat>)
    requires Core(v, {}) && Walking(v, w, ex, u, pc)
    requires chain == UnitChain(v, lazy, u)
    requires lazy' == lazy - Elems(chain)
    requires forall g :: g in w.frags && g in v.frags && g !in chain ==> w.frags[g] == v.frags[g]
    ensures FlushedSo(v, Detached(w, u), lazy, lazy', {u})
  {
    forall g | g in v.frags && !LivesIn(v, {u}, g) ensures g !in chain {
      if g in chain { ChainLivesIn(v, lazy, u, g); }
    }
  }

  lemma FlushedLazy(v: View, w: View, lazy: set<nat>, lazy': set<nat>, gone: set<nat>)
    requires FlushedSo(v, w, lazy, lazy', gone) && LazyOk(v.frags, lazy) && lazy' <= lazy
    ensures LazyOk(w.frags, lazy')
  {
  }

  lemma NextLazy(before: map<nat, Frag>, after: map<nat, Frag>, lazy: set<nat>)
    requires OnlyNextChanges(before, after) && LazyOk(before, lazy)
    ensures LazyOk(after, lazy)
  {
  }

  /** Flushing one more unit after the units `gone`. */
  lemma FlushedMore(v: View, w: View, x: View, lazy: set<nat>, lazy1: set<nat>, lazy2: set<nat>, gone: set<nat>, u: nat)
    requires Core(v, {}) && Core(w, {}) && u !in gone
    requires FlushedSo(v, w, lazy, lazy1, gone) && FlushedSo(w, x, lazy1, lazy2, {u})
    requires v.kind.Keys == v.tiles.Keys && w.kind.Keys == w.tiles.Keys
    ensures FlushedSo(v, x, lazy, lazy2, gone + {u})
  {
    assert v.spans - gone - {u} == v.spans - (gone + {u});
    forall g | g in v.frags && !LivesIn(v, gone + {u}, g)
      ensures x.frags[g] == v.frags[g] && (g in lazy2 <==> g in lazy)
    {
      if LivesIn(v, gone, g) { LivesInMore(v, gone, gone + {u}, g); }
      if LivesIn(w, {u}, g) { LivedBefore(v, w, lazy, lazy1, gone, u, g); }
    }
  }

  lemma LivesInMore(v: View, us: set<nat>, ws: set<nat>, g: nat)
    requires LivesIn(v, us, g) && us <= ws
    ensures LivesIn(v, ws, g)
  {
    var a :| LiveAt(v, a, g) && v.tiles[a].unit in us;
    assert LiveAt(v, a, g) && v.tiles[a].unit in ws;
  }

  lemma LivedBefore(v: View, w: View, lazy: set<nat>, lazy': set<nat>, gone: set<nat>, u: nat, g: nat)
    requires FlushedSo(v, w, lazy, lazy', gone) && v.kind.Keys == v.tiles.Keys && LivesIn(w, {u}, g)
    ensures LivesIn(v, gone + {u}, g)
  {
    var a :| LiveAt(w, a, g) && w.tiles[a].unit in {u};
    assert LiveAt(v, a, g) && v.tiles[a].unit in gone + {u};
  }

  lemma FlushedNone(v: View, lazy: set<nat>)
    ensures FlushedSo(v, v, lazy, lazy, {})
  {
  }

  /** Two finished chains over different fragments join into one when the first tail is relinked. */
  lemma JoinChains(frags: map<nat, Frag>, after: map<nat, Frag>, q: seq<nat>, r: seq<nat>)
    requires Linked(frags, q, false) && Linked(frags, r, false) && r != []
    requires forall g :: g in q ==> g !in r
    requires forall i, j :: 0 <= i < j < |q| ==> q[i] != q[j]
    requires after == if q == [] then frags else frags[q[|q| - 1] := frags[q[|q| - 1]].(next := ToFrag(r[0]))]
    ensures Linked(after, q + r, false)
  {
    assert forall i :: 0 <= i < |r| ==> r[i] in r;
    assert forall i :: 0 <= i < |q| ==> q[i] in q;
  }

  lemma NextChangeSound(p: Params, v: View, units: map<nat, Unit>, list: seq<nat>, frags: map<nat, Frag>)
    requires Sound(p, v, units, list, {}, {}) && OnlyNextChanges(v.frags, frags)
    ensures Sound(p, v.(frags := frags), units, list, {}, {})
  {
    var w := v.(frags := frags);
    NextChangeCore(v, {}, frags);
    hide Core;
    forall a | a in w.tiles ensures EdgeOk(p, w, units[list[0]], list[0], a) {
      assert EdgeOk(p, v, units[list[0]], list[0], a);
    }
  }

  /** A chain over several flushed units: finished, without repetition, of fragments of those units. */
  ghost predicate FlushChain(v: View, frags: map<nat, Frag>, gone: set<nat>, chain: seq<nat>) {
    && Linked(frags, chain, false)
    && (forall i, j :: 0 <= i < j < |chain| ==> chain[i] != chain[j])
    && (forall g :: g in chain ==> LivesIn(v, gone, g))
  }

  /** One more unit's flush leaves the chain of the earlier units intact and disjoint from its own. */
  lemma FlushChainKept(v: View, w: View, x: View, lazy: set<nat>, lazy1: set<nat>, lazy2: set<nat>, gone: set<nat>,
                       u: nat, chain: seq<nat>, more: seq<nat>)
    requires Core(v, {}) && Core(w, {}) && u !in gone && u in v.spans
    requires FlushedSo(v, w, lazy, lazy1, gone) && FlushedSo(w, x, lazy1, lazy2, {u})
    requires FlushChain(v, w.frags, gone, chain) && more == UnitChain(v, lazy, u)
    ensures FlushChain(v, x.frags, gone, chain) && forall g :: g in chain ==> g !in more
  {
    forall g | g in chain ensures g !in more && g in w.frags && x.frags[g] == w.frags[g] {
      assert g in w.frags;
      if g in more {
        ChainLivesIn(v, lazy, u, g);
        LivesInOne(v, {}, gone, {u}, g);
      }
      if LivesIn(w, {u}, g) { LivesOnlyThere(v, w, lazy, lazy1, gone, u, g); }
    }
    assert forall i :: 0 <= i < |chain| ==> chain[i] in chain;
  }

  lemma LivesOnlyThere(v: View, w: View, lazy: set<nat>, lazy': set<nat>, gone: set<nat>, u: nat, g: nat)
    requires Core(v, {}) && FlushedSo(v, w, lazy, lazy', gone) && LivesIn(v, gone, g)
    ensures !LivesIn(w, {u}, g)
  {
    forall a | LiveAt(w, a, g) ensures w.tiles[a].unit !in {u} {
      assert a in v.tiles;
      assert LiveAt(v, a, g);
      LiveOnce(v, {}, a);
    }
  }

  /** The joined chain, after the tail of the first part has been relinked. */
  lemma FlushChainJoined(v: View, before: map<nat, Frag>, after: map<nat, Frag>, lazy: set<nat>, gone: set<nat>, u: nat,
                         chain: seq<nat>, more: seq<nat>)
    requires FlushChain(v, before, gone, chain) && more == UnitChain(v, lazy, u) && InAddressOrder(before, more)
    requires Linked(before, more, false)
    requires forall g :: g in chain ==> g !in more
    requires Linked(after, chain + more, false)
    ensures FlushChain(v, after, gone + {u}, chain + more)
  {
    var q := chain + more;
    forall g | g in q ensures LivesIn(v, gone + {u}, g) {
      if g in chain {
        LivesInMore(v, gone, gone + {u}, g);
      } else {
        ChainLivesIn(v, lazy, u, g);
        LivesInMore(v, {u}, gone + {u}, g);
      }
    }
    forall i, j | 0 <= i < j < |q| ensures q[i] != q[j] {
      assert i < |chain| ==> q[i] in chain;
      assert j >= |chain| ==> q[j] in more;
    }
  }

  lemma RelinkedSo(v: View, w: View, frags: map<nat, Frag>, lazy: set<nat>, lazy': set<nat>, gone: set<nat>,
                   chain: seq<nat>)
    requires FlushedSo(v, w, lazy, lazy', gone) && OnlyNextChanges(w.frags, frags)
    requires forall g :: g in chain ==> LivesIn(v, gone, g)
    requires forall g :: g in frags && g !in chain ==> frags[g] == w.frags[g]
    ensures FlushedSo(v, w.(frags := frags), lazy, lazy', gone)
  {
  }

  lemma CoreKeys(v: View, ex: set<int>)
    requires Core(v, ex)
    ensures v.kind.Keys == v.tiles.Keys
  {
  }

  lemma ChainMore(v: View, gone: set<nat>, u: nat, chain: seq<nat>)
    requires forall g :: g in chain ==> LivesIn(v, gone, g)
    ensures forall g :: g in chain ==> LivesIn(v, gone + {u}, g)
  {
    forall g | g in chain ensures LivesIn(v, gone + {u}, g) {
      LivesInMore(v, gone, gone + {u}, g);
    }
  }

  lemma EmptyChain(v: View, frags: map<nat, Frag>)
    ensures FlushChain(v, frags, {}, [])
  {
  }

  lemma SpansLeft(v: View, w: View, lazy: set<nat>, lazy': set<nat>, gone: set<nat>)
    requires FlushedSo(v, w, lazy, lazy', gone)
    ensures w.spans == v.spans - gone
  {
  }

  lemma ReturnedLives(v: View, w: View, units: map<nat, Unit>, units': map<nat, Unit>, head: nat, u: nat, start: int)
    requires Returned(v, w, units, units', head, u, start)
    ensures SameLives(units, units')
  {
  }

  lemma CommitLives(units: map<nat, Unit>, units': map<nat, Unit>, u: nat)
    requires u in units && exists end :: units' == units[u := units[u].(endPc := end, full := false)]
    ensures SameLives(units, units')
  {
  }

  lemma ClaimedLives(p: Params, units: map<nat, Unit>, units': map<nat, Unit>, u: nat, size: int)
    requires u in units && units' == units[u := Claimed(p, units[u], size)]
    ensures SameLives(units, units')
  {
  }

  /** The units on a cache's list are mapped and not being freed. */
  lemma ListLives(p: Params, v: View, units: map<nat, Unit>, list: seq<nat>)
    requires Sound(p, v, units, list, {}, {})
    ensures forall u :: u in list ==> u in units && !units[u].pendingFree
    ensures forall i, j :: 0 <= i < j < |list| ==> list[i] != list[j]
  {
    forall u | u in list ensures u in units && !units[u].pendingFree {
      var i :| 0 <= i < |list| && list[i] == u;
      assert UnitOk(v.spans, units, u);
    }
  }

  lemma AwaitingSpans(p: Params, v: View, units: map<nat, Unit>, list: seq<nat>, toFlush: seq<nat>)
    requires Sound(p, v, units, list, {}, {}) && Awaiting(units, list, toFlush)
    ensures forall i :: 0 <= i < |toFlush| ==> toFlush[i] in v.spans && toFlush[i] in units && toFlush[i] !in list
  {
    forall i | 0 <= i < |toFlush| ensures toFlush[i] in v.spans && toFlush[i] in units && toFlush[i] !in list {
      assert toFlush[i] in toFlush && UnitOk(v.spans, units, toFlush[i]);
    }
  }

  /** The unit of a live fragment is not being freed, and its range holds the fragment. */
  lemma LiveUnit(p: Params, v: View, units: map<nat, Unit>, list: seq<nat>, a: int, f: nat)
    requires Sound(p, v, units, list, {}, {}) && LiveAt(v, a, f)
    ensures a in v.tiles && f in v.frags
    ensures var u := v.tiles[a].unit;
            u in units && !units[u].pendingFree && units[u].startPc <= v.frags[f].startPc < units[u].reservedEnd
  {
    LiveFacts(v, {}, a, f);
    assert TileOk(v.tiles, v.spans, a) && UnitOk(v.spans, units, v.tiles[a].unit);
  }
}
