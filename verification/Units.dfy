/**
 Units and the parameters that size slots, units and holes.
 */
module Units {
  import opened Layout

  const MAX_UINT: int := 0xFFFF_FFFF
  const PAGE_SIZE: int := 4096
  const MAX_SINGLE_MULTIPLE: int := 2

  /** A mapped piece of cache: slots fill [startPc, curPc), [startPc, endPc) is committed. */
  datatype Unit = Unit(startPc: int, curPc: int, endPc: int, reservedEnd: int,
                       full: bool, pendingFree: bool)

  /** `minHole` is MIN_EMPTY_HOLE: the smallest leftover worth keeping as a slot of its own. */
  datatype Params = Params(align: int, minHole: int, commit: int, maxUnit: int)

  predicate ParamsOk(p: Params) {
    && p.align in {4, 8, 16, 32, 64}
    && MIN_SLOT <= p.minHole <= 64
    && PAGE_SIZE <= p.commit && Aligned(p.commit, PAGE_SIZE)
    && PAGE_SIZE <= p.maxUnit <= MAX_UINT && Aligned(p.maxUnit, PAGE_SIZE)
  }

  lemma PageAligned(x: int, p: Params)
    requires ParamsOk(p) && Aligned(x, PAGE_SIZE)
    ensures Aligned(x, p.align)
  {
  }

  /** The slot requested for a fragment of `size` bytes. */
  function SlotFor(p: Params, size: int): (slot: int)
    requires ParamsOk(p) && 0 <= size
    ensures Aligned(slot, p.align) && MIN_SLOT <= slot
    ensures size + HEADER_SIZE <= slot <= size + 91
    ensures forall x :: Aligned(x, p.align) && MIN_SLOT <= x && size + HEADER_SIZE <= x ==> slot <= x
  {
    var least := if size + HEADER_SIZE < MIN_SLOT then MIN_SLOT else size + HEADER_SIZE;
    assert forall x :: Aligned(x, p.align) && least <= x ==> AlignForward(least, p.align) <= x by {
      forall x | Aligned(x, p.align) && least <= x ensures AlignForward(least, p.align) <= x {
        AlignedWithin(least, x, p.align);
      }
    }
    AlignForward(least, p.align)
  }

  /** MIN_UNIT_END_HOLE: a unit with less room than this left is full. */
  function UnitEndHole(p: Params): int {
    2 * p.minHole
  }

  /** How `space` unused bytes at the end of a fragment split into padding and bytes to return. */
  datatype Excess = Excess(returnable: int, slotPadding: int, minPadding: int)

  /** For a slot at `hdr` of `slot` bytes, `extra` of them beyond the fragment. */
  function ExcessAt(p: Params, hdr: int, slot: int, extra: int, space: int): (e: Excess)
    requires ParamsOk(p) && Aligned(hdr, p.align) && Aligned(slot, p.align) && MIN_SLOT <= slot
    requires 0 <= space && HEADER_SIZE <= extra && space + extra <= slot
    ensures 0 <= e.returnable && MIN_SLOT <= slot - e.returnable
    ensures Aligned(e.returnable, p.align) && Aligned(slot - e.returnable, p.align)
    ensures Aligned(hdr + slot - e.returnable, p.align)
    ensures extra + space == e.slotPadding + HEADER_SIZE + e.returnable + e.minPadding
    ensures 0 <= e.slotPadding < p.align && 0 <= e.minPadding <= MIN_SLOT - HEADER_SIZE
    ensures forall r :: Aligned(r, p.align) && MIN_SLOT <= slot - r && r <= extra + space - HEADER_SIZE ==>
                          r <= e.returnable
  {
    var wanted := space + extra - HEADER_SIZE;
    var minPadding := if slot - wanted < MIN_SLOT then wanted - (slot - MIN_SLOT) else 0;
    var returnable := wanted - minPadding;
    var end := hdr + slot - returnable;
    var slotPadding := AlignForward(end, p.align) - end;
    AlignedSum(hdr, slot, p.align);
    AlignedWithin(end, hdr + slot, p.align);
    AlignedSum(hdr + slot, AlignForward(end, p.align), p.align);
    AlignedSum(slot, returnable - slotPadding, p.align);
    assert forall r :: Aligned(r, p.align) && MIN_SLOT <= slot - r && r <= wanted ==> r <= returnable - slotPadding by {
      forall r | Aligned(r, p.align) && MIN_SLOT <= slot - r && r <= wanted ensures r <= returnable - slotPadding {
        AlignedSum(hdr + slot, r, p.align);
        AlignedWithin(end, hdr + slot - r, p.align);
      }
    }
    Excess(returnable - slotPadding, slotPadding, minPadding)
  }

  /** Rounding up never passes an aligned bound. */
  lemma AlignedWithin(x: int, bound: int, k: int)
    requires 0 < k && x <= bound && Aligned(bound, k)
    ensures AlignForward(x, k) <= bound
  {
    var r := AlignForward(x, k);
    AlignedSum(r, bound, k);
    MulAtLeast((r - bound) / k, k);
  }

  ghost predicate UnitOk(spans: Spans, units: map<nat, Unit>, u: nat) {
    && u in units
    && var n := units[u];
    && 0 < n.startPc <= n.curPc <= n.endPc <= n.reservedEnd <= n.startPc + MAX_UINT
    && Aligned(n.startPc, PAGE_SIZE) && Aligned(n.endPc, PAGE_SIZE) && Aligned(n.reservedEnd, PAGE_SIZE)
    && (n.full ==> n.curPc == n.endPc)
    && (u in spans <==> !n.pendingFree)
    && (u in spans ==> spans[u] == Span(n.startPc, n.curPc, n.reservedEnd))
  }

  predicate RangesApart(m: Unit, n: Unit) {
    m.reservedEnd < n.startPc || n.reservedEnd < m.startPc
  }

  ghost predicate UnitsOk(spans: Spans, units: map<nat, Unit>) {
    && spans.Keys <= units.Keys
    && (forall u {:trigger UnitOk(spans, units, u)} :: u in units ==> UnitOk(spans, units, u))
    && (forall m, n :: m in units && n in units && m != n ==> RangesApart(units[m], units[n]))
  }

  lemma UnitIn(spans: Spans, units: map<nat, Unit>, u: nat)
    requires UnitsOk(spans, units) && u in units
    ensures UnitOk(spans, units, u)
  {
  }

  /** One unit changes within its reservation. */
  lemma UnitChanged(spans: Spans, spans': Spans, units: map<nat, Unit>, u: nat, n: Unit)
    requires UnitsOk(spans, units) && u in units
    requires n.startPc == units[u].startPc && n.reservedEnd == units[u].reservedEnd
    requires UnitOk(spans', units[u := n], u)
    requires forall x :: x != u ==> (x in spans' <==> x in spans)
    requires forall x :: x != u && x in spans' && x in spans ==> spans'[x] == spans[x]
    ensures UnitsOk(spans', units[u := n])
  {
    hide Aligned;
    var us := units[u := n];
    forall x | x in us ensures UnitOk(spans', us, x) {
      assert UnitOk(spans, units, x);
    }
    forall x, y | x in us && y in us && x != y ensures RangesApart(us[x], us[y]) {
      assert RangesApart(units[x], units[y]);
    }
  }

  /** What extend_unit_end does to a unit when it claims `size` bytes and must not file the rest. */
  function Claimed(p: Params, n: Unit, size: int): Unit {
    if n.endPc - (n.curPc + size) < UnitEndHole(p) then n.(curPc := n.endPc, full := true)
    else n.(curPc := n.curPc + size)
  }

  /** Bytes too few to be worth keeping, added to the last slot. */
  function Eaten(p: Params, n: Unit, size: int): int {
    if n.endPc - (n.curPc + size) < UnitEndHole(p) then n.endPc - (n.curPc + size) else 0
  }

  /** What the system hands out for a request of `size` bytes: a fresh mapping or a large enough dead unit. */
  datatype Supply = Supply(id: nat, startPc: int, endPc: int, reservedEnd: int)

  predicate Supplies(p: Params, size: int, s: Supply) {
    && 0 < s.startPc && Aligned(s.startPc, PAGE_SIZE)
    && Aligned(s.endPc, PAGE_SIZE) && Aligned(s.reservedEnd, PAGE_SIZE)
    && s.startPc <= s.endPc <= s.reservedEnd <= s.startPc + MAX_UINT
    && (|| (s.reservedEnd == s.startPc + size && s.endPc == s.startPc + (if p.commit > size then size else p.commit))
        || s.startPc + size <= s.endPc)
  }

  function NewUnit(s: Supply): Unit {
    Unit(s.startPc, s.startPc, s.endPc, s.reservedEnd, false, false)
  }

  /** The reservation for a new unit: the least that is of full size and at least twice the slot that does not fit. */
  function NewSize(p: Params, slot: int): (n: int)
    requires ParamsOk(p) && 0 <= slot <= 0x1_0000 + 91
    ensures PAGE_SIZE <= n <= MAX_UINT && MAX_SINGLE_MULTIPLE * slot <= n && p.maxUnit <= n && Aligned(n, PAGE_SIZE)
    ensures forall x :: Aligned(x, PAGE_SIZE) && MAX_SINGLE_MULTIPLE * slot <= x && p.maxUnit <= x ==> n <= x
  {
    assert forall x :: Aligned(x, PAGE_SIZE) && MAX_SINGLE_MULTIPLE * slot <= x ==>
                         AlignForward(slot * MAX_SINGLE_MULTIPLE, PAGE_SIZE) <= x by {
      forall x | Aligned(x, PAGE_SIZE) && MAX_SINGLE_MULTIPLE * slot <= x
        ensures AlignForward(slot * MAX_SINGLE_MULTIPLE, PAGE_SIZE) <= x
      {
        AlignedWithin(slot * MAX_SINGLE_MULTIPLE, x, PAGE_SIZE);
      }
    }
    if p.maxUnit < slot * MAX_SINGLE_MULTIPLE then AlignForward(slot * MAX_SINGLE_MULTIPLE, PAGE_SIZE) else p.maxUnit
  }

  ghost predicate Unmapped(units: map<nat, Unit>, s: Supply) {
    s.id !in units && forall u :: u in units ==> RangesApart(units[u], NewUnit(s))
  }

  /** The units that wait to be flushed: each once, still holding fragments, and on no list any more. */
  ghost predicate Awaiting(units: map<nat, Unit>, list: seq<nat>, toFlush: seq<nat>) {
    && (forall i, j :: 0 <= i < j < |toFlush| ==> toFlush[i] != toFlush[j])
    && forall u :: u in toFlush ==> u in units && !units[u].pendingFree && u !in list
  }

  /** No unit comes, goes, or starts being freed. */
  ghost predicate SameLives(units: map<nat, Unit>, units': map<nat, Unit>) {
    && units'.Keys == units.Keys
    && forall u :: u in units ==> units'[u].pendingFree == units[u].pendingFree
  }

  /** A new unit `id` is in front of the list and, if `retire`, the oldest one was handed over to be flushed. */
  ghost predicate NewInFront(list: seq<nat>, toFlush: seq<nat>, list': seq<nat>, toFlush': seq<nat>, id: nat,
                             retire: bool)
  {
    && list != []
    && list' == [id] + (if retire then list[..|list| - 1] else list)
    && toFlush' == (if retire then [list[|list| - 1]] else []) + toFlush
  }

  lemma FrontIs(list: seq<nat>, toFlush: seq<nat>, list': seq<nat>, toFlush': seq<nat>, id: nat, retire: bool)
    requires NewInFront(list, toFlush, list', toFlush', id, retire)
    ensures list' != [] && list'[0] == id
  {
  }

  lemma NoneAwaiting(units: map<nat, Unit>, list: seq<nat>)
    ensures Awaiting(units, list, [])
  {
  }

  lemma StillAwaiting(units: map<nat, Unit>, units': map<nat, Unit>, list: seq<nat>, toFlush: seq<nat>)
    requires Awaiting(units, list, toFlush) && SameLives(units, units')
    ensures Awaiting(units', list, toFlush)
  {
  }

  lemma NewInFrontAwaiting(units: map<nat, Unit>, units': map<nat, Unit>, list: seq<nat>, toFlush: seq<nat>,
                           list': seq<nat>, toFlush': seq<nat>, id: nat, retire: bool)
    requires Awaiting(units, list, toFlush) && NewInFront(list, toFlush, list', toFlush', id, retire)
    requires (forall u :: u in list ==> u in units && !units[u].pendingFree) && id !in units
    requires forall i, j :: 0 <= i < j < |list| ==> list[i] != list[j]
    requires forall u :: u in units ==> u in units' && units'[u].pendingFree == units[u].pendingFree
    ensures Awaiting(units', list', toFlush')
  {
    var last := list[|list| - 1];
    assert last in list;
    assert forall u :: u in list[..|list| - 1] ==> u in list && u != last;
    forall u | u in toFlush' ensures u in units' && !units'[u].pendingFree && u !in list' {
    }
    forall i, j | 0 <= i < j < |toFlush'| ensures toFlush'[i] != toFlush'[j] {
      if retire && i == 0 { assert toFlush'[j] == toFlush[j - 1] && toFlush[j - 1] in toFlush; }
    }
  }

  /** The same mappings, committed as far as before. */
  ghost predicate SameExtent(units: map<nat, Unit>, units': map<nat, Unit>) {
    && units'.Keys == units.Keys
    && forall u :: u in units ==> units'[u].endPc == units[u].endPc && units'[u].reservedEnd == units[u].reservedEnd
  }

  /** Claiming or committing more of a mapped unit does not use up other addresses. */
  lemma StillUnmapped(units: map<nat, Unit>, units': map<nat, Unit>, u: nat, s: Supply)
    requires Unmapped(units, s) && u in units && u in units' && units'.Keys == units.Keys
    requires forall n :: n in units && n != u ==> units'[n] == units[n]
    requires units'[u].startPc == units[u].startPc && units'[u].reservedEnd == units[u].reservedEnd
    ensures Unmapped(units', s)
  {
    forall n | n in units' ensures RangesApart(units'[n], NewUnit(s)) {
      assert RangesApart(units[n], NewUnit(s));
    }
  }

  /** The least doubling of the commit increment that covers `need`. */
  method CommitSize(p: Params, need: int) returns (commit: int)
    requires ParamsOk(p)
    ensures need <= commit && PAGE_SIZE <= commit && Aligned(commit, PAGE_SIZE)
    ensures if need <= p.commit then commit == p.commit else p.commit < commit < 2 * need
  {
    commit := p.commit;
    while need > commit
      invariant PAGE_SIZE <= commit && Aligned(commit, PAGE_SIZE)
      invariant commit == p.commit || (commit < 2 * need && p.commit < commit && p.commit < need)
      decreases need - commit
    {
      AlignedSum(commit, commit, PAGE_SIZE);
      commit := commit * 2;
    }
  }

  /** The unit's commitment extends to `end`: by the increment, doubled while too small, or by all that is left. */
  ghost predicate Commits(p: Params, n: Unit, need: int, end: int) {
    && end <= n.reservedEnd && (end < n.reservedEnd ==> need <= end - n.endPc && p.commit <= end - n.endPc)
    && if need <= p.commit then end - n.endPc <= p.commit else end - n.endPc < 2 * need
  }

  /** The end of a unit's slots is aligned because its start and its slots are. */
  lemma TopAligned(p: Params, tiles: Tiles, spans: Spans, u: nat)
    requires ParamsOk(p) && Tiled(tiles, spans) && AllAligned(tiles, p.align)
    requires u in spans && Aligned(spans[u].lo, p.align)
    ensures Aligned(spans[u].hi, p.align)
  {
    assert SpanOk(tiles, spans, u);
    WalkAligned(p, tiles, spans, u, spans[u].lo);
  }

  lemma {:induction false} WalkAligned(p: Params, tiles: Tiles, spans: Spans, u: nat, pc: int)
    requires ParamsOk(p) && Tiled(tiles, spans) && AllAligned(tiles, p.align)
    requires AtSlot(tiles, spans, u, pc) && Aligned(pc, p.align)
    ensures Aligned(spans[u].hi, p.align)
    decreases spans[u].hi - pc
  {
    if pc < spans[u].hi {
      WalkStep(tiles, spans, u, pc);
      AlignedSum(pc, tiles[pc].size, p.align);
      WalkAligned(p, tiles, spans, u, End(tiles, pc));
    }
  }
}
