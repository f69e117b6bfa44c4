/**
 The physical layout that both cache disciplines share.

 A unit owns the address range [lo, limit) and its claimed part [lo, hi) is a contiguous
 run of slots.  A slot is named by the address of its header word.  The layout is a map from
 those addresses, so splitting, merging, appending and dropping slots are local updates.
 */
module Layout {

  /** The header word that precedes every fragment body (64-bit). */
  const HEADER_SIZE: int := 8

  /** An in-cache free-list header is 24 bytes and its footer 4, so no slot is smaller. */
  const MIN_SLOT: int := 28

  datatype Tile = Tile(size: int, unit: nat)

  /** `lo` is a unit's start_pc, `hi` the address its slots reach, `limit` its reserved_end_pc. */
  datatype Span = Span(lo: int, hi: int, limit: int)

  type Tiles = map<int, Tile>
  type Spans = map<nat, Span>

  function End(tiles: Tiles, a: int): int
    requires a in tiles
  {
    a + tiles[a].size
  }

  /** The slot at `a` lies in its unit and is followed by another slot or by the unit's end. */
  ghost predicate TileOk(tiles: Tiles, spans: Spans, a: int) {
    && a in tiles
    && tiles[a].unit in spans
    && 0 < tiles[a].size
    && var s := spans[tiles[a].unit];
    && s.lo <= a
    && End(tiles, a) <= s.hi
    && (End(tiles, a) == s.hi || (End(tiles, a) in tiles && tiles[End(tiles, a)].unit == tiles[a].unit))
  }

  ghost predicate SpanOk(tiles: Tiles, spans: Spans, u: nat) {
    && u in spans
    && var s := spans[u];
    && 0 < s.lo <= s.hi <= s.limit
    && (s.lo == s.hi || (s.lo in tiles && tiles[s.lo].unit == u))
  }

  /** Reservations never touch: the allocator leaves at least a byte between two units. */
  predicate Apart(s: Span, t: Span) {
    s.limit < t.lo || t.limit < s.lo
  }

  ghost predicate InOrder(tiles: Tiles, a: int, b: int) {
    a in tiles && b in tiles && a < b ==> a + tiles[a].size <= b
  }

  ghost predicate Disjoint(tiles: Tiles) {
    forall a, b {:trigger InOrder(tiles, a, b)} :: InOrder(tiles, a, b)
  }

  /** Slots tile every unit: no gap, no overlap. */
  ghost predicate Tiled(tiles: Tiles, spans: Spans) {
    && (forall a {:trigger TileOk(tiles, spans, a)} :: a in tiles ==> TileOk(tiles, spans, a))
    && (forall u {:trigger SpanOk(tiles, spans, u)} :: u in spans ==> SpanOk(tiles, spans, u))
    && (forall u, v {:trigger spans[u], spans[v]} ::
          u in spans && v in spans && u != v ==> Apart(spans[u], spans[v]))
    && Disjoint(tiles)
  }

  // ---------------------------------------------------------------- layout updates

  /** Joins the slot at `a` with the one right after it. */
  ghost function Merge(tiles: Tiles, a: int): Tiles
    requires a in tiles && End(tiles, a) in tiles
  {
    (tiles - {End(tiles, a)})[a := Tile(tiles[a].size + tiles[End(tiles, a)].size, tiles[a].unit)]
  }

  /** Cuts the slot at `a` after its first `n` bytes. */
  ghost function Split(tiles: Tiles, a: int, n: int): Tiles
    requires a in tiles
  {
    tiles[a := Tile(n, tiles[a].unit)][a + n := Tile(tiles[a].size - n, tiles[a].unit)]
  }

  ghost function Append(tiles: Tiles, spans: Spans, u: nat, n: int): Tiles
    requires u in spans
  {
    tiles[spans[u].hi := Tile(n, u)]
  }

  ghost function Raise(spans: Spans, u: nat, hi: int): Spans
    requires u in spans
  {
    spans[u := Span(spans[u].lo, hi, spans[u].limit)]
  }

  lemma MergeTiled(tiles: Tiles, spans: Spans, a: int)
    requires Tiled(tiles, spans)
    requires a in tiles && End(tiles, a) in tiles
    ensures Tiled(Merge(tiles, a), spans)
  {
    var t := Merge(tiles, a);
    var b := End(tiles, a);
    assert TileOk(tiles, spans, a) && TileOk(tiles, spans, b);
    NextInUnit(tiles, spans, a);
    forall x | x in t ensures TileOk(t, spans, x) {
      assert TileOk(tiles, spans, x);
      assert InOrder(tiles, a, x) && InOrder(tiles, x, a);
    }
    forall u | u in spans ensures SpanOk(t, spans, u) {
      assert SpanOk(tiles, spans, u);
    }
    forall x, y ensures InOrder(t, x, y) {
      assert InOrder(tiles, x, y) && InOrder(tiles, b, y);
    }
  }

  lemma SplitTiled(tiles: Tiles, spans: Spans, a: int, n: int)
    requires Tiled(tiles, spans)
    requires a in tiles && 0 < n < tiles[a].size
    ensures Tiled(Split(tiles, a, n), spans)
    ensures a + n !in tiles
  {
    var t := Split(tiles, a, n);
    assert TileOk(tiles, spans, a);
    assert InOrder(tiles, a, a + n);
    forall x | x in t ensures TileOk(t, spans, x) {
      if x != a + n {
        assert TileOk(tiles, spans, x);
      }
    }
    forall u | u in spans ensures SpanOk(t, spans, u) {
      assert SpanOk(tiles, spans, u);
    }
    forall x, y ensures InOrder(t, x, y) {
      assert InOrder(tiles, x, y) && InOrder(tiles, a, y) && InOrder(tiles, x, a) && InOrder(tiles, a, x);
    }
  }

  lemma AppendTiled(tiles: Tiles, spans: Spans, u: nat, n: int)
    requires Tiled(tiles, spans)
    requires u in spans && 0 < n && spans[u].hi + n <= spans[u].limit
    ensures spans[u].hi !in tiles
    ensures Tiled(Append(tiles, spans, u, n), Raise(spans, u, spans[u].hi + n))
  {
    var h := spans[u].hi;
    var t, s := Append(tiles, spans, u, n), Raise(spans, u, h + n);
    assert SpanOk(tiles, spans, u);
    if h in tiles {
      AppendFresh(tiles, spans, u, n, h);
    }
    forall x | x in t ensures TileOk(t, s, x) {
      if x != h {
        assert TileOk(tiles, spans, x);
      }
    }
    forall v | v in s ensures SpanOk(t, s, v) {
      assert SpanOk(tiles, spans, v);
    }
    forall x, y ensures InOrder(t, x, y) {
      assert InOrder(tiles, x, y);
      if x in tiles { AppendFresh(tiles, spans, u, n, x); }
      if y in tiles { AppendFresh(tiles, spans, u, n, y); }
    }
  }

  /** Bytes past a unit's last slot belong to no slot of any unit. */
  lemma AppendFresh(tiles: Tiles, spans: Spans, u: nat, n: int, x: int)
    requires Tiled(tiles, spans)
    requires u in spans && 0 < n && spans[u].hi + n <= spans[u].limit
    requires x in tiles
    ensures 0 < tiles[x].size && (End(tiles, x) <= spans[u].hi || spans[u].hi + n <= x)
  {
    var v := tiles[x].unit;
    assert TileOk(tiles, spans, x);
    assert SpanOk(tiles, spans, u) && SpanOk(tiles, spans, v);
    if v != u {
      assert Apart(spans[u], spans[v]);
    }
  }

  /** The slot after a slot, when there is one, is in the same unit. */
  lemma NextInUnit(tiles: Tiles, spans: Spans, a: int)
    requires Tiled(tiles, spans) && a in tiles && End(tiles, a) in tiles
    ensures tiles[End(tiles, a)].unit == tiles[a].unit
  {
    var e := End(tiles, a);
    var u, v := tiles[a].unit, tiles[e].unit;
    assert TileOk(tiles, spans, a) && TileOk(tiles, spans, e);
    assert SpanOk(tiles, spans, u) && SpanOk(tiles, spans, v);
  }

  /** No slot starts where a unit's slots end. */
  lemma TopIsFree(tiles: Tiles, spans: Spans, u: nat)
    requires Tiled(tiles, spans) && u in spans
    ensures spans[u].hi !in tiles
  {
    assert SpanOk(tiles, spans, u);
    forall x | x in tiles ensures x != spans[u].hi {
      assert TileOk(tiles, spans, x) && SpanOk(tiles, spans, tiles[x].unit);
    }
  }

  lemma PopTiled(tiles: Tiles, spans: Spans, a: int)
    requires Tiled(tiles, spans)
    requires a in tiles && tiles[a].unit in spans && End(tiles, a) == spans[tiles[a].unit].hi
    ensures Tiled(tiles - {a}, Raise(spans, tiles[a].unit, a))
  {
    var u := tiles[a].unit;
    var t, s := tiles - {a}, Raise(spans, u, a);
    assert TileOk(tiles, spans, a);
    forall x | x in t ensures TileOk(t, s, x) {
      assert TileOk(tiles, spans, x);
      assert InOrder(tiles, a, x) && InOrder(tiles, x, a);
    }
    forall v | v in s ensures SpanOk(t, s, v) {
      assert SpanOk(tiles, spans, v);
    }
    forall x, y ensures InOrder(t, x, y) {
      assert InOrder(tiles, x, y);
    }
  }

  lemma AddSpanTiled(tiles: Tiles, spans: Spans, u: nat, lo: int, limit: int)
    requires Tiled(tiles, spans)
    requires u !in spans && 0 < lo <= limit
    requires forall v :: v in spans ==> Apart(spans[v], Span(lo, lo, limit))
    ensures Tiled(tiles, spans[u := Span(lo, lo, limit)])
  {
    var s := spans[u := Span(lo, lo, limit)];
    forall x | x in tiles ensures TileOk(tiles, s, x) {
      assert TileOk(tiles, spans, x);
    }
    forall v | v in s ensures SpanOk(tiles, s, v) {
      if v != u { assert SpanOk(tiles, spans, v); }
    }
  }

  /** Forgetting a unit together with its slots. */
  ghost function TilesOutside(tiles: Tiles, u: nat): Tiles {
    map a | a in tiles && tiles[a].unit != u :: tiles[a]
  }

  lemma DropSpanTiled(tiles: Tiles, spans: Spans, u: nat)
    requires Tiled(tiles, spans)
    ensures Tiled(TilesOutside(tiles, u), spans - {u})
  {
    var t, s := TilesOutside(tiles, u), spans - {u};
    forall x | x in t ensures TileOk(t, s, x) {
      assert TileOk(tiles, spans, x);
    }
    forall v | v in s ensures SpanOk(t, s, v) {
      assert SpanOk(tiles, spans, v);
    }
    forall x, y ensures InOrder(t, x, y) {
      assert InOrder(tiles, x, y);
    }
  }

  // ---------------------------------------------------------------- the contiguous walk

  /** A header walk position: at a slot of unit `u`, or at the end of its slots. */
  ghost predicate AtSlot(tiles: Tiles, spans: Spans, u: nat, pc: int) {
    && u in spans
    && spans[u].lo <= pc <= spans[u].hi
    && (pc == spans[u].hi || (pc in tiles && tiles[pc].unit == u))
  }

  /** Slot addresses met by walking unit `u` from `pc`, each step adding the slot's size. */
  ghost function Walk(tiles: Tiles, spans: Spans, u: nat, pc: int): (w: seq<int>)
    requires Tiled(tiles, spans) && AtSlot(tiles, spans, u, pc)
    ensures forall i :: 0 <= i < |w| ==> w[i] in tiles && tiles[w[i]].unit == u && pc <= w[i]
    decreases spans[u].hi - pc
  {
    if pc == spans[u].hi then [] else
      assert TileOk(tiles, spans, pc);
      [pc] + Walk(tiles, spans, u, End(tiles, pc))
  }

  lemma WalkStep(tiles: Tiles, spans: Spans, u: nat, pc: int)
    requires Tiled(tiles, spans) && AtSlot(tiles, spans, u, pc) && pc < spans[u].hi
    ensures pc in tiles && tiles[pc].unit == u && 0 < tiles[pc].size
    ensures AtSlot(tiles, spans, u, End(tiles, pc))
    ensures Walk(tiles, spans, u, pc) == [pc] + Walk(tiles, spans, u, End(tiles, pc))
  {
    assert TileOk(tiles, spans, pc);
  }

  /** No slot of the unit starts strictly inside another, so the walk visits every later slot. */
  lemma {:induction false} WalkComplete(tiles: Tiles, spans: Spans, u: nat, pc: int, a: int)
    requires Tiled(tiles, spans) && AtSlot(tiles, spans, u, pc)
    requires a in tiles && tiles[a].unit == u && pc <= a
    ensures a in Walk(tiles, spans, u, pc)
    decreases spans[u].hi - pc
  {
    assert TileOk(tiles, spans, a);
    WalkStep(tiles, spans, u, pc);
    if a != pc {
      assert InOrder(tiles, pc, a);
      WalkComplete(tiles, spans, u, End(tiles, pc), a);
    }
  }

  /**
   The header walk from a unit's start meets exactly the unit's slots, in strictly increasing
   address order.
   */
  lemma WalkVisitsUnit(tiles: Tiles, spans: Spans, u: nat)
    requires Tiled(tiles, spans) && u in spans
    ensures AtSlot(tiles, spans, u, spans[u].lo)
    ensures var w := Walk(tiles, spans, u, spans[u].lo);
            && (forall a :: a in w <==> a in tiles && tiles[a].unit == u)
            && (forall i, j :: 0 <= i < j < |w| ==> w[i] < w[j])
  {
    assert SpanOk(tiles, spans, u);
    var w := Walk(tiles, spans, u, spans[u].lo);
    forall a | a in tiles && tiles[a].unit == u ensures a in w {
      assert TileOk(tiles, spans, a);
      WalkComplete(tiles, spans, u, spans[u].lo, a);
    }
    WalkIncreasing(tiles, spans, u, spans[u].lo);
  }

  lemma {:induction false} WalkIncreasing(tiles: Tiles, spans: Spans, u: nat, pc: int)
    requires Tiled(tiles, spans) && AtSlot(tiles, spans, u, pc)
    ensures var w := Walk(tiles, spans, u, pc);
            forall i, j :: 0 <= i < j < |w| ==> w[i] < w[j]
    decreases spans[u].hi - pc
  {
    if pc < spans[u].hi {
      WalkStep(tiles, spans, u, pc);
      WalkIncreasing(tiles, spans, u, End(tiles, pc));
    }
  }

  /** Two units never share an address. */
  lemma UnitOfAddress(spans: Spans, tiles: Tiles, u: nat, v: nat, pc: int)
    requires Tiled(tiles, spans)
    requires u in spans && v in spans
    requires spans[u].lo <= pc < spans[u].limit && spans[v].lo <= pc < spans[v].limit
    ensures u == v
  {
  }

  // ---------------------------------------------------------------- alignment

  predicate Aligned(x: int, k: int)
    requires 0 < k
  {
    x % k == 0
  }

  ghost predicate AllAligned(tiles: Tiles, k: int)
    requires 0 < k
  {
    forall a :: a in tiles ==> Aligned(a, k) && Aligned(tiles[a].size, k)
  }

  function AlignForward(x: int, k: int): (r: int)
    requires 0 < k
    ensures Aligned(r, k) && x <= r < x + k
  {
    AlignedMultiple((x + k - 1) / k, k);
    assert (x + k - 1) / k * k == x + k - 1 - (x + k - 1) % k;
    (x + k - 1) / k * k
  }

  lemma AlignedMultiple(q: int, k: int)
    requires 0 < k
    ensures Aligned(q * k, k)
  {
    ModUnique(q * k, k, q, 0);
  }

  lemma ModUnique(x: int, k: int, q: int, r: int)
    requires 0 < k && x == q * k + r && 0 <= r < k
    ensures x % k == r && x / k == q
  {
    var d := q - x / k;
    assert d * k == x % k - r;
    MulAtLeast(d, k);
  }

  lemma MulAtLeast(d: int, k: int)
    requires 0 < k
    ensures (d >= 1 ==> d * k >= k) && (d <= -1 ==> d * k <= -k)
  {
  }

  lemma AlignedSum(x: int, y: int, k: int)
    requires 0 < k && Aligned(x, k) && Aligned(y, k)
    ensures Aligned(x + y, k) && Aligned(x - y, k)
  {
    var p, q := x / k, y / k;
    assert x == p * k && y == q * k;
    assert x + y == (p + q) * k && x - y == (p - q) * k;
    AlignedMultiple(p + q, k);
    AlignedMultiple(p - q, k);
  }
}
