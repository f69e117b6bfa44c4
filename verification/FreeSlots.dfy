/**
 The in-cache free-list structure of a shared cache: what memory, fragment flags and bucket
 lists must say about every slot, and the elementary steps that every operation is made of.

 While an operation is under way a slot may be a `Hole`: bytes that are neither a live fragment
 nor on a free list.  `ex` is the set of slots whose "the slot before me is free" flag is, for
 the moment, not backed by a free slot.
 */
module FreeSlots {
  import opened Layout
  import opened FreeChain

  const BUCKETS: nat := 9
  const BUCKET_SIZES: seq<int> := [0, 44, 52, 56, 64, 72, 80, 112, 172]
  const START_PC_ALIGNMENT: int := 4
  const FOOTER_SIZE: int := 4

  /**
   A fragment record.  `freeListBit` is the FRAG_FCACHE_FREE_LIST bit, `followsFree` is
   FRAG_FOLLOWS_FREE_ENTRY, `wasDeleted` is FRAG_WAS_DELETED and `shiftStart` says that the
   start pc may be padded; `next` is the next_vmarea link.
   */
  datatype Frag = Frag(startPc: int, size: int, extra: int, followsFree: bool,
                       freeListBit: bool, wasDeleted: bool, shiftStart: bool, next: Ptr)

  function StartPadding(f: Frag): int {
    if f.shiftStart then f.startPc % START_PC_ALIGNMENT else 0
  }

  function HdrStart(f: Frag): int {
    f.startPc - HEADER_SIZE - StartPadding(f)
  }

  function SlotSize(f: Frag): int {
    f.size + f.extra + StartPadding(f)
  }

  /**
   Cache memory, one map for each field that lives inside the cache: the first word of a slot
   (fragment pointer or next-free link), the rest of a free-list header, and the footer, which
   is keyed by its own address.
   */
  datatype Memory = Memory(first: Links, flag: map<int, bool>, size: map<int, int>,
                           prev: Links, foot: map<int, int>)

  datatype Kind = Live(f: nat) | Free | Hole(follows: bool)

  /** Memory and records of a cache together with the layout they are meant to encode. */
  datatype View = View(tiles: Tiles, spans: Spans, kind: map<int, Kind>, lists: seq<seq<int>>,
                       mem: Memory, frags: map<nat, Frag>, heads: seq<Ptr>)

  /** The largest bucket whose lower bound does not exceed `size`. */
  function Bucket(size: int): (k: int)
    ensures 0 <= k < BUCKETS
    ensures 0 <= size ==> BUCKET_SIZES[k] <= size
    ensures k + 1 < BUCKETS ==> size < BUCKET_SIZES[k + 1]
  {
    if size < 44 then 0 else if size < 52 then 1 else if size < 56 then 2
    else if size < 64 then 3 else if size < 72 then 4 else if size < 80 then 5
    else if size < 112 then 6 else if size < 172 then 7 else 8
  }

  function FooterAddr(a: int, size: int): int {
    a + size - FOOTER_SIZE
  }

  // ---------------------------------------------------------------- the invariant

  /** Does the slot at `e` claim that a free slot precedes it? */
  predicate Follows(v: View, e: int) {
    && e in v.kind
    && match v.kind[e]
       case Live(f) => f in v.frags && v.frags[f].followsFree
       case Hole(b) => b
       case Free => false
  }

  /** The footer just below `a` leads back to a free slot that ends at `a`. */
  ghost predicate PrevFree(v: View, a: int) {
    && a in v.tiles
    && a - FOOTER_SIZE in v.mem.foot
    && var p := a - v.mem.foot[a - FOOTER_SIZE];
    && p in v.tiles && p in v.kind && v.kind[p] == Free
    && v.tiles[p].size == v.mem.foot[a - FOOTER_SIZE]
  }

  ghost predicate HeaderOk(v: View, a: int) {
    && a in v.tiles
    && MIN_SLOT <= v.tiles[a].size
    && a in v.mem.flag && v.mem.flag[a]
    && a in v.mem.size && v.mem.size[a] == v.tiles[a].size
    && FooterAddr(a, v.tiles[a].size) in v.mem.foot
    && v.mem.foot[FooterAddr(a, v.tiles[a].size)] == v.tiles[a].size
  }

  /** A free slot is followed by the end of its unit or by a marked, non-free slot. */
  ghost predicate NextOk(v: View, a: int) {
    && a in v.tiles
    && var e := End(v.tiles, a);
    e in v.tiles ==> Follows(v, e)
  }

  ghost predicate LiveOk(v: View, f: nat, a: int) {
    && a in v.tiles
    && MIN_SLOT <= v.tiles[a].size
    && a in v.mem.first && v.mem.first[a] == ToFrag(f)
    && f in v.frags
    && var fr := v.frags[f];
    && HdrStart(fr) == a
    && SlotSize(fr) == v.tiles[a].size
    && !fr.freeListBit
    && 0 <= fr.size
    && HEADER_SIZE <= fr.extra <= 255
  }

  ghost predicate SlotOk(v: View, ex: set<int>, a: int) {
    && a in v.tiles && a in v.kind
    && (v.kind[a].Free? ==> HeaderOk(v, a) && NextOk(v, a))
    && (v.kind[a].Live? ==> LiveOk(v, v.kind[a].f, a))
    && (Follows(v, a) && a !in ex ==> PrevFree(v, a))
  }

  /** `x` belongs on the list of bucket `k`. */
  predicate BelongsIn(v: View, k: int, x: int) {
    x in v.tiles && x in v.kind && v.kind[x].Free? && Bucket(v.tiles[x].size) == k
  }

  /** The bucket lists are well linked and hold exactly the free slots of their size range. */
  ghost predicate ListsOk(v: View) {
    && |v.lists| == BUCKETS && |v.heads| == BUCKETS
    && (forall k :: 0 <= k < BUCKETS ==> Chain(v.lists[k], v.heads[k], v.mem.first, v.mem.prev))
    && (forall k, x {:trigger x in v.lists[k]} {:trigger BelongsIn(v, k, x)} ::
          0 <= k < BUCKETS ==> (x in v.lists[k] <==> BelongsIn(v, k, x)))
  }

  ghost predicate SlotsOk(v: View, ex: set<int>) {
    && v.kind.Keys == v.tiles.Keys
    && (forall a {:trigger SlotOk(v, ex, a)} :: a in v.tiles ==> SlotOk(v, ex, a))
  }

  ghost predicate Core(v: View, ex: set<int>) {
    Tiled(v.tiles, v.spans) && SlotsOk(v, ex) && ListsOk(v)
  }

  ghost predicate NoHoles(v: View) {
    forall a :: a in v.kind ==> !v.kind[a].Hole?
  }

  ghost predicate NotPlaced(v: View, f: nat) {
    forall a :: a in v.kind ==> v.kind[a] != Live(f)
  }

  // ---------------------------------------------------------------- what the invariant gives

  /** FRAG_IS_FREE_LIST: null, or the free-list bit of whatever the word points at. */
  predicate WordIsFree(frags: map<nat, Frag>, mem: Memory, w: Ptr) {
    match w
    case Null => true
    case ToFrag(f) => f in frags && frags[f].freeListBit
    case ToCache(p) => p in mem.flag && mem.flag[p]
  }

  /** A slot's first word alone tells its kind, and can be safely dereferenced to find out. */
  lemma FirstWordTellsKind(v: View, ex: set<int>, a: int)
    requires Core(v, ex) && a in v.tiles && !v.kind[a].Hole?
    ensures a in v.mem.first
    ensures WordIsFree(v.frags, v.mem, v.mem.first[a]) <==> v.kind[a].Free?
    ensures v.mem.first[a].ToFrag? <==> v.kind[a].Live?
    ensures v.mem.first[a].ToFrag? ==> v.mem.first[a].frag in v.frags
    ensures v.mem.first[a].ToCache? ==> v.mem.first[a].pc in v.mem.flag
  {
    assert SlotOk(v, ex, a);
    if v.kind[a].Free? {
      var k := Bucket(v.tiles[a].size);
      assert BelongsIn(v, k, a);
      var i := ChainAt(v.lists[k], v.heads[k], v.mem.first, v.mem.prev, a);
      if i + 1 < |v.lists[k]| {
        var n := v.lists[k][i + 1];
        assert n in v.lists[k];
        assert SlotOk(v, ex, n);
      }
    }
  }

  /** Two free slots are never neighbours. */
  lemma FreeNext(v: View, ex: set<int>, a: int)
    requires SlotsOk(v, ex) && a in v.tiles && v.kind[a].Free?
    ensures End(v.tiles, a) in v.tiles ==> !v.kind[End(v.tiles, a)].Free?
  {
    assert SlotOk(v, ex, a);
  }

  /** At most one slot ends where `e` starts. */
  lemma OnePredecessor(v: View, a: int, b: int)
    requires Tiled(v.tiles, v.spans) && a in v.tiles && b in v.tiles
    requires End(v.tiles, a) == End(v.tiles, b)
    ensures a == b
  {
    assert TileOk(v.tiles, v.spans, a) && TileOk(v.tiles, v.spans, b);
    assert InOrder(v.tiles, a, b) && InOrder(v.tiles, b, a);
  }

  predicate FreeBefore(v: View, p: int, e: int) {
    && p in v.tiles && p in v.kind && v.kind[p].Free?
    && e in v.tiles && End(v.tiles, p) == e
  }

  /** The flag on a slot holds exactly when the slot just before it is free. */
  lemma FlagMeansPrevFree(v: View, e: int)
    requires Core(v, {}) && e in v.tiles
    ensures Follows(v, e) <==> exists p :: FreeBefore(v, p, e)
  {
    assert SlotOk(v, {}, e);
    if Follows(v, e) {
      assert FreeBefore(v, e - v.mem.foot[e - FOOTER_SIZE], e);
    }
    forall p | FreeBefore(v, p, e) ensures Follows(v, e) {
      assert SlotOk(v, {}, p);
    }
  }

  /** Exempting more slots, or ones that do not exist, changes nothing. */
  lemma CoreExempt(v: View, ex: set<int>, ex': set<int>)
    requires Core(v, ex)
    requires forall a :: a in ex && a in v.tiles ==> a in ex'
    ensures Core(v, ex')
  {
    forall a | a in v.tiles ensures SlotOk(v, ex', a) {
      assert SlotOk(v, ex, a);
    }
  }

  // ---------------------------------------------------------------- elementary steps

  /** A free slot leaves its list and becomes a hole; the slot after it keeps its flag. */
  function Unfiled(v: View, a: int, i: int): View
    requires a in v.tiles && |v.lists| == |v.heads| == BUCKETS
    requires a in v.mem.first && a in v.mem.prev
    requires 0 <= i < |v.lists[Bucket(v.tiles[a].size)]|
  {
    var k := Bucket(v.tiles[a].size);
    v.(kind := v.kind[a := Hole(false)],
       lists := v.lists[k := Drop(v.lists[k], i)],
       heads := v.heads[k := HeadAfterUnlink(v.heads[k], v.mem.first, v.mem.prev, a)],
       mem := v.mem.(first := NextAfterUnlink(v.mem.first, v.mem.prev, a),
                     prev := PrevAfterUnlink(v.mem.first, v.mem.prev, a)))
  }

  lemma UnfiledLists(v: View, ex: set<int>, a: int, i: int)
    requires Core(v, ex) && a in v.tiles && v.kind[a].Free?
    requires a in v.mem.first && a in v.mem.prev
    requires 0 <= i < |v.lists[Bucket(v.tiles[a].size)]|
    requires v.lists[Bucket(v.tiles[a].size)][i] == a
    ensures ListsOk(Unfiled(v, a, i))
    ensures forall x :: x in v.mem.first && !BelongsIn(v, Bucket(v.tiles[a].size), x) ==>
                          Unfiled(v, a, i).mem.first[x] == v.mem.first[x]
    ensures v.mem.first.Keys == Unfiled(v, a, i).mem.first.Keys
  {
    var k, w := Bucket(v.tiles[a].size), Unfiled(v, a, i);
    var q := v.lists[k];
    var j := ChainAt(q, v.heads[k], v.mem.first, v.mem.prev, a);
    assert i == j;
    ChainUnlink(q, v.heads[k], v.mem.first, v.mem.prev, i);
    DropMembers(q, i);
    forall m | 0 <= m < BUCKETS ensures Chain(w.lists[m], w.heads[m], w.mem.first, w.mem.prev) {
      if m != k {
        forall x | x in v.lists[m] ensures x !in q {
          assert BelongsIn(v, m, x);
        }
        ChainFrame(v.lists[m], v.heads[m], v.mem.first, v.mem.prev, w.mem.first, w.mem.prev);
      }
    }
    forall m, x | 0 <= m < BUCKETS ensures x in w.lists[m] <==> BelongsIn(w, m, x) {
      assert x in v.lists[m] <==> BelongsIn(v, m, x);
    }
  }

  lemma UnfiledCore(v: View, ex: set<int>, a: int, i: int)
    requires Core(v, ex) && a in v.tiles && v.kind[a].Free?
    requires a in v.mem.first && a in v.mem.prev
    requires 0 <= i < |v.lists[Bucket(v.tiles[a].size)]|
    requires v.lists[Bucket(v.tiles[a].size)][i] == a
    ensures Core(Unfiled(v, a, i), ex + {End(v.tiles, a)})
  {
    var w, ex' := Unfiled(v, a, i), ex + {End(v.tiles, a)};
    UnfiledLists(v, ex, a, i);
    forall x | x in w.tiles ensures SlotOk(w, ex', x) {
      assert SlotOk(v, ex, x);
      if Follows(v, x) && x !in ex && x - v.mem.foot[x - FOOTER_SIZE] == a {
        assert x == End(v.tiles, a);
      }
      if v.kind[x].Free? {
        FreeNext(v, ex, x);
      }
    }
  }

  /** A hole is written out as a free-list entry and pushed on the front of its bucket. */
  function Filed(v: View, a: int): View
    requires a in v.tiles && |v.lists| == |v.heads| == BUCKETS
  {
    var size := v.tiles[a].size;
    var k := Bucket(size);
    var prev := v.mem.prev[a := Null];
    v.(kind := v.kind[a := Free],
       lists := v.lists[k := [a] + v.lists[k]],
       heads := v.heads[k := ToCache(a)],
       mem := Memory(v.mem.first[a := v.heads[k]], v.mem.flag[a := true], v.mem.size[a := size],
                     if v.heads[k].ToCache? then prev[v.heads[k].pc := ToCache(a)] else prev,
                     v.mem.foot[FooterAddr(a, size) := size]))
  }

  lemma FiledLists(v: View, a: int)
    requires ListsOk(v) && a in v.tiles && a in v.kind && v.kind[a].Hole?
    ensures ListsOk(Filed(v, a))
  {
    var k, w := Bucket(v.tiles[a].size), Filed(v, a);
    forall m | 0 <= m < BUCKETS ensures a !in v.lists[m] {
      assert !BelongsIn(v, m, a);
    }
    ChainPush(v.lists[k], v.heads[k], v.mem.first, v.mem.prev, w.mem.first, w.mem.prev, a);
    forall m | 0 <= m < BUCKETS ensures Chain(w.lists[m], w.heads[m], w.mem.first, w.mem.prev) {
      if m != k {
        forall x | x in v.lists[m] ensures x !in v.lists[k] {
          assert BelongsIn(v, m, x);
        }
        ChainFrame(v.lists[m], v.heads[m], v.mem.first, v.mem.prev, w.mem.first, w.mem.prev);
      }
    }
    forall m, x | 0 <= m < BUCKETS ensures x in w.lists[m] <==> BelongsIn(w, m, x) {
      assert x in v.lists[m] <==> BelongsIn(v, m, x);
    }
  }

  lemma FiledCore(v: View, ex: set<int>, a: int)
    requires Core(v, ex) && a in v.tiles && v.kind[a] == Hole(false)
    requires MIN_SLOT <= v.tiles[a].size
    requires NextOk(v, a) && a !in ex
    ensures Core(Filed(v, a), ex - {End(v.tiles, a)})
  {
    var w, ex' := Filed(v, a), ex - {End(v.tiles, a)};
    FiledLists(v, a);
    forall x | x in w.tiles ensures SlotOk(w, ex', x) {
      assert SlotOk(v, ex, x);
      assert TileOk(v.tiles, v.spans, x) && TileOk(v.tiles, v.spans, a);
      if x == End(v.tiles, a) && Follows(v, x) {
        assert PrevFree(w, x);
      } else if Follows(v, x) && x !in ex {
        var p := x - v.mem.foot[x - FOOTER_SIZE];
        assert p != a;
        FootersApart(v, p, a);
      }
      if x != a && v.kind[x].Free? {
        FootersApart(v, x, a);
      }
    }
  }

  lemma FootersApart(v: View, a: int, b: int)
    requires Tiled(v.tiles, v.spans) && a in v.tiles && b in v.tiles && a != b
    ensures FooterAddr(a, v.tiles[a].size) != FooterAddr(b, v.tiles[b].size)
  {
    if End(v.tiles, a) == End(v.tiles, b) { OnePredecessor(v, a, b); }
  }

  /** Two neighbouring holes become one. */
  ghost function Joined(v: View, a: int): View
    requires a in v.tiles && End(v.tiles, a) in v.tiles
  {
    v.(tiles := Merge(v.tiles, a), kind := v.kind - {End(v.tiles, a)})
  }

  lemma JoinedCore(v: View, ex: set<int>, a: int)
    requires Core(v, ex) && a in v.tiles && v.kind[a].Hole?
    requires End(v.tiles, a) in v.tiles && v.kind[End(v.tiles, a)].Hole?
    ensures Core(Joined(v, a), ex - {End(v.tiles, a)})
  {
    var b := End(v.tiles, a);
    var w, ex' := Joined(v, a), ex - {b};
    MergeTiled(v.tiles, v.spans, a);
    assert TileOk(v.tiles, v.spans, a);
    forall x | x in w.tiles ensures SlotOk(w, ex', x) {
      assert SlotOk(v, ex, x);
      if v.kind[x].Free? && End(v.tiles, x) == b { OnePredecessor(v, x, a); }
    }
    forall m, x | 0 <= m < BUCKETS ensures x in w.lists[m] <==> BelongsIn(w, m, x) {
      assert x in v.lists[m] <==> BelongsIn(v, m, x);
    }
  }

  /** A hole is cut in two. */
  ghost function Cut(v: View, a: int, n: int): View
    requires a in v.tiles
  {
    v.(tiles := Split(v.tiles, a, n), kind := v.kind[a + n := Hole(false)])
  }

  lemma CutCore(v: View, ex: set<int>, a: int, n: int)
    requires Core(v, ex) && a in v.tiles && v.kind[a].Hole? && 0 < n < v.tiles[a].size
    ensures Core(Cut(v, a, n), ex) && a + n !in v.tiles
  {
    var w := Cut(v, a, n);
    SplitTiled(v.tiles, v.spans, a, n);
    forall x | x in w.tiles ensures SlotOk(w, ex, x) {
      if x != a + n {
        assert SlotOk(v, ex, x);
        assert TileOk(v.tiles, v.spans, x) && InOrder(v.tiles, x, a) && InOrder(v.tiles, a, x);
      }
    }
    forall m, x | 0 <= m < BUCKETS ensures x in w.lists[m] <==> BelongsIn(w, m, x) {
      assert x in v.lists[m] <==> BelongsIn(v, m, x);
    }
  }

  /** The follows-free flag of the fragment at `e` is set or cleared. */
  function Flagged(v: View, e: int, b: bool): View
    requires e in v.kind && v.kind[e].Live? && v.kind[e].f in v.frags
  {
    var f := v.kind[e].f;
    v.(frags := v.frags[f := v.frags[f].(followsFree := b)])
  }

  lemma FlaggedCore(v: View, ex: set<int>, h: int, e: int, b: bool)
    requires Core(v, ex) && h in v.tiles && v.kind[h].Hole? && End(v.tiles, h) == e
    requires e in v.tiles && v.kind[e].Live? && v.kind[e].f in v.frags
    ensures Core(Flagged(v, e, b), ex + {e})
    ensures !b ==> Core(Flagged(v, e, b), ex - {e})
  {
    var w := Flagged(v, e, b);
    forall x, ex' | x in w.tiles && (ex' == ex + {e} || (!b && ex' == ex - {e})) ensures SlotOk(w, ex', x) {
      assert SlotOk(v, ex, x) && SlotOk(v, ex, e);
      if x != e {
        FlaggedOther(v, ex, h, e, b, x);
      }
    }
    forall m, x | 0 <= m < BUCKETS ensures x in w.lists[m] <==> BelongsIn(w, m, x) {
      assert x in v.lists[m] <==> BelongsIn(v, m, x);
    }
  }

  lemma FlaggedOther(v: View, ex: set<int>, h: int, e: int, b: bool, x: int)
    requires Core(v, ex) && h in v.tiles && v.kind[h].Hole? && End(v.tiles, h) == e
    requires e in v.tiles && v.kind[e].Live? && v.kind[e].f in v.frags
    requires x in v.tiles && x != e
    ensures SlotOk(Flagged(v, e, b), ex, x)
  {
    assert SlotOk(v, ex, x) && SlotOk(v, ex, e);
    if v.kind[x].Free? && End(v.tiles, x) in v.tiles {
      if End(v.tiles, x) == e { OnePredecessor(v, x, h); }
      assert SlotOk(v, ex, End(v.tiles, x));
    }
  }

  /** A fragment's slot turns into a hole that remembers the fragment's flag. */
  function Vacated(v: View, a: int): View
    requires a in v.kind
  {
    v.(kind := v.kind[a := Hole(Follows(v, a))])
  }

  lemma VacatedCore(v: View, ex: set<int>, a: int)
    requires Core(v, ex) && a in v.tiles && v.kind[a].Live?
    ensures Core(Vacated(v, a), ex)
  {
    var w := Vacated(v, a);
    forall x | x in w.tiles ensures SlotOk(w, ex, x) {
      assert SlotOk(v, ex, x);
    }
    forall m, x | 0 <= m < BUCKETS ensures x in w.lists[m] <==> BelongsIn(w, m, x) {
      assert x in v.lists[m] <==> BelongsIn(v, m, x);
    }
  }

  /** A fragment whose record is `fr` is placed in the hole at `a`. */
  function Settled(v: View, a: int, f: nat, fr: Frag): View {
    v.(kind := v.kind[a := Live(f)], frags := v.frags[f := fr],
       mem := v.mem.(first := v.mem.first[a := ToFrag(f)]))
  }

  lemma SettledCore(v: View, ex: set<int>, a: int, f: nat, fr: Frag)
    requires Core(v, ex) && a in v.tiles && v.kind[a] == Hole(fr.followsFree) && NotPlaced(v, f)
    requires HdrStart(fr) == a && SlotSize(fr) == v.tiles[a].size && MIN_SLOT <= SlotSize(fr)
    requires !fr.freeListBit && 0 <= fr.size && HEADER_SIZE <= fr.extra <= 255
    ensures Core(Settled(v, a, f, fr), ex)
  {
    var w := Settled(v, a, f, fr);
    forall x | x in w.tiles ensures SlotOk(w, ex, x) {
      assert SlotOk(v, ex, x);
    }
    forall m | 0 <= m < BUCKETS ensures Chain(w.lists[m], w.heads[m], w.mem.first, w.mem.prev) {
      assert !BelongsIn(v, m, a);
      ChainFrame(v.lists[m], v.heads[m], v.mem.first, v.mem.prev, w.mem.first, w.mem.prev);
    }
    forall m, x | 0 <= m < BUCKETS ensures x in w.lists[m] <==> BelongsIn(w, m, x) {
      assert x in v.lists[m] <==> BelongsIn(v, m, x);
    }
  }

  /** The unit's slots grow by a hole of `n` bytes. */
  ghost function Grown(v: View, u: nat, n: int): View
    requires u in v.spans
  {
    v.(tiles := Append(v.tiles, v.spans, u, n), spans := Raise(v.spans, u, v.spans[u].hi + n),
       kind := v.kind[v.spans[u].hi := Hole(false)])
  }

  lemma GrownCore(v: View, ex: set<int>, u: nat, n: int)
    requires Core(v, ex) && u in v.spans && 0 < n && v.spans[u].hi + n <= v.spans[u].limit
    requires forall a :: a in v.kind && v.kind[a].Free? && v.tiles[a].unit == u ==> End(v.tiles, a) != v.spans[u].hi
    ensures Core(Grown(v, u, n), ex) && v.spans[u].hi !in v.tiles
  {
    var w := Grown(v, u, n);
    AppendTiled(v.tiles, v.spans, u, n);
    forall x | x in w.tiles ensures SlotOk(w, ex, x) {
      if x != v.spans[u].hi {
        assert SlotOk(v, ex, x);
        if v.kind[x].Free? && End(v.tiles, x) == v.spans[u].hi {
          NextInUnit(w.tiles, w.spans, x);
        }
      }
    }
    forall m, x | 0 <= m < BUCKETS ensures x in w.lists[m] <==> BelongsIn(w, m, x) {
      assert x in v.lists[m] <==> BelongsIn(v, m, x);
    }
  }

  /** The unit's last slot, a hole, is given back to the unclaimed space. */
  ghost function Shrunk(v: View, a: int): View
    requires a in v.tiles && v.tiles[a].unit in v.spans
  {
    v.(tiles := v.tiles - {a}, spans := Raise(v.spans, v.tiles[a].unit, a), kind := v.kind - {a})
  }

  lemma ShrunkCore(v: View, ex: set<int>, a: int)
    requires Core(v, ex) && a in v.tiles && v.kind[a] == Hole(false)
    requires v.tiles[a].unit in v.spans && End(v.tiles, a) == v.spans[v.tiles[a].unit].hi
    ensures Core(Shrunk(v, a), ex)
    ensures forall x :: x in v.kind && v.kind[x].Free? ==> End(v.tiles, x) != a
  {
    var w := Shrunk(v, a);
    PopTiled(v.tiles, v.spans, a);
    forall x | x in v.kind && v.kind[x].Free? ensures End(v.tiles, x) != a {
      assert SlotOk(v, ex, x);
    }
    forall x | x in w.tiles ensures SlotOk(w, ex, x) {
      assert SlotOk(v, ex, x);
    }
    forall m, x | 0 <= m < BUCKETS ensures x in w.lists[m] <==> BelongsIn(w, m, x) {
      assert x in v.lists[m] <==> BelongsIn(v, m, x);
    }
  }

  /** A unit is added with no slots. */
  ghost function WithUnit(v: View, u: nat, lo: int, limit: int): View {
    v.(spans := v.spans[u := Span(lo, lo, limit)])
  }

  lemma WithUnitCore(v: View, ex: set<int>, u: nat, lo: int, limit: int)
    requires Core(v, ex) && u !in v.spans && 0 < lo <= limit
    requires forall s :: s in v.spans ==> Apart(v.spans[s], Span(lo, lo, limit))
    ensures Core(WithUnit(v, u, lo, limit), ex)
  {
    var w := WithUnit(v, u, lo, limit);
    AddSpanTiled(v.tiles, v.spans, u, lo, limit);
    forall x | x in w.tiles ensures SlotOk(w, ex, x) {
      assert SlotOk(v, ex, x);
    }
    forall m, x | 0 <= m < BUCKETS ensures x in w.lists[m] <==> BelongsIn(w, m, x) {
      assert x in v.lists[m] <==> BelongsIn(v, m, x);
    }
  }
}
