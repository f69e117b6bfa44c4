/**
 The FIFO of a private cache: entries (live fragments and empty slots) linked so that the head's
 prev is the tail, while the tail's next is null.
 */
module FifoRing {
  import opened Layout

  datatype Link = Nil | At(id: nat)

  /**
   A fragment record or an empty slot.  `size` is the fragment's own size, or the whole slot of
   an empty one; `pinned` is FRAG_CANNOT_DELETE.
   */
  datatype Entry = Entry(empty: bool, startPc: int, size: int, extra: int, pinned: bool, next: Link, prev: Link)

  type Entries = map<nat, Entry>

  function Hdr(e: Entry): int {
    e.startPc - HEADER_SIZE
  }

  function Slot(e: Entry): int {
    if e.empty then e.size else e.size + e.extra
  }

  function NextOf(q: seq<nat>, i: int): Link {
    if 0 <= i < |q| - 1 then At(q[i + 1]) else Nil
  }

  function PrevOf(q: seq<nat>, i: int): Link
    requires 0 <= i < |q|
  {
    At(q[if i == 0 then |q| - 1 else i - 1])
  }

  ghost predicate Member(q: seq<nat>, entries: Entries, i: int) {
    && 0 <= i < |q| && q[i] in entries
    && entries[q[i]].next == NextOf(q, i)
    && entries[q[i]].prev == PrevOf(q, i)
  }

  ghost predicate NoRepeat(q: seq<nat>) {
    forall i, j :: 0 <= i < j < |q| ==> q[i] != q[j]
  }

  ghost predicate Ring(q: seq<nat>, head: Link, entries: Entries) {
    && head == (if q == [] then Nil else At(q[0]))
    && NoRepeat(q)
    && (forall i {:trigger Member(q, entries, i)} :: 0 <= i < |q| ==> Member(q, entries, i))
  }

  function Without(q: seq<nat>, i: int): seq<nat>
    requires 0 <= i < |q|
  {
    q[..i] + q[i + 1..]
  }

  lemma WithoutMembers(q: seq<nat>, i: int)
    requires 0 <= i < |q| && NoRepeat(q)
    ensures NoRepeat(Without(q, i))
    ensures forall x :: x in Without(q, i) <==> x in q && x != q[i]
  {
    var d := Without(q, i);
    forall x | x in q && x != q[i] ensures x in d {
      var j :| 0 <= j < |q| && q[j] == x;
      assert d[if j < i then j else j - 1] == x;
    }
  }

  function SetNext(entries: Entries, l: Link, n: Link): Entries {
    if l.At? && l.id in entries then entries[l.id := entries[l.id].(next := n)] else entries
  }

  function SetPrev(entries: Entries, l: Link, p: Link): Entries {
    if l.At? && l.id in entries then entries[l.id := entries[l.id].(prev := p)] else entries
  }

  /** Links may differ, nothing else does. */
  ghost predicate OnlyLinksChange(before: Entries, after: Entries) {
    && before.Keys == after.Keys
    && forall id :: id in before ==> after[id] == before[id].(next := after[id].next, prev := after[id].prev)
  }

  // ---------------------------------------------------------------- remove, append, prepend

  function HeadWithout(head: Link, e: Entry, id: nat): Link {
    if head == At(id) then e.next else head
  }

  function LinksWithout(entries: Entries, head: Link, id: nat): Entries
    requires id in entries
  {
    var e := entries[id];
    var first := if head == At(id) then entries else SetNext(entries, e.prev, e.next);
    SetPrev(first, if e.next == Nil then HeadWithout(head, e, id) else e.next, e.prev)
  }

  /** Removing any member, head and tail included, leaves the others linked in the same order. */
  lemma RingRemove(q: seq<nat>, head: Link, entries: Entries, i: int)
    requires Ring(q, head, entries) && 0 <= i < |q| && q[i] in entries
    ensures Ring(Without(q, i), HeadWithout(head, entries[q[i]], q[i]), LinksWithout(entries, head, q[i]))
    ensures OnlyLinksChange(entries, LinksWithout(entries, head, q[i]))
  {
    var d := Without(q, i);
    var after := LinksWithout(entries, head, q[i]);
    assert Member(q, entries, i) && Member(q, entries, 0);
    assert Member(q, entries, if i == 0 then |q| - 1 else i - 1);
    WithoutMembers(q, i);
    forall j | 0 <= j < |d| ensures Member(d, after, j) {
      MemberAfter(q, head, entries, i, j);
    }
  }

  lemma MemberAfter(q: seq<nat>, head: Link, entries: Entries, i: int, j: int)
    requires Ring(q, head, entries) && 0 <= i < |q| && q[i] in entries && 0 <= j < |q| - 1
    ensures Member(Without(q, i), LinksWithout(entries, head, q[i]), j)
  {
    assert Member(q, entries, i) && Member(q, entries, 0);
    assert Member(q, entries, if i == 0 then |q| - 1 else i - 1);
    if i + 1 < |q| { assert Member(q, entries, i + 1); }
    assert Member(q, entries, if j < i then j else j + 1);
  }

  function LinksWithLast(entries: Entries, head: Link, id: nat): Entries
    requires id in entries && (head.At? ==> head.id in entries)
  {
    if head == Nil then entries[id := entries[id].(next := Nil, prev := At(id))]
    else
      var tail := entries[head.id].prev;
      SetPrev(SetNext(entries[id := entries[id].(next := Nil, prev := tail)], tail, At(id)), head, At(id))
  }

  lemma RingAppend(q: seq<nat>, head: Link, entries: Entries, id: nat)
    requires Ring(q, head, entries) && id in entries && id !in q && (head.At? ==> head.id in entries)
    ensures Ring(q + [id], if q == [] then At(id) else head, LinksWithLast(entries, head, id))
    ensures OnlyLinksChange(entries, LinksWithLast(entries, head, id))
  {
    var p := q + [id];
    var after := LinksWithLast(entries, head, id);
    if q != [] { assert Member(q, entries, 0) && Member(q, entries, |q| - 1); }
    forall j | 0 <= j < |p| ensures Member(p, after, j) {
      if j < |q| { assert Member(q, entries, j); }
    }
  }

  function LinksWithFirst(entries: Entries, head: Link, id: nat, e: Entry): Entries
    requires head.At? ==> head.id in entries
  {
    if head == Nil then entries[id := e.(next := Nil, prev := At(id))]
    else SetPrev(entries[id := e.(next := head, prev := entries[head.id].prev)], head, At(id))
  }

  lemma RingPrepend(q: seq<nat>, head: Link, entries: Entries, id: nat, e: Entry)
    requires Ring(q, head, entries) && id !in entries && (head.At? ==> head.id in entries)
    ensures Ring([id] + q, At(id), LinksWithFirst(entries, head, id, e))
    ensures var after := LinksWithFirst(entries, head, id, e);
            && after.Keys == entries.Keys + {id} && after[id] == e.(next := after[id].next, prev := after[id].prev)
            && forall x :: x in entries ==> after[x] == entries[x].(next := after[x].next, prev := after[x].prev)
  {
    var p := [id] + q;
    var after := LinksWithFirst(entries, head, id, e);
    forall j | 0 <= j < |q| ensures q[j] != id && q[j] in entries {
      assert Member(q, entries, j);
    }
    if q != [] { assert Member(q, entries, 0) && Member(q, entries, |q| - 1); }
    forall j | 0 <= j < |p| ensures Member(p, after, j) {
      if 0 < j { assert Member(q, entries, j - 1); }
    }
  }

  /** Changing anything but the links, or records outside the ring, keeps the ring. */
  lemma RingFrame(q: seq<nat>, head: Link, entries: Entries, after: Entries)
    requires Ring(q, head, entries)
    requires forall id :: id in q && id in entries ==>
               id in after && after[id].next == entries[id].next && after[id].prev == entries[id].prev
    ensures Ring(q, head, after)
  {
    forall j | 0 <= j < |q| ensures Member(q, after, j) {
      assert Member(q, entries, j);
    }
  }

  /** What a member's own links say, as the code reads them before unlinking it. */
  lemma RingAt(q: seq<nat>, head: Link, entries: Entries, i: int)
    requires Ring(q, head, entries) && 0 <= i < |q|
    ensures q[i] in entries && entries[q[i]].prev.At? && entries[q[i]].prev.id in entries
    ensures head == At(q[i]) || entries[q[i]].prev != At(q[i])
    ensures entries[q[i]].next.At? ==> entries[q[i]].next.id in entries && entries[q[i]].next != At(q[i])
    ensures head.At? && head.id in entries
  {
    assert Member(q, entries, i) && Member(q, entries, 0);
    assert Member(q, entries, if i == 0 then |q| - 1 else i - 1);
    if i + 1 < |q| { assert Member(q, entries, i + 1); }
  }
}
