/**
 Null-terminated doubly linked chains threaded through memory, as the free-list buckets are.
 `q` lists the chain's nodes from the head; `nxt` and `prv` are the link words in memory.
 */
module FreeChain {

  /** A pointer word: null, a fragment record, or an address inside the cache. */
  datatype Ptr = Null | ToFrag(frag: nat) | ToCache(pc: int)

  type Links = map<int, Ptr>

  function LinkTo(q: seq<int>, i: int): Ptr {
    if 0 <= i < |q| then ToCache(q[i]) else Null
  }

  ghost predicate Node(q: seq<int>, nxt: Links, prv: Links, i: int) {
    && 0 <= i < |q|
    && q[i] in nxt && q[i] in prv
    && nxt[q[i]] == LinkTo(q, i + 1)
    && prv[q[i]] == LinkTo(q, i - 1)
  }

  ghost predicate NoDup(q: seq<int>) {
    forall i, j :: 0 <= i < j < |q| ==> q[i] != q[j]
  }

  ghost predicate Chain(q: seq<int>, head: Ptr, nxt: Links, prv: Links) {
    && head == LinkTo(q, 0)
    && NoDup(q)
    && (forall i {:trigger Node(q, nxt, prv, i)} :: 0 <= i < |q| ==> Node(q, nxt, prv, i))
  }

  /** `q` without the node at position `i`. */
  function Drop(q: seq<int>, i: int): seq<int>
    requires 0 <= i < |q|
  {
    q[..i] + q[i + 1..]
  }

  lemma DropMembers(q: seq<int>, i: int)
    requires 0 <= i < |q| && NoDup(q)
    ensures NoDup(Drop(q, i))
    ensures forall x :: x in Drop(q, i) <==> x in q && x != q[i]
  {
    var d := Drop(q, i);
    forall x | x in q && x != q[i] ensures x in d {
      var j :| 0 <= j < |q| && q[j] == x;
      assert d[if j < i then j else j - 1] == x;
    }
  }

  /** Links outside the chain's own nodes do not matter. */
  lemma ChainFrame(q: seq<int>, head: Ptr, nxt: Links, prv: Links, nxt': Links, prv': Links)
    requires Chain(q, head, nxt, prv)
    requires forall x :: x in q && x in nxt && x in prv ==>
                           x in nxt' && x in prv' && nxt'[x] == nxt[x] && prv'[x] == prv[x]
    ensures Chain(q, head, nxt', prv')
  {
    forall i | 0 <= i < |q| ensures Node(q, nxt', prv', i) {
      assert Node(q, nxt, prv, i);
    }
  }

  /** Pushing `a`: its next is the old head, the old head's prev is `a`. */
  lemma ChainPush(q: seq<int>, head: Ptr, nxt: Links, prv: Links, nxt': Links, prv': Links, a: int)
    requires Chain(q, head, nxt, prv) && a !in q
    requires nxt' == nxt[a := head]
    requires prv' == if head.ToCache? then prv[a := Null][head.pc := ToCache(a)] else prv[a := Null]
    ensures Chain([a] + q, ToCache(a), nxt', prv')
  {
    var p := [a] + q;
    forall i | 0 <= i < |p| ensures Node(p, nxt', prv', i) {
      if 0 < i {
        assert Node(q, nxt, prv, i - 1);
      }
    }
  }

  /** Where a member's links point, as the code reads them before unlinking. */
  lemma ChainAt(q: seq<int>, head: Ptr, nxt: Links, prv: Links, x: int) returns (i: int)
    requires Chain(q, head, nxt, prv) && x in q
    ensures 0 <= i < |q| && q[i] == x && x in nxt && x in prv
    ensures nxt[x] == LinkTo(q, i + 1) && prv[x] == LinkTo(q, i - 1)
    ensures nxt[x].ToCache? ==> nxt[x].pc in prv
    ensures prv[x].ToCache? ==> prv[x].pc in nxt
  {
    i :| 0 <= i < |q| && q[i] == x;
    assert Node(q, nxt, prv, i);
    if 0 < i { assert Node(q, nxt, prv, i - 1); }
    if i + 1 < |q| { assert Node(q, nxt, prv, i + 1); }
  }

  function NextAfterUnlink(nxt: Links, prv: Links, x: int): Links
    requires x in nxt && x in prv
  {
    if prv[x].ToCache? then nxt[prv[x].pc := nxt[x]] else nxt
  }

  function PrevAfterUnlink(nxt: Links, prv: Links, x: int): Links
    requires x in nxt && x in prv
  {
    if nxt[x].ToCache? then prv[nxt[x].pc := prv[x]] else prv
  }

  function HeadAfterUnlink(head: Ptr, nxt: Links, prv: Links, x: int): Ptr
    requires x in nxt && x in prv
  {
    if prv[x].ToCache? then head else nxt[x]
  }

  /** Unlinking any member leaves a chain of the others, in the same order. */
  lemma ChainUnlink(q: seq<int>, head: Ptr, nxt: Links, prv: Links, i: int)
    requires Chain(q, head, nxt, prv) && 0 <= i < |q| && q[i] in nxt && q[i] in prv
    ensures Chain(Drop(q, i), HeadAfterUnlink(head, nxt, prv, q[i]),
                  NextAfterUnlink(nxt, prv, q[i]), PrevAfterUnlink(nxt, prv, q[i]))
  {
    var d := Drop(q, i);
    var n, p := NextAfterUnlink(nxt, prv, q[i]), PrevAfterUnlink(nxt, prv, q[i]);
    assert Node(q, nxt, prv, i);
    DropMembers(q, i);
    forall j | 0 <= j < |d| ensures Node(d, n, p, j) {
      assert Node(q, nxt, prv, if j < i then j else j + 1);
    }
  }
}
