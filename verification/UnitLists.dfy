/**
 The global lists of cache units: units to be freed, in the order in which they were flushed and
 with a tail pointer, and dead units kept for reuse, sorted by size.
 */
module UnitLists {
  import opened FifoRing

  ghost predicate LinkOk(s: seq<nat>, next: map<nat, Link>, i: int) {
    0 <= i < |s| ==> s[i] in next && next[s[i]] == NextOf(s, i)
  }

  /** `s` is what following the links from `head` yields. */
  ghost predicate Listed(s: seq<nat>, head: Link, next: map<nat, Link>) {
    && NoRepeat(s)
    && head == (if s == [] then Nil else At(s[0]))
    && forall i {:trigger LinkOk(s, next, i)} :: LinkOk(s, next, i)
  }

  lemma ListedTail(s: seq<nat>, head: Link, next: map<nat, Link>)
    requires Listed(s, head, next) && s != []
    ensures s[0] in next && Listed(s[1..], next[s[0]], next)
  {
    assert LinkOk(s, next, 0);
    forall i ensures LinkOk(s[1..], next, i) {
      assert LinkOk(s, next, i + 1);
    }
  }

  lemma ListedMembers(s: seq<nat>, head: Link, next: map<nat, Link>)
    requires Listed(s, head, next)
    ensures forall x :: x in s ==> x in next
    ensures head == if s == [] then Nil else At(s[0])
  {
    forall x | x in s ensures x in next {
      var i :| 0 <= i < |s| && s[i] == x;
      assert LinkOk(s, next, i);
    }
  }

  lemma ListedAt(s: seq<nat>, head: Link, next: map<nat, Link>, i: int)
    requires Listed(s, head, next) && 0 <= i < |s|
    ensures s[i] in next && next[s[i]] == NextOf(s, i)
  {
    assert LinkOk(s, next, i);
  }

  /** Linking the end of one list to the start of another concatenates them. */
  lemma ListedConcat(s: seq<nat>, t: seq<nat>, head: Link, next: map<nat, Link>)
    requires Listed(s, head, next) && t != [] && Listed(t, At(t[0]), next) && (forall x :: x in s ==> x !in t)
    ensures s == [] ==> Listed(s + t, At(t[0]), next)
    ensures s != [] ==> Listed(s + t, head, next[s[|s| - 1] := At(t[0])])
  {
    if s != [] {
      var next', last := next[s[|s| - 1] := At(t[0])], |s| - 1;
      forall i, j | 0 <= i < j < |s + t| ensures (s + t)[i] != (s + t)[j] {
        if i < |s| <= j { assert s[i] in s && t[j - |s|] in t; }
      }
      forall i ensures LinkOk(s + t, next', i) {
        assert LinkOk(s, next, i) && LinkOk(t, next, i - |s|);
        if 0 <= i < last { assert s[i] != s[last]; }
        if |s| <= i < |s + t| { assert t[i - |s|] in t && s[last] in s; }
      }
    } else {
      assert s + t == t;
    }
  }

  // ---------------------------------------------------------------- orders

  function Key(key: map<nat, nat>, x: nat): nat {
    if x in key then key[x] else 0
  }

  ghost predicate Sorted(s: seq<nat>, key: map<nat, nat>) {
    forall i, j :: 0 <= i < j < |s| ==> Key(key, s[i]) <= Key(key, s[j])
  }

  /** Appending keeps the order exactly when the new first is not before the old last. */
  lemma SortedConcat(s: seq<nat>, t: seq<nat>, key: map<nat, nat>)
    requires s != [] && t != [] && Sorted(s, key) && Sorted(t, key)
    ensures Sorted(s + t, key) <==> Key(key, s[|s| - 1]) <= Key(key, t[0])
  {
    var last := |s| - 1;
    assert (s + t)[last] == s[last] && (s + t)[|s|] == t[0];
    if Key(key, s[last]) <= Key(key, t[0]) {
      forall i, j | 0 <= i < j < |s + t| ensures Key(key, (s + t)[i]) <= Key(key, (s + t)[j]) {
        if i < |s| <= j {
          assert Key(key, s[i]) <= Key(key, s[last]) && Key(key, t[0]) <= Key(key, t[j - |s|]);
        }
      }
    }
  }

  /** How many units at the front are due at `time`. */
  ghost function Due(s: seq<nat>, key: map<nat, nat>, time: int): (k: nat)
    ensures k <= |s|
    ensures forall i :: 0 <= i < k ==> Key(key, s[i]) <= time
    ensures k < |s| ==> Key(key, s[k]) > time
  {
    if s == [] || Key(key, s[0]) > time then 0 else 1 + Due(s[1..], key, time)
  }

  lemma DueUnique(s: seq<nat>, key: map<nat, nat>, time: int, k: nat)
    requires k <= |s| && (forall i :: 0 <= i < k ==> Key(key, s[i]) <= time) && (k < |s| ==> Key(key, s[k]) > time)
    ensures k == Due(s, key, time)
  {
  }

  lemma DueReaches(s: seq<nat>, key: map<nat, nat>, time: int, i: nat)
    requires i < |s| && (forall j :: 0 <= j <= i ==> Key(key, s[j]) <= time)
    ensures i < Due(s, key, time)
  {
  }

  lemma SuffixMembers(s: seq<nat>, k: nat, key: map<nat, nat>, time: int)
    requires k <= |s| && forall i :: 0 <= i < |s| ==> (i < k <==> Key(key, s[i]) <= time)
    ensures forall x :: x in s[k..] <==> x in s && Key(key, x) > time
  {
    forall x | x in s && Key(key, x) > time ensures x in s[k..] {
      var i :| 0 <= i < |s| && s[i] == x;
      assert s[k..][i - k] == x;
    }
  }

  /** No unit that is due waits behind one that is not. */
  ghost predicate DueFirst(s: seq<nat>, key: map<nat, nat>, time: int) {
    forall i, j :: 0 <= i < j < |s| && Key(key, s[j]) <= time ==> Key(key, s[i]) <= time
  }

  /** The units at the front are all the units that are due exactly when none waits behind another. */
  lemma DueIsAll(s: seq<nat>, key: map<nat, nat>, time: int)
    ensures DueFirst(s, key, time) <==> forall i :: 0 <= i < |s| ==> (i < Due(s, key, time) <==> Key(key, s[i]) <= time)
    ensures Sorted(s, key) ==> DueFirst(s, key, time)
  {
    var k := Due(s, key, time);
    if DueFirst(s, key, time) {
      forall i | 0 <= i < |s| ensures i < k <==> Key(key, s[i]) <= time {
      }
    }
  }

  /** Two flushes appended in the wrong order: the unit that is due stays. */
  lemma DueMissed(a: nat, b: nat)
    requires a != b
    ensures var key := map[a := 2, b := 1];
            !Sorted([a, b], key) && Key(key, b) <= 1 && Due([a, b], key, 1) == 0
  {
    var key, s := map[a := 2, b := 1], [a, b];
    assert Key(key, s[0]) == 2 && Key(key, s[1]) == 1;
  }

  // ---------------------------------------------------------------- insertion into a list

  function Inserted(s: seq<nat>, k: nat, u: nat): seq<nat>
    requires k <= |s|
  {
    s[..k] + [u] + s[k..]
  }

  lemma InsertedAt(s: seq<nat>, k: nat, u: nat)
    requires k <= |s|
    ensures var t := Inserted(s, k, u);
            && |t| == |s| + 1
            && (forall i :: 0 <= i < |t| ==> t[i] == (if i < k then s[i] else if i == k then u else s[i - 1]))
            && (forall x :: x in t <==> x in s || x == u)
  {
    assert s == s[..k] + s[k..];
  }

  lemma InsertedSorted(s: seq<nat>, k: nat, u: nat, key: map<nat, nat>)
    requires k <= |s| && Sorted(s, key)
    requires forall i :: 0 <= i < k ==> Key(key, s[i]) < Key(key, u)
    requires k < |s| ==> Key(key, u) <= Key(key, s[k])
    ensures Sorted(Inserted(s, k, u), key)
  {
    InsertedAt(s, k, u);
    var t := Inserted(s, k, u);
    forall i, j | 0 <= i < j < |t| ensures Key(key, t[i]) <= Key(key, t[j]) {
      if j > k && k < |s| { assert k == j - 1 || Key(key, s[k]) <= Key(key, s[j - 1]); }
    }
  }

  lemma InsertedListed(s: seq<nat>, k: nat, u: nat, head: Link, next: map<nat, Link>)
    requires Listed(s, head, next) && k <= |s| && u !in s
    ensures var cur := if k < |s| then At(s[k]) else Nil;
            Listed(Inserted(s, k, u), if k == 0 then At(u) else head,
                   if k == 0 then next[u := head] else next[u := cur][s[k - 1] := At(u)])
  {
    InsertedAt(s, k, u);
    var t := Inserted(s, k, u);
    var cur := if k < |s| then At(s[k]) else Nil;
    var next' := if k == 0 then next[u := head] else next[u := cur][s[k - 1] := At(u)];
    forall i, j | 0 <= i < j < |t| ensures t[i] != t[j] {
      if i == k { assert s[j - 1] in s; }
      if j == k { assert s[i] in s; }
    }
    forall i ensures LinkOk(t, next', i) {
      InsertedLink(s, k, u, head, next, i);
    }
  }

  lemma InsertedLink(s: seq<nat>, k: nat, u: nat, head: Link, next: map<nat, Link>, i: int)
    requires Listed(s, head, next) && k <= |s| && u !in s
    ensures var cur := if k < |s| then At(s[k]) else Nil;
            LinkOk(Inserted(s, k, u), if k == 0 then next[u := head] else next[u := cur][s[k - 1] := At(u)], i)
  {
    InsertedAt(s, k, u);
    if 0 <= i < k {
      assert LinkOk(s, next, i) && s[i] in s;
    } else if k < i <= |s| {
      assert LinkOk(s, next, i - 1) && s[i - 1] in s;
      assert k > 0 ==> s[k - 1] != s[i - 1];
    } else if i == k && k > 0 {
      assert s[k - 1] in s;
    }
  }

  /** Taking the element at `k` out again. */
  lemma WithoutListed(s: seq<nat>, k: nat, head: Link, next: map<nat, Link>)
    requires Listed(s, head, next) && k < |s|
    ensures s[k] in next
    ensures Listed(Without(s, k), if k == 0 then next[s[k]] else head,
                   if k == 0 then next else next[s[k - 1] := next[s[k]]])
  {
    WithoutMembers(s, k);
    assert LinkOk(s, next, k);
    var t, next' := Without(s, k), if k == 0 then next else next[s[k - 1] := next[s[k]]];
    forall i ensures LinkOk(t, next', i) {
      if 0 <= i < k {
        assert LinkOk(s, next, i);
        if i != k - 1 { assert s[i] != s[k - 1]; }
      } else if k <= i < |t| {
        assert LinkOk(s, next, i + 1);
        if k > 0 { assert s[i + 1] != s[k - 1]; }
      }
    }
  }

  lemma WithoutSorted(s: seq<nat>, k: nat, key: map<nat, nat>)
    requires Sorted(s, key) && k < |s|
    ensures Sorted(Without(s, k), key)
  {
    var t := Without(s, k);
    forall i, j | 0 <= i < j < |t| ensures Key(key, t[i]) <= Key(key, t[j]) {
      var x, y := if i < k then i else i + 1, if j < k then j else j + 1;
      assert t[i] == s[x] && t[j] == s[y];
    }
  }

  lemma SmallestFirst(s: seq<nat>, k: nat, key: map<nat, nat>)
    requires Sorted(s, key) && k < |s|
    ensures forall i :: k <= i < |s| ==> Key(key, s[k]) <= Key(key, s[i])
  {
  }
}
