/**
 Emitting a fragment without jump padding: one pass over the instructions decides how much space
 the body and the exit stubs need, a second one encodes the body and fills in one linkstub per
 exit, and a third places the stubs.  The passes must agree on every address.
 */
module Emit {
  const MAX_FRAGMENT_SIZE: int := 0xFFFF

  datatype Branch = Conditional | Unconditional | OtherBranch

  /** Sizes of the x64 exit stubs: a spill, a move of the linkstub's address, and a jump. */
  const DIRECT_STUB: nat := 8 + 10 + 5
  const INDIRECT_STUB: nat := 9 + 10 + 5

  /** A direct exit, or an indirect one without a stub, with a plain stub, or with the lookup inlined in its stub. */
  datatype Way = Direct | Unstubbed | Plain | Inlined(length: nat)

  datatype Exit = Exit(target: int, branch: Branch, way: Way) {
    predicate Indirect() {
      !way.Direct?
    }

    function Stub(): nat {
      match way
      case Direct => DIRECT_STUB
      case Unstubbed => 0
      case Plain => INDIRECT_STUB
      case Inlined(n) => n
    }
  }

  datatype Kind = Inner | Leaves(exit: Exit)

  datatype Instr = Instr(len: nat, emitted: bool, kind: Kind)

  /** `single`: a final conditional pair shares one stub; `separate`: stubs of the direct size are kept elsewhere. */
  datatype Options = Options(single: bool, separate: bool, prefix: nat, copy: nat)

  datatype Place = NoStub | Local(pc: int) | Elsewhere(exit: nat)

  datatype Linkstub = Linkstub(exit: Exit, final: bool, separate: bool, ctiOffset: int, stub: Place)

  predicate WellFormed(il: seq<Instr>) {
    il != [] && forall i :: 0 <= i < |il| && il[i].kind.Leaves? ==> il[i].emitted && ExitOk(il[i].kind.exit)
  }

  /** A stub that holds an inlined lookup is longer than a direct one. */
  predicate ExitOk(e: Exit) {
    (e.branch == Conditional ==> e.way == Direct) && (e.way.Inlined? ==> DIRECT_STUB < e.way.length)
  }

  /** The bytes of stub `e` that go with the fragment. */
  function LocalSize(o: Options, e: Exit): nat {
    if o.separate && e.Stub() == DIRECT_STUB then 0 else e.Stub()
  }

  predicate Separated(o: Options, e: Exit) {
    LocalSize(o, e) == 0
  }

  predicate HasStub(e: Exit) {
    !e.way.Unstubbed?
  }

  /** Do the last two exits share a stub? */
  predicate SharesPrevious(o: Options, il: seq<Instr>)
    requires il != []
  {
    var last := il[|il| - 1];
    && o.single && last.kind.Leaves? && last.kind.exit.branch == Unconditional
    && |il| > 1 && il[|il| - 2].kind.Leaves? && il[|il| - 2].kind.exit.branch == Conditional
  }

  predicate SinglePair(o: Options, il: seq<Instr>)
    requires il != []
  {
    SharesPrevious(o, il) && !il[|il| - 1].kind.exit.Indirect()
  }

  // ---------------------------------------------------------------- what the passes compute

  /** Encoded bytes before instruction `n`. */
  function Offset(il: seq<Instr>, n: nat): nat
    requires n <= |il|
  {
    if n == 0 then 0 else Offset(il, n - 1) + if il[n - 1].emitted then il[n - 1].len else 0
  }

  /** Exits before instruction `n`. */
  function Count(il: seq<Instr>, n: nat): nat
    requires n <= |il|
  {
    if n == 0 then 0 else Count(il, n - 1) + if il[n - 1].kind.Leaves? then 1 else 0
  }

  function Exits(il: seq<Instr>, n: nat): (e: seq<Exit>)
    requires n <= |il|
    ensures |e| == Count(il, n)
  {
    if n == 0 then [] else Exits(il, n - 1) + if il[n - 1].kind.Leaves? then [il[n - 1].kind.exit] else []
  }

  /** The `k`-th exit in order is the instruction that has `k` exits before it. */
  lemma {:induction false} ExitAt(il: seq<Instr>, i: nat, n: nat)
    requires i < n <= |il| && il[i].kind.Leaves?
    ensures Count(il, i) < Count(il, n) && Exits(il, n)[Count(il, i)] == il[i].kind.exit
  {
    if i < n - 1 {
      ExitAt(il, i, n - 1);
    }
  }

  lemma {:induction false} ExitsOk(il: seq<Instr>, n: nat)
    requires WellFormed(il) && n <= |il|
    ensures forall k :: 0 <= k < |Exits(il, n)| ==> ExitOk(Exits(il, n)[k])
  {
    if n > 0 { ExitsOk(il, n - 1); }
  }

  /** Does exit `k` use the stub of the exit before it? */
  predicate Shared(es: seq<Exit>, single: bool, k: int) {
    single && k == |es| - 1
  }

  /** What the sizing pass reserves for the stubs of the first `n` exits. */
  function Reserved(o: Options, es: seq<Exit>, single: bool, n: nat): nat
    requires n <= |es|
  {
    if n == 0 then 0 else
      Reserved(o, es, single, n - 1) +
      if es[n - 1].Indirect() then es[n - 1].Stub()
      else if Shared(es, single, n - 1) then 0
      else LocalSize(o, es[n - 1])
  }

  /** What the stubs of the first `n` exits take. */
  function Taken(o: Options, es: seq<Exit>, single: bool, n: nat): nat
    requires n <= |es|
  {
    if n == 0 then 0 else
      Taken(o, es, single, n - 1) +
      if !HasStub(es[n - 1]) || Separated(o, es[n - 1]) || Shared(es, single, n - 1) then 0
      else es[n - 1].Stub()
  }

  /** Where the stub of exit `k` is. */
  function StubOf(o: Options, es: seq<Exit>, single: bool, base: int, k: nat): Place
    requires k < |es| && (single ==> |es| >= 2)
  {
    var owner := if Shared(es, single, k) then k - 1 else k;
    if !HasStub(es[k]) then NoStub
    else if Separated(o, es[k]) then Elsewhere(owner)
    else Local(base + Taken(o, es, single, owner))
  }

  /** Sizing and emission agree on the stubs, although only the sizing pass tells direct exits from indirect ones. */
  lemma {:induction false} ReservedIsTaken(o: Options, es: seq<Exit>, single: bool, n: nat)
    requires n <= |es| && (forall k :: 0 <= k < n ==> ExitOk(es[k]))
    requires single && es != [] ==> !es[|es| - 1].Indirect()
    ensures Taken(o, es, single, n) == Reserved(o, es, single, n)
  {
    if n > 0 {
      ReservedIsTaken(o, es, single, n - 1);
    }
  }

  lemma {:induction false} TakenGrows(o: Options, es: seq<Exit>, single: bool, i: nat, n: nat)
    requires i <= n <= |es|
    ensures Taken(o, es, single, i) <= Taken(o, es, single, n)
  {
    if i < n { TakenGrows(o, es, single, i, n - 1); }
  }

  /** Local stubs are in exit order and do not overlap, except that the shared one is the same. */
  lemma StubsApart(o: Options, es: seq<Exit>, single: bool, base: int, i: nat, k: nat)
    requires i < k < |es| && (single ==> |es| >= 2)
    requires StubOf(o, es, single, base, i).Local? && StubOf(o, es, single, base, k).Local?
    ensures if Shared(es, single, k) && i == k - 1
            then StubOf(o, es, single, base, k) == StubOf(o, es, single, base, i)
            else StubOf(o, es, single, base, i).pc + es[i].Stub() <= StubOf(o, es, single, base, k).pc
  {
    var owner := if Shared(es, single, k) then k - 1 else k;
    if i < owner { TakenGrows(o, es, single, i + 1, owner); }
  }

  /** An exit without a stub has none, direct stubs are kept elsewhere when asked for, and all others are local. */
  lemma StubKind(o: Options, es: seq<Exit>, single: bool, base: int, k: nat)
    requires k < |es| && (single ==> |es| >= 2) && ExitOk(es[k])
    ensures StubOf(o, es, single, base, k).NoStub? <==> es[k].way.Unstubbed?
    ensures StubOf(o, es, single, base, k).Elsewhere? <==> o.separate && es[k].way.Direct?
  {
  }

  // ---------------------------------------------------------------- the passes

  /** First pass: sizes the body and the stubs and records each instruction's offset. */
  method Size(o: Options, il: seq<Instr>)
    returns (body: nat, direct: nat, indirect: nat, stubs: nat, single: bool, offsets: seq<nat>)
    requires WellFormed(il)
    ensures body == Offset(il, |il|) && direct + indirect == Count(il, |il|) && single == SinglePair(o, il)
    ensures stubs == Reserved(o, Exits(il, |il|), single, Count(il, |il|))
    ensures |offsets| == |il| && forall i :: 0 <= i < |il| ==> offsets[i] == Offset(il, i)
  {
    body, direct, indirect, stubs, single, offsets := 0, 0, 0, 0, false, [];
    for i := 0 to |il|
      invariant body == Offset(il, i) && direct + indirect == Count(il, i)
      invariant single == (i == |il| && SinglePair(o, il))
      invariant stubs == Reserved(o, Exits(il, i), single, Count(il, i))
      invariant |offsets| == i && forall k :: 0 <= k < i ==> offsets[k] == Offset(il, k)
    {
      offsets := offsets + [body];
      if il[i].emitted {
        body := body + il[i].len;
      }
      if il[i].kind.Leaves? {
        var e := il[i].kind.exit;
        ghost var es := Exits(il, i);
        if e.Indirect() {
          indirect := indirect + 1;
          stubs := stubs + e.Stub();
        } else {
          direct := direct + 1;
          if o.single && i == |il| - 1 && SharesPrevious(o, il) {
            single := true;
          } else if !Separated(o, e) {
            stubs := stubs + LocalSize(o, e);
          }
        }
        assert Exits(il, i + 1) == es + [e] && (es + [e])[..|es|] == es;
        ReservedPrefix(o, es, es + [e], single, |es|);
      } else {
        assert Exits(il, i + 1) == Exits(il, i);
      }
    }
  }

  lemma {:induction false} ReservedPrefix(o: Options, es: seq<Exit>, fs: seq<Exit>, single: bool, n: nat)
    requires n <= |es| < |fs| && es == fs[..|es|]
    ensures Reserved(o, es, false, n) == Reserved(o, fs, single, n)
  {
    if n > 0 { ReservedPrefix(o, es, fs, single, n - 1); }
  }

  /** What the second pass writes into the linkstub of instruction `i`. */
  function Filled(o: Options, il: seq<Instr>, i: nat, total: nat): Linkstub
    requires i < |il| && il[i].kind.Leaves?
  {
    Linkstub(il[i].kind.exit, Count(il, i) == total - 1, Separated(o, il[i].kind.exit),
             (o.prefix + Offset(il, i)) % 0x1_0000, NoStub)
  }

  /** Second pass: encodes the body and fills in the linkstubs, one per exit and in their order. */
  method SetLinkstubs(o: Options, il: seq<Instr>, start: int, total: nat, ghost offsets: seq<nat>)
    returns (pc: int, ls: array<Linkstub>)
    requires WellFormed(il) && total == Count(il, |il|)
    requires |offsets| == |il| && forall i :: 0 <= i < |il| ==> offsets[i] == Offset(il, i)
    ensures fresh(ls) && ls.Length == total && pc == start + o.prefix + Offset(il, |il|)
    ensures forall i :: 0 <= i < |il| && il[i].kind.Leaves? ==>
                        Count(il, i) < total && ls[Count(il, i)] == Filled(o, il, i, total)
  {
    ls := new Linkstub[total](_ => Linkstub(Exit(0, OtherBranch, Direct), false, false, 0, NoStub));
    pc := start + o.prefix;
    var l := 0;
    for i := 0 to |il|
      invariant l == Count(il, i) && pc == start + o.prefix + Offset(il, i)
      invariant forall k :: 0 <= k < i && il[k].kind.Leaves? ==>
                          Count(il, k) < l && l <= total && ls[Count(il, k)] == Filled(o, il, k, total)
    {
      if il[i].kind.Leaves? {
        ExitAt(il, i, |il|);
        var e := il[i].kind.exit;
        ls[l] := Linkstub(e, l + 1 == total, Separated(o, e), (pc - start) % 0x1_0000, NoStub);
        l := l + 1;
      }
      if il[i].emitted {
        assert pc == start + o.prefix + offsets[i];
        pc := pc + il[i].len;
      }
    }
  }

  /** Third pass: places the stubs after the body. */
  method PlaceStubs(o: Options, ls: array<Linkstub>, start: int, single: bool, ghost es: seq<Exit>) returns (pc: int)
    requires |es| == ls.Length
    requires forall k :: 0 <= k < ls.Length ==>
             ls[k].exit == es[k] && ls[k].final == (k == ls.Length - 1) && ls[k].separate == Separated(o, es[k])
    requires forall k :: 0 <= k < |es| ==> ExitOk(es[k])
    requires single ==> |es| >= 2 && !es[|es| - 1].Indirect() && !es[|es| - 2].Indirect()
    modifies ls
    ensures pc == start + Taken(o, es, single, |es|)
    ensures forall k :: 0 <= k < ls.Length ==>
                        ls[k] == old(ls[k]).(stub := if HasStub(es[k])
                               then StubOf(o, es, single, start, k)
                               else old(ls[k].stub))
  {
    hide Taken, StubOf, HasStub, LocalSize;
    pc := start;
    TakenStart(o, es, single);
    var prev, stubSize := NoStub, 0;
    for k := 0 to ls.Length
      invariant pc == start + Taken(o, es, single, k)
      invariant forall j :: k <= j < ls.Length ==> ls[j] == old(ls[j])
      invariant forall j :: 0 <= j < k ==>
                          ls[j] == old(ls[j]).(stub := if HasStub(es[j])
                                 then StubOf(o, es, single, start, j)
                                 else old(ls[j].stub))
      invariant k > 0 && HasStub(es[k - 1]) ==> prev == StubOf(o, es, single, start, k - 1)
      invariant k > 0 && k < |es| && HasStub(es[k - 1]) && prev.Local? ==> prev.pc + stubSize == pc
    {
      TakenStep(o, es, single, start, k);
      var l := ls[k];
      if HasStub(l.exit) {
        var share := single && l.final;
        if l.separate {
          prev := if share then prev else Elsewhere(k);
          ls[k] := l.(stub := prev);
        } else {
          if share {
            pc := prev.pc;
          }
          prev := Local(pc);
          ls[k] := l.(stub := prev);
          if !share {
            stubSize := l.exit.Stub();
          }
          pc := pc + stubSize;
        }
      }
    }
  }

  lemma TakenStart(o: Options, es: seq<Exit>, single: bool)
    ensures Taken(o, es, single, 0) == 0
  {
  }

  /** One turn of the third pass: the shared stub is the previous exit's, which is of the same sort. */
  lemma TakenStep(o: Options, es: seq<Exit>, single: bool, base: int, k: nat)
    requires k < |es| && ExitOk(es[k]) && (k > 0 ==> ExitOk(es[k - 1]))
    requires single ==> |es| >= 2 && !es[|es| - 1].Indirect() && !es[|es| - 2].Indirect()
    ensures !HasStub(es[k]) ==> Taken(o, es, single, k + 1) == Taken(o, es, single, k)
    ensures HasStub(es[k]) && !Shared(es, single, k) ==>
              && StubOf(o, es, single, base, k) ==
                 (if Separated(o, es[k]) then Elsewhere(k) else Local(base + Taken(o, es, single, k)))
              && Taken(o, es, single, k + 1)
                 == Taken(o, es, single, k) + if Separated(o, es[k]) then 0 else es[k].Stub()
    ensures Shared(es, single, k) ==>
              && k > 0 && HasStub(es[k]) && HasStub(es[k - 1])
              && StubOf(o, es, single, base, k) == StubOf(o, es, single, base, k - 1)
              && Taken(o, es, single, k + 1) == Taken(o, es, single, k)
              && (Separated(o, es[k]) <==> !StubOf(o, es, single, base, k).Local?)
  {
  }

  lemma PairExits(o: Options, il: seq<Instr>)
    requires WellFormed(il)
    ensures var es := Exits(il, |il|);
            SinglePair(o, il) ==>
              |es| >= 2 && es[|es| - 1] == il[|il| - 1].kind.exit && es[|es| - 2] == il[|il| - 2].kind.exit
  {
    if SinglePair(o, il) {
      assert Exits(il, |il|) == Exits(il, |il| - 1) + [il[|il| - 1].kind.exit];
      assert Exits(il, |il| - 1) == Exits(il, |il| - 2) + [il[|il| - 2].kind.exit];
    }
  }

  lemma {:induction false} ExitsCome(il: seq<Instr>, n: nat, k: nat) returns (i: nat)
    requires n <= |il| && k < Count(il, n)
    ensures i < n && il[i].kind.Leaves? && Count(il, i) == k
  {
    if il[n - 1].kind.Leaves? && Count(il, n - 1) == k {
      i := n - 1;
    } else {
      i := ExitsCome(il, n - 1, k);
    }
  }

  lemma {:induction false} OffsetGrows(il: seq<Instr>, i: nat, n: nat)
    requires i <= n <= |il|
    ensures Offset(il, i) <= Offset(il, n)
  {
    if i < n { OffsetGrows(il, i, n - 1); }
  }

  /** The linkstub of instruction `i` once the fragment is emitted at `start`. */
  function Emitted(o: Options, il: seq<Instr>, start: int, i: nat): Linkstub
    requires WellFormed(il) && i < |il| && il[i].kind.Leaves?
  {
    ExitAt(il, i, |il|);
    var es, single := Exits(il, |il|), SinglePair(o, il);
    PairExits(o, il);
    Linkstub(il[i].kind.exit, Count(il, i) == |es| - 1, Separated(o, il[i].kind.exit), o.prefix + Offset(il, i),
             StubOf(o, es, single, start + o.prefix + Offset(il, |il|), Count(il, i)))
  }

  /**
   Emits the instructions at `start`.  Every exit gets the linkstub with its own number, which
   says where the exit was encoded and where its stub is; emission ends where the reserved space,
   without the copy of self-modifying code, ends.
   */
  method EmitFragment(o: Options, il: seq<Instr>, start: int)
    returns (ok: bool, size: int, end: int, ls: array<Linkstub>)
    requires WellFormed(il)
    ensures var es, single := Exits(il, |il|), SinglePair(o, il);
            && size == o.prefix + Offset(il, |il|) + o.copy + Reserved(o, es, single, |es|)
            && (ok <==> size <= MAX_FRAGMENT_SIZE)
            && (ok ==> ls.Length == |es| && forall i :: 0 <= i < |il| && il[i].kind.Leaves? ==>
                         Count(il, i) < ls.Length && ls[Count(il, i)] == Emitted(o, il, start, i))
            && (ok ==> forall k :: 0 <= k < ls.Length ==>
                         && (ls[k].stub.NoStub? <==> ls[k].exit.way.Unstubbed?)
                         && (ls[k].stub.Elsewhere? <==> o.separate && ls[k].exit.way.Direct?))
            && (ok ==> end == start + size - o.copy == start + o.prefix + Offset(il, |il|) + Taken(o, es, single, |es|))
  {
    hide Offset, Reserved, StubOf, Taken;
    var body, direct, indirect, stubs, single, offsets := Size(o, il);
    ghost var es := Exits(il, |il|);
    ExitsOk(il, |il|);
    PairExits(o, il);
    ReservedIsTaken(o, es, single, |es|);
    size := o.prefix + body + o.copy + stubs;
    ok, end := size <= MAX_FRAGMENT_SIZE, start;
    if !ok {
      ls := new Linkstub[0];
      return;
    }
    end, ls := SetLinkstubs(o, il, start, direct + indirect, offsets);
    forall k | 0 <= k < ls.Length
      ensures ls[k].exit == es[k] && ls[k].final == (k == ls.Length - 1)
              && ls[k].separate == Separated(o, es[k]) && ls[k].stub == NoStub
    {
      var i := ExitsCome(il, |il|, k);
      ExitAt(il, i, |il|);
    }
    ghost var filled := ls[..];
    end := PlaceStubs(o, ls, end, single, es);
    forall k | 0 <= k < ls.Length
      ensures ls[k].exit == es[k] && ls[k].stub == StubOf(o, es, single, start + o.prefix + Offset(il, |il|), k)
      ensures ls[k].stub.NoStub? <==> es[k].way.Unstubbed?
      ensures ls[k].stub.Elsewhere? <==> o.separate && es[k].way.Direct?
    {
      NoStubStays(o, es, single, start + o.prefix + Offset(il, |il|), k);
      StubKind(o, es, single, start + o.prefix + Offset(il, |il|), k);
    }
    forall i | 0 <= i < |il| && il[i].kind.Leaves?
      ensures Count(il, i) < ls.Length && ls[Count(il, i)] == Emitted(o, il, start, i)
    {
      ExitAt(il, i, |il|);
      OffsetGrows(il, i, |il|);
      assert filled[Count(il, i)] == Filled(o, il, i, ls.Length);
      NoStubStays(o, es, single, start + o.prefix + Offset(il, |il|), Count(il, i));
    }
  }

  lemma NoStubStays(o: Options, es: seq<Exit>, single: bool, base: int, k: nat)
    requires k < |es| && (single ==> |es| >= 2)
    ensures !HasStub(es[k]) ==> StubOf(o, es, single, base, k) == NoStub
  {
  }
}
