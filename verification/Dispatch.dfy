/**
 One thread's dispatch loop as a state machine: leaving the code cache, handling a system call,
 looking up or building the next fragment, and entering the cache again.  A step is one region of
 code between points where a signal can make a difference; signals arrive between any two steps.
 */
module Dispatch {
  const SYSCALL_LENGTH: int := 2

  /** An application address, or one of generated code. */
  datatype Addr = App(pc: int) | Gen(pc: int)

  datatype Where = InApp | InDispatch | InFcache

  datatype Control =
    | Arrived(first: bool, syscall: bool)                          // entering the dispatcher
    | Checking(syscall: bool)                                      // must a system call be handled?
    | PreSyscall                                                   // before the pre-handler
    | SysLoop(ignorable: bool, saved: Addr, tries: nat)            // about to enter for the system call
    | SysGate(ignorable: bool, saved: Addr, tries: nat)            // the entry routine's signal check
    | SysBack(ignorable: bool, saved: Addr, tries: nat)            // the entry routine returned
    | SysAborted(ignorable: bool, saved: Addr)                     // the system call is given up for now
    | Linking(first: bool)                                         // about to become able to link
    | ExitWork                                                     // rest of the processing of the last exit
    | Lookup                                                       // fragment lookup
    | Monitor                                                      // trace monitor
    | Build                                                        // basic block builder
    | Enter                                                        // lazy linking, then no more linking
    | Ready                                                        // past the flush check
    | Gate                                                         // the entry routine's signal check
    | Aborted                                                      // back from it for a signal
    | InCache(syscall: bool)                                       // running cached code or the system call

  /**
   `pending` is positive when a signal waits, negative while one is being handled.  `wanted`,
   `started` and `executed` record history: the tag last dispatched, and how many system calls
   that must not be given up had their pre-handler run and were made.
   */
  datatype State = State(control: Control, where_: Where, linking: bool, atSyscall: bool, pending: int,
                         nextTag: Addr, asynch: Addr, wanted: Addr, started: nat, executed: nat)

  datatype Option = None | Some(pc: int)

  /** The thread's next step, with what the environment decides. */
  datatype Step =
    | Signal
    | Begin(target: int, resume: Option)
    | Check
    | PreHandler(skip: bool, ignorable: bool, change: Option)
    | EnterSyscall(entry: int)
    | Pass
    | Return
    | Deliver(handler: Option)
    | BecomeLinking
    | FinishExit
    | Find(found: bool, replaced: Option)
    | Watch(keep: bool)
    | BuildBlock(built: bool)
    | StopLinking(flushed: bool)
    | EnterFragment(entry: int)
    | Leave(exitTag: int, isSyscall: bool)

  // ---------------------------------------------------------------- steps

  predicate Can(s: State, x: Step) {
    match x
    case Signal => true
    case Begin(_, _) => s.control.Arrived?
    case Check => s.control.Checking?
    case PreHandler(_, _, _) => s.control.PreSyscall?
    case EnterSyscall(_) => s.control.SysLoop?
    case Pass => s.control.SysGate? || s.control.Gate?
    case Return => s.control.SysBack?
    case Deliver(_) => s.control.SysAborted? || s.control.Aborted? || (s.control.ExitWork? && s.pending != 0)
    case BecomeLinking => s.control.Linking?
    case FinishExit => s.control.ExitWork? && s.pending == 0
    case Find(_, _) => s.control.Lookup?
    case Watch(_) => s.control.Monitor?
    case BuildBlock(_) => s.control.Build?
    case StopLinking(_) => s.control.Enter?
    case EnterFragment(_) => s.control.Ready?
    case Leave(_, _) => s.control.InCache?
  }

  function Do(s: State, x: Step): State
    requires Can(s, x)
  {
    match x
    case Signal => if s.pending == 0 then s.(pending := 1) else s
    case Begin(target, resume) => Begun(s, target, resume)
    case Check =>
      if !s.control.syscall then s.(control := Linking(false))
      else if s.pending > 0 then s.(nextTag := BeforeSyscall(s.nextTag), control := Linking(false))
      else s.(control := PreSyscall)
    case PreHandler(skip, ignorable, change) =>
      var target := if change.Some? then App(change.pc) else s.nextTag;
      if skip then s.(asynch := target, nextTag := target, control := Linking(false))
      else s.(asynch := target, atSyscall := true, control := SysLoop(ignorable, s.nextTag, 0),
              started := if ignorable then s.started else s.started + 1)
    case EnterSyscall(entry) =>
      var c := s.control;
      s.(pending := if !c.ignorable && s.pending > 0 then -1 else s.pending,
         nextTag := Gen(entry), where_ := InFcache, control := SysGate(c.ignorable, c.saved, c.tries + 1))
    case Pass => Passed(s)
    case Return =>
      var c := s.control;
      if !c.ignorable && s.pending > 0 then s.(control := SysLoop(c.ignorable, c.saved, c.tries))
      else s.(where_ := InDispatch, atSyscall := false, nextTag := BeforeSyscall(c.saved),
               control := SysAborted(c.ignorable, c.saved))
    case Deliver(handler) =>
      var t := if handler.Some? then s.(nextTag := App(handler.pc), pending := -1) else s.(pending := 0);
      t.(control := if s.control.SysAborted? then Linking(false) else Lookup)
    case BecomeLinking => s.(linking := true, control := if s.control.first then Lookup else ExitWork)
    case FinishExit => s.(control := Lookup)
    case Find(found, replaced) =>
      if replaced.Some? then s.(nextTag := App(replaced.pc))
      else s.(control := if found then Monitor else Build)
    case Watch(keep) => s.(control := if keep then Enter else Build)
    case BuildBlock(built) => s.(control := if built then Monitor else Lookup)
    case StopLinking(flushed) =>
      var t := s.(linking := false);
      if flushed then t.(linking := true, control := Lookup) else t.(control := Ready)
    case EnterFragment(entry) =>
      s.(wanted := s.nextTag, asynch := s.nextTag, nextTag := Gen(entry), where_ := InFcache, control := Gate)
    case Leave(exitTag, isSyscall) => s.(nextTag := App(exitTag), control := Arrived(false, isSyscall))
  }

  function BeforeSyscall(a: Addr): Addr {
    App(a.pc - SYSCALL_LENGTH)
  }

  /** Entering the dispatcher: a system call just made is completed and resumes where it said. */
  function Begun(s: State, target: int, resume: Option): State
    requires s.control.Arrived?
  {
    var t := s.(where_ := InDispatch,
                control := if s.control.first then Linking(true) else Checking(s.control.syscall));
    if s.control.first then t
    else if s.atSyscall then
      var a := if resume.Some? then App(resume.pc) else s.asynch;
      t.(atSyscall := false, nextTag := a)
    else t.(nextTag := App(target))
  }

  /** The entry routine runs on unless a signal waits. */
  function Passed(s: State): State
    requires s.control.SysGate? || s.control.Gate?
  {
    var c := s.control;
    if c.Gate? then
      if s.pending > 0 then s.(where_ := InDispatch, linking := true, nextTag := s.asynch, control := Aborted)
      else s.(control := InCache(false))
    else
      if s.pending > 0 then s.(control := SysBack(c.ignorable, c.saved, c.tries))
      else s.(control := InCache(true), executed := if c.ignorable then s.executed else s.executed + 1)
  }

  // ---------------------------------------------------------------- invariant

  /** Code that looks at or changes links, fragments or traces. */
  predicate Links(c: Control) {
    c.ExitWork? || c.Lookup? || c.Monitor? || c.Build? || c.Enter? || c.Aborted?
  }

  predicate InSyscall(c: Control) {
    c.SysLoop? || c.SysGate? || c.SysBack?
  }

  /** A system call with its pre-handler run that may not be given up. */
  predicate Owed(c: Control) {
    InSyscall(c) && !c.ignorable
  }

  predicate SyscallOk(s: State) {
    var c := s.control;
    && (InSyscall(c) ==> s.atSyscall && c.saved.App?)
    && (s.atSyscall ==> InSyscall(c) || c == InCache(true) || (c.Arrived? && !c.first))
    && (c.SysAborted? ==> c.ignorable && c.saved.App? && s.nextTag == BeforeSyscall(c.saved) && s.pending > 0)
    && (c.SysBack? ==> s.pending > 0) && (c.SysGate? || c.SysBack? ==> c.tries > 0)
    && (Owed(c) ==> c.tries <= (if c.SysGate? then 2 else 1))
    && (Owed(c) && c.SysLoop? && c.tries == 1 ==> s.pending > 0)
    && (Owed(c) && c.SysGate? && c.tries == 2 ==> s.pending < 0)
    && s.started == s.executed + if Owed(c) then 1 else 0
  }

  predicate TagsOk(s: State) {
    var c := s.control;
    && s.asynch.App?
    && (s.nextTag.App? || c.SysGate? || c.SysBack? || c.SysLoop? || c.Gate? || c.InCache?)
    && (c.Gate? ==> s.asynch == s.wanted)
    && (c.Aborted? ==> s.nextTag == s.wanted)
  }

  /** The thread is known to be in the cache exactly from entering it until it is back in the dispatcher. */
  predicate WhereOk(s: State) {
    var c := s.control;
    if c.Arrived? then c.first || s.where_ == InFcache
    else s.where_ == if c.Gate? || c.InCache? || c.SysGate? || c.SysBack? || (c.SysLoop? && c.tries > 0) then InFcache
                     else InDispatch
  }

  predicate Inv(s: State) {
    s.linking == Links(s.control) && SyscallOk(s) && TagsOk(s) && WhereOk(s)
  }

  predicate Init(s: State) {
    && s.control == Arrived(true, false) && !s.linking && !s.atSyscall && s.nextTag.App? && s.asynch.App?
    && s.started == s.executed
  }

  lemma StepInv(s: State, x: Step)
    requires Inv(s) && Can(s, x)
    ensures Inv(Do(s, x))
  {
  }

  ghost predicate StepOk(run: seq<State>, steps: seq<Step>, i: int)
    requires |run| == |steps| + 1
  {
    0 <= i < |steps| ==> Can(run[i], steps[i]) && run[i + 1] == Do(run[i], steps[i])
  }

  ghost predicate Run(run: seq<State>, steps: seq<Step>) {
    && |run| == |steps| + 1 && Init(run[0])
    && forall i {:trigger StepOk(run, steps, i)} :: StepOk(run, steps, i)
  }

  lemma RunStep(run: seq<State>, steps: seq<Step>, i: nat)
    requires Run(run, steps) && i < |steps|
    ensures i + 1 < |run| && Can(run[i], steps[i]) && run[i + 1] == Do(run[i], steps[i])
  {
    assert StepOk(run, steps, i);
  }

  lemma {:induction false} RunInv(run: seq<State>, steps: seq<Step>, i: nat)
    requires Run(run, steps) && i < |run|
    ensures Inv(run[i])
  {
    if i > 0 {
      RunInv(run, steps, i - 1);
      RunStep(run, steps, i - 1);
      StepInv(run[i - 1], steps[i - 1]);
    }
  }

  // ---------------------------------------------------------------- what every run keeps

  /** Points from which the thread enters the cache, runs in it, or runs system call handlers. */
  predicate NoLinks(c: Control) {
    c.Arrived? || c.Checking? || c.PreSyscall? || InSyscall(c) || c.Ready? || c.Gate? || c.InCache?
  }

  /**
   The thread may link exactly where it looks up, builds, monitors or lazily links fragments, and
   not where it enters or is in the cache; it becomes able to link only when it is not, is never
   at a system call then, and stops being able only when it is.
   */
  lemma LinkingDiscipline(run: seq<State>, steps: seq<Step>, i: nat)
    requires Run(run, steps) && i < |run|
    ensures Links(run[i].control) ==> run[i].linking
    ensures NoLinks(run[i].control) ==> !run[i].linking
    ensures i < |steps| && steps[i].BecomeLinking? ==> !run[i].linking && run[i + 1].linking && !run[i].atSyscall
    ensures i < |steps| && steps[i].StopLinking? ==> run[i].linking && run[i + 1].linking == steps[i].flushed
    ensures run[i].control.Aborted? ==> run[i].linking && run[i].nextTag == run[i].wanted
  {
    RunInv(run, steps, i);
    if i < |steps| { RunStep(run, steps, i); }
  }

  /** What is looked up or built is always an application address, never one of generated code. */
  lemma TagIsApplication(run: seq<State>, steps: seq<Step>, i: nat)
    requires Run(run, steps) && i < |run| && (Links(run[i].control) || run[i].control.Linking? || run[i].control.Ready?)
    ensures run[i].nextTag.App? && !run[i].atSyscall
  {
    RunInv(run, steps, i);
  }

  lemma {:induction false} StartedGrows(run: seq<State>, steps: seq<Step>, i: nat, j: nat)
    requires Run(run, steps) && i <= j < |run|
    ensures run[i].started <= run[j].started
  {
    if i < j {
      StartedGrows(run, steps, i, j - 1);
      RunStep(run, steps, j - 1);
    }
  }

  /**
   A system call that may not be given up, once its pre-handler has run, is made before the thread
   does anything else, however signals arrive.
   */
  lemma NeverAbandoned(run: seq<State>, steps: seq<Step>, i: nat, j: nat)
    requires Run(run, steps) && i <= j < |run| && Owed(run[i].control) && !Owed(run[j].control)
    ensures run[i].executed < run[j].executed
  {
    RunInv(run, steps, i);
    RunInv(run, steps, j);
    StartedGrows(run, steps, i, j);
  }

  /** It is made at the second try at the latest: a signal turns back at most the first. */
  lemma TwoTries(run: seq<State>, steps: seq<Step>, i: nat)
    requires Run(run, steps) && i < |run| && Owed(run[i].control)
    ensures run[i].control.tries <= 2
    ensures run[i].control == SysGate(false, run[i].control.saved, 2) && i < |steps| && steps[i] == Pass ==>
              run[i + 1].control == InCache(true)
  {
    RunInv(run, steps, i);
    if i < |steps| { RunStep(run, steps, i); }
  }

  /** The tag saved for a system call is the one the thread had before its pre-handler. */
  ghost predicate SavedAt(run: seq<State>, steps: seq<Step>, i: nat, saved: Addr) {
    exists j :: 0 <= j < i && j < |steps| && j < |run|
                && run[j].control == PreSyscall && steps[j].PreHandler? && run[j].nextTag == saved
  }

  lemma {:induction false} SavedBefore(run: seq<State>, steps: seq<Step>, i: nat)
    requires Run(run, steps) && i < |run| && (InSyscall(run[i].control) || run[i].control.SysAborted?)
    ensures SavedAt(run, steps, i, run[i].control.saved)
  {
    RunStep(run, steps, i - 1);
    if InSyscall(run[i - 1].control) || run[i - 1].control.SysAborted? {
      SavedBefore(run, steps, i - 1);
      var j :| 0 <= j < i - 1 && run[j].control == PreSyscall && steps[j].PreHandler?
               && run[j].nextTag == run[i - 1].control.saved;
      assert run[j].nextTag == run[i].control.saved;
    } else {
      assert run[i - 1].control == PreSyscall;
    }
  }

  /**
   A system call that is given up was ignorable; the thread is not at it any more and will come
   back to its instruction.
   */
  lemma AbandonedResumes(run: seq<State>, steps: seq<Step>, i: nat)
    requires Run(run, steps) && i < |run| && run[i].control.SysAborted?
    ensures run[i].control.ignorable && !run[i].atSyscall
    ensures run[i].nextTag == App(run[i].control.saved.pc - SYSCALL_LENGTH)
    ensures SavedAt(run, steps, i, run[i].control.saved)
  {
    RunInv(run, steps, i);
    SavedBefore(run, steps, i);
  }

  /** The address a pre-handler leaves for the thread to resume at after the system call. */
  function Target(s: State, x: Step): Addr
    requires x.PreHandler?
  {
    if x.change.Some? then App(x.change.pc) else s.nextTag
  }

  /** The call the thread is at was started by the pre-handler at step `j`, with this target. */
  ghost predicate StartedAt(run: seq<State>, steps: seq<Step>, i: nat, j: nat, target: Addr) {
    && j < i < |run| && j < |steps|
    && run[j].control == PreSyscall && steps[j].PreHandler? && !steps[j].skip && target == Target(run[j], steps[j])
    && forall k :: j < k <= i ==> run[k].atSyscall
  }

  /** While the thread is at a system call, its pre-handler's target stands, whatever signals and retries come. */
  lemma {:induction false} TargetStands(run: seq<State>, steps: seq<Step>, i: nat) returns (j: nat)
    requires Run(run, steps) && i < |run| && run[i].atSyscall
    ensures StartedAt(run, steps, i, j, run[i].asynch)
  {
    RunInv(run, steps, i);
    RunInv(run, steps, i - 1);
    RunStep(run, steps, i - 1);
    if run[i - 1].atSyscall {
      j := TargetStands(run, steps, i - 1);
    } else {
      j := i - 1;
    }
  }

  /** A thread that arrives still at a system call has made it since the pre-handler. */
  lemma {:induction false} MadeSince(run: seq<State>, steps: seq<Step>, i: nat, j: nat) returns (k: nat)
    requires Run(run, steps) && i < |run| && run[i].control.Arrived? && StartedAt(run, steps, i, j, run[i].asynch)
    ensures j < k < i && run[k].control == InCache(true)
  {
    RunInv(run, steps, i);
    RunInv(run, steps, i - 1);
    RunStep(run, steps, i - 1);
    if steps[i - 1].Signal? {
      RunStep(run, steps, j);
      k := MadeSince(run, steps, i - 1, j);
    } else {
      k := i - 1;
    }
  }

  /**
   A system call that completes was made since its pre-handler ran, and the thread resumes at the
   target that the pre-handler fixed unless the post-handler names another; it is then no longer
   at a system call.
   */
  lemma CompletedResumes(run: seq<State>, steps: seq<Step>, i: nat) returns (j: nat, k: nat)
    requires Run(run, steps) && i < |steps| && run[i].control.Arrived? && run[i].atSyscall && steps[i].Begin?
    ensures StartedAt(run, steps, i, j, run[i].asynch) && j < k < i && run[k].control == InCache(true)
    ensures !run[i + 1].atSyscall
    ensures run[i + 1].nextTag == if steps[i].resume.Some? then App(steps[i].resume.pc) else Target(run[j], steps[j])
  {
    RunInv(run, steps, i);
    j := TargetStands(run, steps, i);
    k := MadeSince(run, steps, i, j);
    RunStep(run, steps, i);
  }

  /**
   A system call reached with a signal pending is put off until a signal has been delivered: until
   then no pre-handler runs and the thread's tag stays at the system call instruction.
   */
  lemma {:induction false} DeferredUntilDelivered(run: seq<State>, steps: seq<Step>, i: nat, m: nat)
    requires Run(run, steps) && i < m < |run| && run[i].control == Checking(true) && steps[i].Check?
    requires run[i].pending > 0
    requires forall k :: i <= k < m ==> !steps[k].Deliver?
    ensures (run[m].control == Linking(false) || run[m].control == ExitWork) && run[m].pending > 0
    ensures run[m].nextTag == App(run[i].nextTag.pc - SYSCALL_LENGTH) && !run[m].atSyscall
    ensures run[m].started == run[i].started
  {
    RunInv(run, steps, m - 1);
    RunStep(run, steps, m - 1);
    if i < m - 1 {
      DeferredUntilDelivered(run, steps, i, m - 1);
    }
  }

  // ---------------------------------------------------------------- every system call is seen to

  predicate BeforeHandler(c: Control) {
    c == Arrived(false, true) || c == Checking(true) || c == PreSyscall
  }

  ghost predicate Handled(steps: seq<Step>, i: nat, n: nat) {
    exists k :: i < k < n && k < |steps| && steps[k].PreHandler?
  }

  /** At step `c` a signal was pending, and the thread is set to come back to the system call instruction. */
  ghost predicate PutOff(run: seq<State>, steps: seq<Step>, i: nat, c: int, n: nat)
    requires n < |run|
  {
    && i < c < n && c < |steps| && steps[c].Check? && run[c].control == Checking(true) && run[c].pending > 0
    && run[n].control == Linking(false) && run[n].pending > 0
    && run[n].nextTag == App(run[c].nextTag.pc - SYSCALL_LENGTH)
  }

  lemma {:induction false} Underway(run: seq<State>, steps: seq<Step>, i: nat, n: nat)
    requires Run(run, steps) && i < n < |run| && steps[i].Leave? && steps[i].isSyscall
    requires forall k :: i < k < n ==> !steps[k].BecomeLinking?
    ensures Handled(steps, i, n) || BeforeHandler(run[n].control) || exists c :: PutOff(run, steps, i, c, n)
  {
    var p := n - 1;
    RunStep(run, steps, p);
    if i < p {
      Underway(run, steps, i, p);
      if Handled(steps, i, p) {
      } else if c :| PutOff(run, steps, i, c, p) {
        assert PutOff(run, steps, i, c, n);
      } else if run[p].control == Checking(true) && steps[p].Check? && run[p].pending > 0 {
        assert PutOff(run, steps, i, p, n);
      }
    }
  }

  /**
   A thread that left the cache at a system call runs its pre-handler before it becomes able to
   link, unless a signal is pending; then it is set to come back to the system call instruction.
   */
  lemma SyscallSeenTo(run: seq<State>, steps: seq<Step>, i: nat, m: nat)
    requires Run(run, steps) && i < m < |steps| && steps[i].Leave? && steps[i].isSyscall && steps[m].BecomeLinking?
    requires forall k :: i < k < m ==> !steps[k].BecomeLinking?
    ensures Handled(steps, i, m) || exists c :: PutOff(run, steps, i, c, m)
  {
    RunStep(run, steps, m);
    Underway(run, steps, i, m);
  }

  /** A pre-handler runs only if the thread last left the cache at a system call, and once for each. */
  lemma {:induction false} HandlerAtSyscall(run: seq<State>, steps: seq<Step>, n: nat) returns (i: nat)
    requires Run(run, steps) && n < |run| && BeforeHandler(run[n].control)
    ensures i < n && steps[i].Leave? && steps[i].isSyscall
    ensures forall k :: i < k < n ==> !steps[k].Leave? && !steps[k].PreHandler?
  {
    RunStep(run, steps, n - 1);
    if BeforeHandler(run[n - 1].control) {
      i := HandlerAtSyscall(run, steps, n - 1);
    } else {
      i := n - 1;
    }
  }

  // ---------------------------------------------------------------- signals first

  predicate Ignored(c: Control) {
    InSyscall(c) && c.ignorable
  }

  /**
   A signal that arrives while the thread is not in the cache, and no other is being handled, is
   delivered before it runs cached code or makes a system call again, except one that may not be
   given up.
   */
  lemma {:induction false} SignalFirst(run: seq<State>, steps: seq<Step>, i: nat, n: nat)
    requires Run(run, steps) && i < n < |run| && steps[i].Signal? && run[i].pending >= 0 && !run[i].control.InCache?
    requires forall k :: i < k < n ==> !steps[k].Deliver? && (steps[k].EnterSyscall? ==> Ignored(run[k].control))
    ensures run[n].pending > 0 && !run[n].control.InCache?
  {
    RunStep(run, steps, n - 1);
    if i + 1 < n { SignalFirst(run, steps, i, n - 1); }
  }

  lemma {:induction false} NoneWaits(run: seq<State>, steps: seq<Step>, i: nat, n: nat)
    requires Run(run, steps) && i < n < |run| && steps[i].Deliver? && forall k :: i < k < n ==> !steps[k].Signal?
    ensures run[n].pending <= 0
  {
    RunStep(run, steps, n - 1);
    if i + 1 < n { NoneWaits(run, steps, i, n - 1); }
  }

  /** Every signal is delivered once: between two deliveries of waiting signals one has arrived. */
  lemma DeliveredOnce(run: seq<State>, steps: seq<Step>, i: nat, j: nat)
    requires Run(run, steps) && i < j < |steps| && steps[i].Deliver? && steps[j].Deliver? && run[j].pending > 0
    ensures exists k :: i < k < j && steps[k].Signal?
  {
    if forall k :: i < k < j ==> !steps[k].Signal? { NoneWaits(run, steps, i, j); }
  }

  // ---------------------------------------------------------------- what is entered

  /** Points from which the thread goes on to the lookup. */
  predicate Returning(c: Control) {
    c == Checking(false) || c == Linking(false) || c == ExitWork || c == Lookup
  }

  /** Between steps `i` and `n` nothing is looked up and no signal handler takes over. */
  ghost predicate NoDetour(steps: seq<Step>, i: nat, n: nat) {
    forall k :: i < k < n && k < |steps| ==> !steps[k].Find? && (steps[k].Deliver? ==> steps[k].handler == None)
  }

  lemma {:induction false} TagCarried(run: seq<State>, steps: seq<Step>, i: nat, n: nat)
    requires Run(run, steps) && i < n < |run| && Returning(run[i + 1].control) && NoDetour(steps, i, n)
    ensures Returning(run[n].control) && run[n].nextTag == run[i + 1].nextTag
  {
    if i + 1 < n {
      TagCarried(run, steps, i, n - 1);
      RunStep(run, steps, n - 1);
    }
  }

  /**
   A thread that left the cache at an ordinary exit looks up that exit's target; after a system call
   it looks up where the call resumes; unless a signal handler comes first.
   */
  lemma LooksUpTarget(run: seq<State>, steps: seq<Step>, i: nat, n: nat)
    requires Run(run, steps) && i < n < |steps| && steps[i].Begin? && run[i].control == Arrived(false, false)
    requires steps[n].Find? && NoDetour(steps, i, n)
    ensures run[n].nextTag == if !run[i].atSyscall then App(steps[i].target)
                              else if steps[i].resume.Some? then App(steps[i].resume.pc) else run[i].asynch
  {
    RunStep(run, steps, i);
    TagCarried(run, steps, i, n);
  }

  /** A signal handler is what is looked up next; if there is none, what the thread wanted before. */
  lemma LooksUpHandler(run: seq<State>, steps: seq<Step>, i: nat, n: nat)
    requires Run(run, steps) && i < n < |steps| && steps[i].Deliver? && steps[n].Find? && NoDetour(steps, i, n)
    ensures run[n].nextTag == if steps[i].handler.Some? then App(steps[i].handler.pc) else run[i].nextTag
    ensures steps[i].handler == None && run[i].control.Aborted? ==> run[n].nextTag == run[i].wanted
  {
    RunInv(run, steps, i);
    RunStep(run, steps, i);
    TagCarried(run, steps, i, n);
  }

  /** A system call that is skipped resumes where its handler says, and a replaced tag is looked up instead. */
  lemma LooksUpRedirected(run: seq<State>, steps: seq<Step>, i: nat, n: nat)
    requires Run(run, steps) && i < n < |steps| && steps[n].Find? && NoDetour(steps, i, n)
    requires (steps[i].PreHandler? && steps[i].skip) || (steps[i].Find? && steps[i].replaced.Some?)
    ensures run[n].nextTag == if steps[i].PreHandler? then Target(run[i], steps[i]) else App(steps[i].replaced.pc)
  {
    RunStep(run, steps, i);
    TagCarried(run, steps, i, n);
  }

  lemma {:induction false} OnlySignals(run: seq<State>, steps: seq<Step>, i: nat, n: nat)
    requires Run(run, steps) && i <= n < |run| && forall j :: i <= j < n ==> steps[j].Signal?
    ensures run[n].control == run[i].control
  {
    if i < n {
      OnlySignals(run, steps, i, n - 1);
      RunStep(run, steps, n - 1);
    }
  }

  /** What was found or built goes to the monitor, what that keeps to the flush check, and what passes is entered. */
  lemma SelectedIsEntered(run: seq<State>, steps: seq<Step>, i: nat, n: nat)
    requires Run(run, steps) && i < n < |steps| && !steps[n].Signal? && forall j :: i < j < n ==> steps[j].Signal?
    ensures steps[i] == Find(true, None) || steps[i] == BuildBlock(true) ==> steps[n].Watch?
    ensures steps[i] == Watch(true) ==> steps[n].StopLinking?
    ensures steps[i] == StopLinking(false) ==> steps[n].EnterFragment?
  {
    RunStep(run, steps, i);
    RunStep(run, steps, n);
    OnlySignals(run, steps, i + 1, n);
  }

  /** A block is built only if the lookup failed or the monitor turned the fragment down. */
  lemma {:induction false} BuildsWhenNeeded(run: seq<State>, steps: seq<Step>, n: nat) returns (k: nat)
    requires Run(run, steps) && n < |run| && run[n].control == Build
    ensures k < n && (steps[k] == Find(false, None) || steps[k] == Watch(false)) && run[k].nextTag == run[n].nextTag
    ensures forall j :: k < j < n ==> steps[j].Signal?
  {
    RunStep(run, steps, n - 1);
    if run[n - 1].control == Build {
      k := BuildsWhenNeeded(run, steps, n - 1);
    } else {
      k := n - 1;
    }
  }

  /** At `k` a fragment for the current tag was found or built, and since then only signals came. */
  ghost predicate Selected(run: seq<State>, steps: seq<Step>, k: int, n: nat)
    requires n < |run|
  {
    && 0 <= k < n && k < |steps| && (steps[k] == Find(true, None) || steps[k] == BuildBlock(true))
    && (forall j :: k < j < n && j < |steps| ==> steps[j].Signal?)
    && run[k].nextTag == run[n].nextTag
  }

  lemma {:induction false} MonitorSelects(run: seq<State>, steps: seq<Step>, n: nat) returns (k: nat)
    requires Run(run, steps) && n < |run| && run[n].control == Monitor
    ensures Selected(run, steps, k, n)
  {
    RunStep(run, steps, n - 1);
    if run[n - 1].control == Monitor {
      k := MonitorSelects(run, steps, n - 1);
    } else {
      k := n - 1;
    }
  }

  /** The monitor kept that fragment, and the tag has not changed. */
  lemma {:induction false} EnterSelects(run: seq<State>, steps: seq<Step>, n: nat) returns (k: nat, m: nat)
    requires Run(run, steps) && n < |run| && (run[n].control == Enter || run[n].control == Ready)
    ensures m < n && steps[m] == Watch(true) && Selected(run, steps, k, m) && run[m].nextTag == run[n].nextTag
    ensures forall j :: m < j < n ==> steps[j].Signal? || steps[j] == StopLinking(false)
  {
    RunStep(run, steps, n - 1);
    if run[n - 1].control == Monitor {
      m := n - 1;
      k := MonitorSelects(run, steps, m);
    } else {
      k, m := EnterSelects(run, steps, n - 1);
    }
  }

  /**
   The thread enters only a fragment that was found or built for the tag it wants, that the
   monitor kept, and that no flush check turned down.
   */
  lemma EntersSelected(run: seq<State>, steps: seq<Step>, i: nat) returns (k: nat, m: nat)
    requires Run(run, steps) && i < |steps| && steps[i].EnterFragment?
    ensures m < i && steps[m] == Watch(true) && Selected(run, steps, k, m)
    ensures run[k].nextTag == run[i].nextTag == run[i + 1].wanted
    ensures forall j :: m < j < i ==> steps[j].Signal? || steps[j] == StopLinking(false)
  {
    RunStep(run, steps, i);
    k, m := EnterSelects(run, steps, i);
  }
}
