/** The life of a handle among many tasks. A closed handle is parked with its mutex alive and wiped
    for the next open; a task that blocked on the mutex meanwhile re-checks the open flag and the
    generation stamp once it gets in. */
module Lifecycle {
  import opened Storage

  type Task = nat
  type Id = nat

  /** A handle. `owner` and `depth` are its recursive mutex. `live` says that the current incarnation
      has been published and not yet torn down, `custodian` which task is opening or closing it. */
  datatype Handle = Handle(isOpen: bool, generation: nat, owner: Option<Task>, depth: nat,
                           live: bool, custodian: Option<Task>)

  /** Where a task is. */
  datatype Pc =
    | Idle
    | Sampled(h: Id, g: nat)                        // has read the generation, waits for the mutex
    | Checking(h: Id, g: nat)                       // holds the mutex, about to re-check
    | Inside(h: Id, gens: seq<nat>)                 // operating; one sample per nested operation
    | Reentering(h: Id, gens: seq<nat>, g: nat)     // nested operation has sampled
    | CloseWait(h: Id)
    | CloseHeld(h: Id)
    | CloseTorn(h: Id)                              // flag cleared, still holds the mutex
    | CloseDone(h: Id)                              // unlocked, about to park the handle
    | OpenWiped(h: Id)                              // has a zeroed handle
    | OpenHeld(h: Id)
    | OpenSet(h: Id)                                // flag published, still holds the mutex

  datatype State = State(handles: map<Id, Handle>, recycler: Option<Id>, pcs: map<Task, Pc>)

  function PcOf(s: State, t: Task): Pc {
    if t in s.pcs then s.pcs[t] else Idle
  }

  datatype Step =
    | Sample(t: Task, h: Id)
    | Take(t: Task)
    | GiveUp(t: Task)
    | Check(t: Task)
    | Nest(t: Task)
    | NestTake(t: Task)
    | Leave(t: Task)
    | LoseFile(t: Task)
    | BeginClose(t: Task, h: Id)
    | CloseTake(t: Task)
    | CloseTimeout(t: Task)
    | TearDown(t: Task)
    | CloseRelease(t: Task)
    | Park(t: Task)
    | Recycle(t: Task)
    | Allocate(t: Task, h: Id)
    | OpenFails(t: Task)
    | OpenTake(t: Task)
    | Publish(t: Task)
    | OpenRelease(t: Task)

  predicate Free(s: State, h: Id) {
    h in s.handles && s.handles[h].owner.None?
  }

  predicate Enabled(s: State, step: Step) {
    var pc := PcOf(s, step.t);
    match step
    case Sample(_, h) => pc.Idle? && h in s.handles
    case Take(_) => pc.Sampled? && Free(s, pc.h)
    case GiveUp(_) => pc.Sampled?
    case Check(_) => pc.Checking? && pc.h in s.handles
    case Nest(_) => pc.Inside? && pc.h in s.handles
    case NestTake(_) => pc.Reentering? && pc.h in s.handles && s.handles[pc.h].owner == Some(step.t)
    case Leave(_) => pc.Inside? && |pc.gens| > 0 && pc.h in s.handles
    // An operation may lose its file (a failed reopen in sync); it clears the flag and leaves.
    case LoseFile(_) => pc.Inside? && |pc.gens| == 1 && pc.h in s.handles
    // One closer per incarnation, and not from inside an operation.
    case BeginClose(_, h) => pc.Idle? && h in s.handles && s.handles[h].live && s.handles[h].custodian.None?
    case CloseTake(_) => pc.CloseWait? && Free(s, pc.h)
    case CloseTimeout(_) => pc.CloseWait? && pc.h in s.handles
    case TearDown(_) => pc.CloseHeld? && pc.h in s.handles
    case CloseRelease(_) => pc.CloseTorn? && pc.h in s.handles
    case Park(_) => pc.CloseDone? && pc.h in s.handles
    case Recycle(_) => pc.Idle? && s.recycler.Some? && s.recycler.value in s.handles
    case Allocate(_, h) => pc.Idle? && s.recycler.None? && h !in s.handles
    case OpenFails(_) => pc.OpenWiped? && pc.h in s.handles
    case OpenTake(_) => pc.OpenWiped? && Free(s, pc.h)
    case Publish(_) => pc.OpenHeld? && pc.h in s.handles
    case OpenRelease(_) => pc.OpenSet? && pc.h in s.handles
  }

  function With(s: State, h: Id, handle: Handle, t: Task, pc: Pc): State {
    s.(handles := s.handles[h := handle], pcs := s.pcs[t := pc])
  }

  /** Parking: the first closed handle waits for reuse, any further one is leaked. */
  function Parked(s: State, h: Id, t: Task): State
    requires h in s.handles
  {
    var s' := With(s, h, s.handles[h].(custodian := None), t, Idle);
    if s.recycler.None? then s'.(recycler := Some(h)) else s'
  }

  function Released(x: Handle): Handle { x.(owner := None, depth := 0) }

  function Do(s: State, step: Step): State
    requires Enabled(s, step)
  {
    var t := step.t;
    var pc := PcOf(s, t);
    match step
    case Sample(_, h) => s.(pcs := s.pcs[t := Sampled(h, s.handles[h].generation)])
    case Take(_) => With(s, pc.h, s.handles[pc.h].(owner := Some(t), depth := 1), t, Checking(pc.h, pc.g))
    case GiveUp(_) => s.(pcs := s.pcs[t := Idle])
    case Check(_) =>
      var x := s.handles[pc.h];
      if !x.isOpen || x.generation != pc.g then With(s, pc.h, Released(x), t, Idle)
      else s.(pcs := s.pcs[t := Inside(pc.h, [pc.g])])
    case Nest(_) => s.(pcs := s.pcs[t := Reentering(pc.h, pc.gens, s.handles[pc.h].generation)])
    case NestTake(_) =>
      var x := s.handles[pc.h];
      if !x.isOpen || x.generation != pc.g then s.(pcs := s.pcs[t := Inside(pc.h, pc.gens)])
      else With(s, pc.h, x.(depth := x.depth + 1), t, Inside(pc.h, pc.gens + [pc.g]))
    case Leave(_) =>
      var x := s.handles[pc.h];
      if |pc.gens| == 1 then With(s, pc.h, Released(x), t, Idle)
      else With(s, pc.h, x.(depth := |pc.gens| - 1), t, Inside(pc.h, pc.gens[..|pc.gens| - 1]))
    case LoseFile(_) => With(s, pc.h, Released(s.handles[pc.h].(isOpen := false)), t, Idle)
    case BeginClose(_, h) => With(s, h, s.handles[h].(custodian := Some(t)), t, CloseWait(h))
    case CloseTake(_) => With(s, pc.h, s.handles[pc.h].(owner := Some(t), depth := 1), t, CloseHeld(pc.h))
    case CloseTimeout(_) => With(s, pc.h, s.handles[pc.h].(custodian := None), t, Idle)
    case TearDown(_) => With(s, pc.h, s.handles[pc.h].(isOpen := false, live := false), t, CloseTorn(pc.h))
    case CloseRelease(_) => With(s, pc.h, Released(s.handles[pc.h]), t, CloseDone(pc.h))
    case Park(_) => Parked(s, pc.h, t)
    case Recycle(_) =>
      // The wipe keeps the mutex and bumps the generation.
      var h := s.recycler.value;
      var x := s.handles[h];
      With(s, h, Handle(false, x.generation + 1, x.owner, x.depth, false, Some(t)), t, OpenWiped(h)).(recycler := None)
    case Allocate(_, h) => With(s, h, Handle(false, 0, None, 0, false, Some(t)), t, OpenWiped(h))
    case OpenFails(_) => Parked(s, pc.h, t)
    case OpenTake(_) => With(s, pc.h, s.handles[pc.h].(owner := Some(t), depth := 1), t, OpenHeld(pc.h))
    case Publish(_) => With(s, pc.h, s.handles[pc.h].(isOpen := true, live := true), t, OpenSet(pc.h))
    case OpenRelease(_) => With(s, pc.h, Released(s.handles[pc.h]).(custodian := None), t, Idle)
  }

  // The invariant

  /** A task at `pc` holds the mutex of `h`. */
  predicate Holds(pc: Pc, h: Id) {
    match pc
    case Checking(i, _) => i == h
    case Inside(i, _) => i == h
    case Reentering(i, _, _) => i == h
    case CloseHeld(i) => i == h
    case CloseTorn(i) => i == h
    case OpenHeld(i) => i == h
    case OpenSet(i) => i == h
    case _ => false
  }

  /** A task at `pc` is opening or closing `h`. */
  predicate Keeps(pc: Pc, h: Id) {
    match pc
    case CloseWait(i) => i == h
    case CloseHeld(i) => i == h
    case CloseTorn(i) => i == h
    case CloseDone(i) => i == h
    case OpenWiped(i) => i == h
    case OpenHeld(i) => i == h
    case OpenSet(i) => i == h
    case _ => false
  }

  /** An operation runs on an open handle whose generation is the one it sampled. */
  ghost predicate Safe(x: Handle, gens: seq<nat>) {
    x.isOpen && |gens| > 0 && forall i :: 0 <= i < |gens| ==> gens[i] == x.generation
  }

  ghost predicate TaskInv(s: State, t: Task) {
    var pc := PcOf(s, t);
    !pc.Idle? ==>
    && pc.h in s.handles
    && var x := s.handles[pc.h];
       && (Holds(pc, pc.h) ==> x.owner == Some(t) && x.depth == (if pc.Inside? || pc.Reentering? then |pc.gens| else 1))
       && (Keeps(pc, pc.h) ==> x.custodian == Some(t))
       && (pc.Inside? || pc.Reentering? ==> Safe(x, pc.gens))
       && (pc.Reentering? ==> pc.g == x.generation)
       && (pc.CloseWait? || pc.CloseHeld? ==> x.live)
       && (pc.CloseTorn? || pc.CloseDone? || pc.OpenWiped? || pc.OpenHeld? ==> !x.isOpen && !x.live)
  }

  ghost predicate HandleInv(s: State, h: Id)
    requires h in s.handles
  {
    var x := s.handles[h];
    && (x.owner.Some? ==> Holds(PcOf(s, x.owner.value), h))
    && (x.custodian.Some? ==> Keeps(PcOf(s, x.custodian.value), h))
    && (x.isOpen ==> x.live)
    && (s.recycler == Some(h) ==> !x.live && x.custodian.None?)
  }

  ghost predicate Inv(s: State) {
    && (forall t: Task :: TaskInv(s, t))
    && (forall h: Id :: h in s.handles ==> HandleInv(s, h))
    && (s.recycler.Some? ==> s.recycler.value in s.handles)
  }

  predicate Entering(step: Step) {
    step.Sample? || step.Take? || step.GiveUp? || step.Check?
  }

  predicate Operating(step: Step) {
    step.Nest? || step.NestTake? || step.Leave? || step.LoseFile?
  }

  predicate Closing(step: Step) {
    step.BeginClose? || step.CloseTake? || step.CloseTimeout? || step.TearDown? || step.CloseRelease? || step.Park?
  }

  predicate Opening(step: Step) {
    !Entering(step) && !Operating(step) && !Closing(step)
  }

  lemma TaskOf(s: State, t: Task)
    requires Inv(s)
    ensures TaskInv(s, t)
    ensures !PcOf(s, t).Idle? ==> PcOf(s, t).h in s.handles && HandleInv(s, PcOf(s, t).h)
  {
    assert TaskInv(s, t);
  }

  lemma HandleOf(s: State, h: Id)
    requires Inv(s) && h in s.handles
    ensures HandleInv(s, h)
  {
  }

  lemma TaskEntering(s: State, step: Step, t: Task)
    requires Inv(s) && Enabled(s, step) && Entering(step)
    ensures TaskInv(Do(s, step), t)
  {
    hide Inv;
    TaskOf(s, step.t);
    TaskOf(s, t);
  }

  lemma HandleEntering(s: State, step: Step, h: Id)
    requires Inv(s) && Enabled(s, step) && Entering(step) && h in Do(s, step).handles
    ensures HandleInv(Do(s, step), h)
  {
    hide Inv;
    TaskOf(s, step.t);
    if h in s.handles {
      HandleOf(s, h);
    }
  }

  lemma TaskOperating(s: State, step: Step, t: Task)
    requires Inv(s) && Enabled(s, step) && Operating(step)
    ensures TaskInv(Do(s, step), t)
  {
    hide Inv;
    TaskOf(s, step.t);
    TaskOf(s, t);
  }

  lemma HandleOperating(s: State, step: Step, h: Id)
    requires Inv(s) && Enabled(s, step) && Operating(step) && h in Do(s, step).handles
    ensures HandleInv(Do(s, step), h)
  {
    hide Inv;
    TaskOf(s, step.t);
    if h in s.handles {
      HandleOf(s, h);
    }
  }

  lemma TaskClosing(s: State, step: Step, t: Task)
    requires Inv(s) && Enabled(s, step) && Closing(step)
    ensures TaskInv(Do(s, step), t)
  {
    hide Inv;
    TaskOf(s, step.t);
    TaskOf(s, t);
  }

  lemma HandleClosing(s: State, step: Step, h: Id)
    requires Inv(s) && Enabled(s, step) && Closing(step) && h in Do(s, step).handles
    ensures HandleInv(Do(s, step), h)
  {
    hide Inv;
    TaskOf(s, step.t);
    if h in s.handles {
      HandleOf(s, h);
    }
  }

  lemma TaskOpening(s: State, step: Step, t: Task)
    requires Inv(s) && Enabled(s, step) && Opening(step)
    ensures TaskInv(Do(s, step), t)
  {
    hide Inv;
    TaskOf(s, step.t);
    TaskOf(s, t);
  }

  lemma HandleOpening(s: State, step: Step, h: Id)
    requires Inv(s) && Enabled(s, step) && Opening(step) && h in Do(s, step).handles
    ensures HandleInv(Do(s, step), h)
  {
    hide Inv;
    TaskOf(s, step.t);
    if h in s.handles {
      HandleOf(s, h);
    }
  }

  /** Every step of every task keeps the invariant. */
  lemma StepKeeps(s: State, step: Step)
    requires Inv(s) && Enabled(s, step)
    ensures Inv(Do(s, step))
  {
    hide TaskInv, HandleInv, Enabled, Do;
    forall t: Task
      ensures TaskInv(Do(s, step), t)
    {
      if Entering(step) { TaskEntering(s, step, t); }
      else if Operating(step) { TaskOperating(s, step, t); }
      else if Closing(step) { TaskClosing(s, step, t); }
      else { TaskOpening(s, step, t); }
    }
    forall h: Id | h in Do(s, step).handles
      ensures HandleInv(Do(s, step), h)
    {
      if Entering(step) { HandleEntering(s, step, h); }
      else if Operating(step) { HandleOperating(s, step, h); }
      else if Closing(step) { HandleClosing(s, step, h); }
      else { HandleOpening(s, step, h); }
    }
    RecyclerKnown(s, step);
  }

  lemma RecyclerKnown(s: State, step: Step)
    requires Inv(s) && Enabled(s, step)
    ensures Do(s, step).recycler.Some? ==> Do(s, step).recycler.value in Do(s, step).handles
  {
  }

  // Runs

  ghost predicate IsRun(states: seq<State>, steps: seq<Step>) {
    && |states| == |steps| + 1
    && states[0] == State(map[], None, map[])
    && forall i :: 0 <= i < |steps| ==> Follows(states[i], steps[i], states[i + 1])
  }

  ghost predicate Follows(s: State, step: Step, s': State) {
    Enabled(s, step) && s' == Do(s, step)
  }

  lemma {:induction false} RunKeeps(states: seq<State>, steps: seq<Step>, n: nat)
    requires IsRun(states, steps) && n <= |steps|
    ensures Inv(states[n])
  {
    hide Inv, Do, Enabled;
    if n == 0 {
      Empty();
    } else {
      RunKeeps(states, steps, n - 1);
      assert Follows(states[n - 1], steps[n - 1], states[n - 1 + 1]);
      StepKeeps(states[n - 1], steps[n - 1]);
    }
  }

  lemma Empty()
    ensures Inv(State(map[], None, map[]))
  {
  }

  /** Past the check on `h`, possibly entering a nested operation. */
  predicate Operates(pc: Pc, h: Id) {
    (pc.Inside? || pc.Reentering?) && pc.h == h
  }

  /** In every run of any number of tasks, an operation past the check runs on an open handle, alone
      with its mutex, and the handle's generation is the one that it, and every operation around it,
      sampled. The handle is not parked. */
  lemma OperationsAreSafe(states: seq<State>, steps: seq<Step>, n: nat, t: Task, h: Id)
    requires IsRun(states, steps) && n <= |steps| && Operates(PcOf(states[n], t), h)
    ensures h in states[n].handles
    ensures Safe(states[n].handles[h], PcOf(states[n], t).gens)
    ensures states[n].handles[h].owner == Some(t)
    ensures states[n].recycler != Some(h)
    ensures forall u: Task :: u != t ==> !Holds(PcOf(states[n], u), h)
  {
    RunKeeps(states, steps, n);
    assert TaskInv(states[n], t) && HandleInv(states[n], h);
    forall u: Task | u != t
      ensures !Holds(PcOf(states[n], u), h)
    {
      assert TaskInv(states[n], u);
    }
  }

  /** And as long as an operation stays past the check the handle stays the same incarnation: between any
      two points of that stretch it is neither closed nor recycled. */
  lemma {:induction false} IncarnationLasts(states: seq<State>, steps: seq<Step>, m: nat, n: nat, t: Task, h: Id)
    requires IsRun(states, steps) && m <= n <= |steps|
    requires forall i :: m <= i <= n ==> Operates(PcOf(states[i], t), h)
    requires Operates(PcOf(states[m], t), h) && Operates(PcOf(states[n], t), h)
    ensures h in states[m].handles && h in states[n].handles
    ensures states[m].handles[h].generation == states[n].handles[h].generation
    ensures PcOf(states[n], t).gens != [] && PcOf(states[m], t).gens != []
    ensures PcOf(states[n], t).gens[0] == PcOf(states[m], t).gens[0]
  {
    hide IsRun, Do, Enabled, Holds, PcOf;
    OperationsAreSafe(states, steps, m, t, h);
    OperationsAreSafe(states, steps, n, t, h);
    if m < n {
      IncarnationLasts(states, steps, m, n - 1, t, h);
      OperationsAreSafe(states, steps, n - 1, t, h);
      FirstSampleStays(states, steps, n - 1, t, h);
    }
  }

  lemma FirstSampleStays(states: seq<State>, steps: seq<Step>, n: nat, t: Task, h: Id)
    requires IsRun(states, steps) && n < |steps|
    requires Operates(PcOf(states[n], t), h) && Operates(PcOf(states[n + 1], t), h)
    requires PcOf(states[n], t).gens != []
    ensures PcOf(states[n + 1], t).gens != [] && PcOf(states[n + 1], t).gens[0] == PcOf(states[n], t).gens[0]
  {
    assert Follows(states[n], steps[n], states[n + 1]);
  }

  // Who is admitted

  /** The re-check admits a task exactly when the handle is open and of the generation that it sampled:
      then it operates, alone with the mutex; otherwise it is turned away and the mutex is free. */
  lemma CheckAdmits(s: State, t: Task)
    requires Inv(s) && PcOf(s, t).Checking?
    ensures var h, g := PcOf(s, t).h, PcOf(s, t).g;
            && h in s.handles && Enabled(s, Check(t))
            && var s' := Do(s, Check(t));
               && h in s'.handles && s'.handles[h].isOpen == s.handles[h].isOpen
               && s'.handles[h].generation == s.handles[h].generation
               && if s.handles[h].isOpen && s.handles[h].generation == g
                  then PcOf(s', t) == Inside(h, [g]) && s'.handles[h].owner == Some(t)
                  else PcOf(s', t) == Idle && s'.handles[h].owner == None
  {
    hide Inv;
    TaskOf(s, t);
  }

  /** A nested operation on the handle that the task operates on is always admitted. */
  lemma NestAdmits(s: State, t: Task)
    requires Inv(s) && PcOf(s, t).Reentering?
    ensures var pc := PcOf(s, t);
            && pc.h in s.handles && Enabled(s, NestTake(t))
            && var s' := Do(s, NestTake(t));
               && PcOf(s', t) == Inside(pc.h, pc.gens + [pc.g])
               && pc.h in s'.handles && s'.handles[pc.h].owner == Some(t)
               && s'.handles[pc.h].depth == s.handles[pc.h].depth + 1
  {
    hide Inv;
    TaskOf(s, t);
  }

  /** An idle task that finds an open handle with a free mutex gets to operate on it. */
  lemma EntryAdmits(s: State, t: Task, h: Id)
    requires Inv(s) && PcOf(s, t).Idle? && h in s.handles && s.handles[h].isOpen && s.handles[h].owner.None?
    ensures Enabled(s, Sample(t, h))
    ensures var s1 := Do(s, Sample(t, h));
            && Enabled(s1, Take(t))
            && var s2 := Do(s1, Take(t));
               && Enabled(s2, Check(t))
               && PcOf(Do(s2, Check(t)), t) == Inside(h, [s.handles[h].generation])
  {
    hide Inv;
  }

  /** A task that sampled a handle before it was closed is turned away, also when it is open again. */
  lemma StaleRefused(s: State, t: Task)
    requires Inv(s) && PcOf(s, t).Sampled? && Free(s, PcOf(s, t).h)
    requires var x := s.handles[PcOf(s, t).h]; !x.isOpen || x.generation != PcOf(s, t).g
    ensures Enabled(s, Take(t))
    ensures var s1 := Do(s, Take(t));
            && Enabled(s1, Check(t))
            && PcOf(Do(s1, Check(t)), t) == Idle
  {
    hide Inv;
  }

  /** A task that has a wiped handle opens it in three steps. */
  lemma WipedOpens(s: State, t: Task, h: Id)
    requires PcOf(s, t) == OpenWiped(h) && h in s.handles && s.handles[h].owner.None?
    ensures Enabled(s, OpenTake(t))
    ensures var s1 := Do(s, OpenTake(t));
            && Enabled(s1, Publish(t))
            && var s2 := Do(s1, Publish(t));
               && Enabled(s2, OpenRelease(t))
               && var s3 := Do(s2, OpenRelease(t));
                  && h in s3.handles && s3.recycler == s.recycler && PcOf(s3, t) == Idle
                  && s3.handles[h] == Handle(true, s.handles[h].generation, None, 0, true, None)
  {
  }

  /** Where nothing is parked an idle task opens a new handle in four steps. */
  lemma NewHandleOpens(s: State, t: Task, h: Id)
    requires PcOf(s, t).Idle? && s.recycler.None? && h !in s.handles
    ensures Enabled(s, Allocate(t, h))
    ensures var s1 := Do(s, Allocate(t, h));
            && Enabled(s1, OpenTake(t))
            && var s2 := Do(s1, OpenTake(t));
               && Enabled(s2, Publish(t))
               && var s3 := Do(s2, Publish(t));
                  && Enabled(s3, OpenRelease(t))
                  && var s4 := Do(s3, OpenRelease(t));
                     && h in s4.handles && s4.handles[h] == Handle(true, 0, None, 0, true, None)
                     && PcOf(s4, t) == Idle && s4.recycler == s.recycler
  {
    AllocateWipes(s, t, h);
    hide Do, Enabled;
    WipedOpens(Do(s, Allocate(t, h)), t, h);
  }

  lemma AllocateWipes(s: State, t: Task, h: Id)
    requires PcOf(s, t).Idle? && s.recycler.None? && h !in s.handles
    ensures Enabled(s, Allocate(t, h))
    ensures var s1 := Do(s, Allocate(t, h));
            && PcOf(s1, t) == OpenWiped(h) && h in s1.handles && s1.handles[h].owner.None?
            && s1.handles[h].generation == 0 && s1.recycler == s.recycler
  {
  }

  /** A parked handle comes back as the next incarnation: open, under the next generation. */
  lemma ParkedHandleReopens(s: State, t: Task)
    requires Inv(s) && PcOf(s, t).Idle? && s.recycler.Some?
    requires s.recycler.value in s.handles && s.handles[s.recycler.value].owner.None?
    ensures Enabled(s, Recycle(t))
    ensures var h := s.recycler.value;
            var s1 := Do(s, Recycle(t));
            && Enabled(s1, OpenTake(t))
            && var s2 := Do(s1, OpenTake(t));
               && Enabled(s2, Publish(t))
               && var s3 := Do(s2, Publish(t));
                  && Enabled(s3, OpenRelease(t))
                  && var s4 := Do(s3, OpenRelease(t));
                     && h in s4.handles && s4.recycler.None? && PcOf(s4, t) == Idle
                     && s4.handles[h] == Handle(true, s.handles[h].generation + 1, None, 0, true, None)
  {
    hide Inv, Do, Enabled;
    RecycleWipes(s, t);
    WipedOpens(Do(s, Recycle(t)), t, s.recycler.value);
  }

  lemma RecycleWipes(s: State, t: Task)
    requires PcOf(s, t).Idle? && s.recycler.Some?
    requires s.recycler.value in s.handles && s.handles[s.recycler.value].owner.None?
    ensures Enabled(s, Recycle(t))
    ensures var h := s.recycler.value;
            var s1 := Do(s, Recycle(t));
            && PcOf(s1, t) == OpenWiped(h) && h in s1.handles && s1.handles[h].owner.None? && s1.recycler.None?
            && s1.handles[h].generation == s.handles[h].generation + 1
  {
  }

  /** An idle task closes an open handle with a free mutex in five steps, and parks it if nothing is parked. */
  lemma OpenHandleCloses(s: State, t: Task, h: Id)
    requires Inv(s) && PcOf(s, t).Idle? && h in s.handles
    requires s.handles[h].live && s.handles[h].custodian.None? && s.handles[h].owner.None?
    ensures Enabled(s, BeginClose(t, h))
    ensures var s1 := Do(s, BeginClose(t, h));
            && Enabled(s1, CloseTake(t))
            && var s2 := Do(s1, CloseTake(t));
               && Enabled(s2, TearDown(t))
               && var s3 := Do(s2, TearDown(t));
                  && Enabled(s3, CloseRelease(t))
                  && var s4 := Do(s3, CloseRelease(t));
                     && Enabled(s4, Park(t))
                     && var s5 := Do(s4, Park(t));
                        && h in s5.handles && !s5.handles[h].isOpen && s5.handles[h].owner.None?
                        && s5.recycler == if s.recycler.None? then Some(h) else s.recycler
  {
    hide Inv, Do, Enabled;
    CloseTears(s, t, h);
    TornParks(Do(Do(Do(s, BeginClose(t, h)), CloseTake(t)), TearDown(t)), t, h);
  }

  lemma CloseTears(s: State, t: Task, h: Id)
    requires PcOf(s, t).Idle? && h in s.handles
    requires s.handles[h].live && s.handles[h].custodian.None? && s.handles[h].owner.None?
    ensures Enabled(s, BeginClose(t, h))
    ensures var s1 := Do(s, BeginClose(t, h));
            && Enabled(s1, CloseTake(t))
            && var s2 := Do(s1, CloseTake(t));
               && Enabled(s2, TearDown(t))
               && var s3 := Do(s2, TearDown(t));
                  && PcOf(s3, t) == CloseTorn(h) && h in s3.handles && !s3.handles[h].isOpen
                  && s3.recycler == s.recycler
  {
  }

  lemma TornParks(s: State, t: Task, h: Id)
    requires PcOf(s, t) == CloseTorn(h) && h in s.handles && !s.handles[h].isOpen
    ensures Enabled(s, CloseRelease(t))
    ensures var s1 := Do(s, CloseRelease(t));
            && Enabled(s1, Park(t))
            && var s2 := Do(s1, Park(t));
               && h in s2.handles && !s2.handles[h].isOpen && s2.handles[h].owner.None?
               && s2.recycler == if s.recycler.None? then Some(h) else s.recycler
  {
  }

  /** From no handles at all, a run that opens one and operates on it. */
  lemma FirstOperation(t: Task, h: Id) returns (states: seq<State>, steps: seq<Step>)
    ensures IsRun(states, steps) && |steps| == 7 && PcOf(states[7], t) == Inside(h, [0])
  {
    hide Enabled, Do, Inv;
    var s0 := State(map[], None, map[]);
    NewHandleOpens(s0, t, h);
    var s1 := Do(s0, Allocate(t, h));
    var s2 := Do(s1, OpenTake(t));
    var s3 := Do(s2, Publish(t));
    var s4 := Do(s3, OpenRelease(t));
    Empty();
    StepKeeps(s0, Allocate(t, h));
    StepKeeps(s1, OpenTake(t));
    StepKeeps(s2, Publish(t));
    StepKeeps(s3, OpenRelease(t));
    EntryAdmits(s4, t, h);
    var s5 := Do(s4, Sample(t, h));
    var s6 := Do(s5, Take(t));
    states := [s0, s1, s2, s3, s4, s5, s6, Do(s6, Check(t))];
    steps := [Allocate(t, h), OpenTake(t), Publish(t), OpenRelease(t), Sample(t, h), Take(t), Check(t)];
  }
}
