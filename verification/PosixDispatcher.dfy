/** The pthread implementation of the asynchronous callback dispatcher, one labelled step per statement
    that takes a lock, waits, signals or touches shared memory. Any number of native threads (one
    invocation each time `callback_invoke` is entered), one dispatcher, one runner per spawned callback and
    the thread that interrupts the dispatcher run in any interleaving. */
module PosixDispatcher {
  import opened Wrappers
  import CallbackSpec

  // ---------------------------------------------------------------- state

  datatype RecordOwner = Unlocked | ByCaller | ByRunner

  /** The part of `struct gvl_callback` that threads share. It lives on the native thread's stack. */
  datatype Record = Record(next: Option<nat>, done: bool, mutex: RecordOwner)

  /** Program counter of a native thread inside `callback_invoke`. */
  datatype CallerPc =
    | CInit | CLock | CPush | CSignal | CUnlock
    | CLockOwn | CTest | CWaiting | CRelock | CUnlockOwn | CDestroy | CReturned

  /** Program counter of the Ruby thread running `async_cb_call` for an invocation. */
  datatype RunnerPc =
    | RNone | RStart | RBlock | RLock | RSetDone | RSignal | RUnlock | RDone
    | RKilled(started: bool)  // ended by Thread#kill, before its block started or inside it

  /** Program counter of the dispatcher thread: `async_cb_event` and `async_cb_wait`. */
  datatype DispatcherPc = DLoop | DLock | DTest | DWaiting | DRelock | DPop | DUnlock | DSpawn | DExited

  /** Program counter of a thread inside `async_cb_stop`. */
  datatype StopperPc = SIdle | SLock | SSet | SSignal | SUnlock

  /** `record` is None while the stack slot does not exist: before it is built and after the return. */
  datatype Invocation = Invocation(caller: CallerPc, runner: RunnerPc, record: Option<Record>)

  datatype Owner = Free | CallerOwns(r: nat) | DispatcherOwns | StopperOwns

  /** `chain` is a history variable: the records threaded by `head` and the `next` fields, newest first.
      Steps update it next to the pointers and never read it. */
  datatype State = State(
    invocations: seq<Invocation>,
    head: Option<nat>,
    chain: seq<nat>,
    mutex: Owner,
    dispatcher: DispatcherPc,
    cb: Option<nat>,
    stop: bool,
    stopper: StopperPc)

  const Initial := State([], None, [], Free, DLoop, None, false, SIdle)

  datatype Label =
    | Begin
    | Caller(r: nat)
    | CallerSpurious(r: nat)
    | Dispatcher
    | DispatcherSpurious
    | Runner(r: nat)
    | Kill(r: nat)
    | Stopper

  /** Fault: the step reads a record that does not exist, unlocks a mutex it does not hold, destroys a
      locked mutex, or spawns a second runner for a record. */
  datatype Outcome = Next(state: State) | Blocked | Fault

  // ---------------------------------------------------------------- steps

  function SetInvocation(s: State, r: nat, v: Invocation): State
    requires r < |s.invocations|
  {
    s.(invocations := s.invocations[r := v])
  }

  /** pthread_cond_signal on the dispatcher's condition variable. */
  function WakeDispatcher(s: State): State {
    if s.dispatcher == DWaiting then s.(dispatcher := DRelock) else s
  }

  function Tail(chain: seq<nat>): seq<nat> {
    if chain == [] then [] else chain[1..]
  }

  function CallerStep(s: State, r: nat): Outcome
    requires r < |s.invocations|
  {
    var v := s.invocations[r];
    match v.caller
    case CInit =>
      Next(SetInvocation(s, r, v.(record := Some(Record(None, false, Unlocked)), caller := CLock)))
    case CLock =>
      if s.mutex == Free then Next(SetInvocation(s, r, v.(caller := CPush)).(mutex := CallerOwns(r))) else Blocked
    case CPush =>
      if v.record == None then Fault
      else Next(SetInvocation(s, r, v.(record := Some(v.record.value.(next := s.head)), caller := CSignal))
                .(head := Some(r), chain := [r] + s.chain))
    case CSignal =>
      Next(WakeDispatcher(SetInvocation(s, r, v.(caller := CUnlock))))
    case CUnlock =>
      if s.mutex != CallerOwns(r) then Fault
      else Next(SetInvocation(s, r, v.(caller := CLockOwn)).(mutex := Free))
    case CLockOwn => LockOwn(s, r)
    case CRelock => LockOwn(s, r)
    case CTest =>
      if v.record == None then Fault
      else if v.record.value.done then Next(SetInvocation(s, r, v.(caller := CUnlockOwn)))
      else if v.record.value.mutex != ByCaller then Fault
      else Next(SetInvocation(s, r, v.(record := Some(v.record.value.(mutex := Unlocked)), caller := CWaiting)))
    case CWaiting => Blocked
    case CUnlockOwn =>
      if v.record == None || v.record.value.mutex != ByCaller then Fault
      else Next(SetInvocation(s, r, v.(record := Some(v.record.value.(mutex := Unlocked)), caller := CDestroy)))
    case CDestroy =>
      if v.record == None || v.record.value.mutex != Unlocked then Fault
      else Next(SetInvocation(s, r, v.(record := None, caller := CReturned)))
    case CReturned => Blocked
  }

  function LockOwn(s: State, r: nat): Outcome
    requires r < |s.invocations|
  {
    var v := s.invocations[r];
    if v.record == None then Fault
    else if v.record.value.mutex == Unlocked
    then Next(SetInvocation(s, r, v.(record := Some(v.record.value.(mutex := ByCaller)), caller := CTest)))
    else Blocked
  }

  function DispatcherStep(s: State): Outcome {
    match s.dispatcher
    case DLoop => if s.stop then Next(s.(dispatcher := DExited)) else Next(s.(dispatcher := DLock, cb := None))
    case DLock => if s.mutex == Free then Next(s.(mutex := DispatcherOwns, dispatcher := DTest)) else Blocked
    case DRelock => if s.mutex == Free then Next(s.(mutex := DispatcherOwns, dispatcher := DTest)) else Blocked
    case DTest =>
      if s.mutex != DispatcherOwns then Fault
      else if !s.stop && s.head == None then Next(s.(mutex := Free, dispatcher := DWaiting))
      else Next(s.(dispatcher := DPop))
    case DWaiting => Blocked
    case DPop =>
      if s.head == None then Next(s.(dispatcher := DUnlock))
      else
        var h := s.head.value;
        if h >= |s.invocations| || s.invocations[h].record == None then Fault
        else Next(s.(cb := Some(h), head := s.invocations[h].record.value.next, chain := Tail(s.chain),
                     dispatcher := DUnlock))
    case DUnlock =>
      if s.mutex != DispatcherOwns then Fault else Next(s.(mutex := Free, dispatcher := DSpawn))
    case DSpawn =>
      if s.cb == None then Next(s.(dispatcher := DLoop))
      else
        var r := s.cb.value;
        if r >= |s.invocations| || s.invocations[r].runner != RNone then Fault
        else Next(SetInvocation(s, r, s.invocations[r].(runner := RStart)).(dispatcher := DLoop))
    case DExited => Blocked
  }

  function RunnerStep(s: State, r: nat): Outcome
    requires r < |s.invocations|
  {
    var v := s.invocations[r];
    match v.runner
    case RNone => Blocked
    case RStart => if v.record == None then Fault else Next(SetInvocation(s, r, v.(runner := RBlock)))
    case RBlock => if v.record == None then Fault else Next(SetInvocation(s, r, v.(runner := RLock)))
    case RLock =>
      if v.record == None then Fault
      else if v.record.value.mutex == Unlocked
      then Next(SetInvocation(s, r, v.(record := Some(v.record.value.(mutex := ByRunner)), runner := RSetDone)))
      else Blocked
    case RSetDone =>
      if v.record == None then Fault
      else Next(SetInvocation(s, r, v.(record := Some(v.record.value.(done := true)), runner := RSignal)))
    case RSignal =>
      if v.record == None then Fault
      else Next(SetInvocation(s, r, v.(caller := if v.caller == CWaiting then CRelock else v.caller,
                                       runner := RUnlock)))
    case RUnlock =>
      if v.record == None || v.record.value.mutex != ByRunner then Fault
      else Next(SetInvocation(s, r, v.(record := Some(v.record.value.(mutex := Unlocked)), runner := RDone)))
    case RDone => Blocked
    case RKilled(_) => Blocked
  }

  /** Thread#kill on the runner. It unwinds past the rescue in callback_with_gvl, and async_cb_call does
      not get to the signal. */
  function KillStep(s: State, r: nat): Outcome
    requires r < |s.invocations|
  {
    var v := s.invocations[r];
    if v.runner == RStart || v.runner == RBlock
    then Next(SetInvocation(s, r, v.(runner := RKilled(v.runner == RBlock)))) else Blocked
  }

  function StopperStep(s: State): Outcome {
    match s.stopper
    case SIdle => Next(s.(stopper := SLock))
    case SLock => if s.mutex == Free then Next(s.(mutex := StopperOwns, stopper := SSet)) else Blocked
    case SSet => Next(s.(stop := true, stopper := SSignal))
    case SSignal => Next(WakeDispatcher(s).(stopper := SUnlock))
    case SUnlock => if s.mutex != StopperOwns then Fault else Next(s.(mutex := Free, stopper := SIdle))
  }

  function Step(s: State, l: Label): Outcome {
    match l
    case Begin => Next(s.(invocations := s.invocations + [Invocation(CInit, RNone, None)]))
    case Caller(r) => if r < |s.invocations| then CallerStep(s, r) else Blocked
    case CallerSpurious(r) =>
      if r < |s.invocations| && s.invocations[r].caller == CWaiting
      then Next(SetInvocation(s, r, s.invocations[r].(caller := CRelock))) else Blocked
    case Dispatcher => DispatcherStep(s)
    case DispatcherSpurious =>
      if s.dispatcher == DWaiting then Next(s.(dispatcher := DRelock)) else Blocked
    case Runner(r) => if r < |s.invocations| then RunnerStep(s, r) else Blocked
    case Kill(r) => if r < |s.invocations| then KillStep(s, r) else Blocked
    case Stopper => StopperStep(s)
  }

  /** A run is a sequence of labels each of which is enabled when its turn comes. */
  function Run(s: State, labels: seq<Label>): Outcome
    decreases |labels|
  {
    if labels == [] then Next(s)
    else
      match Step(s, labels[0])
      case Next(t) => Run(t, labels[1..])
      case other => other
  }

  // ---------------------------------------------------------------- invariant

  predicate BeforePush(pc: CallerPc) {
    pc == CInit || pc == CLock || pc == CPush
  }

  predicate HoldsListMutex(pc: CallerPc) {
    pc == CPush || pc == CSignal || pc == CUnlock
  }

  predicate HoldsOwnMutex(pc: CallerPc) {
    pc == CTest || pc == CUnlockOwn
  }

  predicate Leaving(pc: CallerPc) {
    pc == CUnlockOwn || pc == CDestroy || pc == CReturned
  }

  predicate RunnerHoldsMutex(pc: RunnerPc) {
    pc == RSetDone || pc == RSignal || pc == RUnlock
  }

  predicate DoneSet(pc: RunnerPc) {
    pc == RSignal || pc == RUnlock || pc == RDone
  }

  predicate DispatcherHoldsMutex(pc: DispatcherPc) {
    pc == DTest || pc == DPop || pc == DUnlock
  }

  predicate FetchingCallback(pc: DispatcherPc) {
    pc == DLock || pc == DTest || pc == DWaiting || pc == DRelock
  }

  predicate StopperHoldsMutex(pc: StopperPc) {
    pc == SSet || pc == SSignal || pc == SUnlock
  }

  /** The dispatcher has unlinked record r and has not yet spawned its runner. */
  predicate Held(s: State, r: nat) {
    s.cb == Some(r) && (s.dispatcher == DUnlock || s.dispatcher == DSpawn)
  }

  /** The i-th listed record exists and its next field points at the one after it. */
  ghost predicate Linked(s: State, i: nat)
    requires i < |s.chain|
  {
    && s.chain[i] < |s.invocations|
    && s.invocations[s.chain[i]].record.Some?
    && s.invocations[s.chain[i]].record.value.next == (if i + 1 < |s.chain| then Some(s.chain[i + 1]) else None)
  }

  /** The list is acyclic, has no duplicates, and threads records that exist. */
  ghost predicate ChainOk(s: State) {
    && s.head == (if s.chain == [] then None else Some(s.chain[0]))
    && (forall i :: 0 <= i < |s.chain| ==> s.chain[i] < |s.invocations|)
    && (forall i, j :: 0 <= i < j < |s.chain| ==> s.chain[i] != s.chain[j])
    && (forall i :: 0 <= i < |s.chain| ==> Linked(s, i))
  }

  /** What holds of one invocation, given whether it is listed, whether the dispatcher holds it and
      whether its native thread holds the list mutex. */
  predicate Consistent(v: Invocation, listed: bool, held: bool, ownsList: bool) {
    // the record exists exactly while the native thread is inside callback_invoke
    && (v.record.Some? <==> v.caller != CInit && v.caller != CReturned)
    // a pushed record without a runner is on the list or in the dispatcher's hands, never both,
    // and no other record is in either place
    && (if BeforePush(v.caller) then v.runner == RNone && !listed && !held
        else if v.runner == RNone then listed != held
        else !listed && !held)
    // who holds which mutex
    && (HoldsListMutex(v.caller) <==> ownsList)
    && (v.record.Some? ==>
          && (v.record.value.mutex == ByCaller <==> HoldsOwnMutex(v.caller))
          && (v.record.value.mutex == ByRunner <==> RunnerHoldsMutex(v.runner))
          && (v.record.value.done <==> DoneSet(v.runner)))
    // a waiting caller is still going to be signalled, a leaving caller is no longer needed
    && (v.caller == CWaiting ==> v.runner != RUnlock && v.runner != RDone)
    && (Leaving(v.caller) ==> v.runner == RDone)
  }

  predicate InvocationOk(s: State, r: nat)
    requires r < |s.invocations|
  {
    Consistent(s.invocations[r], r in s.chain, Held(s, r), s.mutex == CallerOwns(r))
  }

  ghost predicate DispatcherOk(s: State) {
    && (s.mutex == DispatcherOwns <==> DispatcherHoldsMutex(s.dispatcher))
    && (s.mutex == StopperOwns <==> StopperHoldsMutex(s.stopper))
    && (s.mutex.CallerOwns? ==> s.mutex.r < |s.invocations|)
    && (s.dispatcher == DPop ==> s.cb == None && (s.stop || s.chain != []))
    && (FetchingCallback(s.dispatcher) ==> s.cb == None)
    && (s.dispatcher == DExited ==> s.stop)
    && (s.cb.Some? ==> s.cb.value < |s.invocations|)
  }

  /** The dispatcher sleeps only while there is nothing for it, or while the thread that gave it
      something holds the mutex and is about to signal. */
  ghost predicate NoLostWakeup(s: State) {
    s.dispatcher == DWaiting ==>
      && (s.chain != [] ==>
            s.mutex.CallerOwns? && s.mutex.r < |s.invocations| && s.invocations[s.mutex.r].caller == CSignal)
      && (s.stop ==> s.stopper == SSignal)
  }

  ghost predicate Inv(s: State) {
    && ChainOk(s)
    && (forall r: nat :: r < |s.invocations| ==> InvocationOk(s, r))
    && DispatcherOk(s)
    && NoLostWakeup(s)
  }

  /** Steps that leave the list and every next field alone leave the list well formed. */
  lemma SameLinks(s: State, t: State)
    requires ChainOk(s)
    requires t.chain == s.chain && t.head == s.head && |t.invocations| == |s.invocations|
    requires forall r: nat :: r < |s.invocations| && r in s.chain && s.invocations[r].record.Some? ==>
               && t.invocations[r].record.Some?
               && t.invocations[r].record.value.next == s.invocations[r].record.value.next
    ensures ChainOk(t)
  {
    forall i | 0 <= i < |t.chain| ensures Linked(t, i) {
      assert Linked(s, i);
    }
  }

  /** A step that changes one invocation, and the list and the locks at most on its behalf, leaves every
      other invocation as it was. */
  lemma OthersKept(s: State, t: State, r: nat)
    requires forall q: nat :: q < |s.invocations| ==> InvocationOk(s, q)
    requires |t.invocations| == |s.invocations|
    requires forall q: nat :: q < |s.invocations| && q != r ==> t.invocations[q] == s.invocations[q]
    requires forall q: nat :: q < |s.invocations| && q != r ==> (q in t.chain <==> q in s.chain)
    requires forall q: nat :: q != r ==> (t.mutex == CallerOwns(q) <==> s.mutex == CallerOwns(q))
    requires forall q: nat :: q != r ==> (Held(t, q) <==> Held(s, q))
    ensures forall q: nat :: q < |t.invocations| && q != r ==> InvocationOk(t, q)
  {
    forall q: nat | q < |t.invocations| && q != r ensures InvocationOk(t, q) {
      assert InvocationOk(s, q);
    }
  }

  lemma PushKeepsList(s: State, r: nat)
    requires ChainOk(s) && r < |s.invocations| && r !in s.chain
    requires s.invocations[r].caller == CPush && s.invocations[r].record.Some?
    ensures CallerStep(s, r).Next? && ChainOk(CallerStep(s, r).state)
  {
    var t := CallerStep(s, r).state;
    forall i | 0 <= i < |t.chain| ensures Linked(t, i) {
      assert i > 0 ==> Linked(s, i - 1);
    }
  }

  lemma PopKeepsList(s: State)
    requires ChainOk(s) && s.dispatcher == DPop && s.chain != []
    ensures DispatcherStep(s).Next? && ChainOk(DispatcherStep(s).state)
    ensures DispatcherStep(s).state.cb == Some(s.chain[0]) && s.chain[0] !in DispatcherStep(s).state.chain
  {
    assert Linked(s, 0);
    var t := DispatcherStep(s).state;
    forall i | 0 <= i < |t.chain| ensures Linked(t, i) {
      assert Linked(s, i + 1);
    }
  }

  /** The step of native thread r does not fault and leaves its own invocation consistent. */
  ghost predicate CallerFine(s: State, r: nat)
    requires r < |s.invocations|
  {
    && CallerStep(s, r) != Fault
    && (CallerStep(s, r).Next? ==>
          var t := CallerStep(s, r).state;
          |t.invocations| == |s.invocations| && InvocationOk(t, r))
  }

  predicate ListPhase(pc: CallerPc) {
    BeforePush(pc) || pc == CSignal || pc == CUnlock
  }

  lemma ListPhaseFine(s: State, r: nat)
    requires r < |s.invocations| && InvocationOk(s, r) && ListPhase(s.invocations[r].caller)
    ensures CallerFine(s, r)
  {
  }

  lemma WaitingPhaseFine(s: State, r: nat)
    requires r < |s.invocations| && InvocationOk(s, r) && !ListPhase(s.invocations[r].caller)
    ensures CallerFine(s, r)
  {
    match s.invocations[r].caller
    case CLockOwn =>
    case CRelock =>
    case CTest =>
    case CWaiting =>
    case CUnlockOwn =>
    case CDestroy =>
    case CReturned =>
  }

  lemma CallerConsistent(s: State, r: nat)
    requires r < |s.invocations| && InvocationOk(s, r)
    ensures CallerFine(s, r)
  {
    if ListPhase(s.invocations[r].caller) {
      ListPhaseFine(s, r);
    } else {
      WaitingPhaseFine(s, r);
    }
  }

  lemma CallerKeepsList(s: State, r: nat)
    requires ChainOk(s) && r < |s.invocations| && InvocationOk(s, r) && CallerStep(s, r).Next?
    ensures ChainOk(CallerStep(s, r).state)
  {
    if s.invocations[r].caller == CPush {
      PushKeepsList(s, r);
    } else {
      SameLinks(s, CallerStep(s, r).state);
    }
  }

  lemma CallerKeepsDispatcher(s: State, r: nat)
    requires r < |s.invocations| && InvocationOk(s, r) && DispatcherOk(s) && NoLostWakeup(s)
    requires CallerStep(s, r).Next?
    ensures DispatcherOk(CallerStep(s, r).state) && NoLostWakeup(CallerStep(s, r).state)
  {
    match s.invocations[r].caller
    case CLock =>
    case CPush =>
    case CSignal =>
    case CUnlock =>
    case _ =>
  }

  lemma CallerKeepsOthers(s: State, r: nat)
    requires r < |s.invocations| && InvocationOk(s, r) && CallerStep(s, r).Next?
    requires forall q: nat :: q < |s.invocations| ==> InvocationOk(s, q)
    ensures var t := CallerStep(s, r).state;
            |t.invocations| == |s.invocations| && forall q: nat :: q < |t.invocations| ==> InvocationOk(t, q)
  {
    var t := CallerStep(s, r).state;
    CallerConsistent(s, r);
    assert forall q: nat :: q != r ==> (q in t.chain <==> q in s.chain);
    OthersKept(s, t, r);
  }

  lemma CallerKeepsInv(s: State, r: nat)
    requires Inv(s) && r < |s.invocations|
    ensures CallerStep(s, r) != Fault
    ensures CallerStep(s, r).Next? ==> Inv(CallerStep(s, r).state)
  {
    CallerConsistent(s, r);
    if CallerStep(s, r).Next? {
      CallerKeepsList(s, r);
      CallerKeepsDispatcher(s, r);
      CallerKeepsOthers(s, r);
    }
  }

  lemma DispatcherKeepsList(s: State)
    requires ChainOk(s) && DispatcherStep(s).Next?
    requires s.cb.Some? ==> s.cb.value < |s.invocations|
    ensures ChainOk(DispatcherStep(s).state)
  {
    if s.dispatcher == DPop && s.chain != [] {
      PopKeepsList(s);
    } else {
      SameLinks(s, DispatcherStep(s).state);
    }
  }

  lemma DispatcherKeepsOthers(s: State)
    requires ChainOk(s) && DispatcherOk(s)
    requires forall q: nat :: q < |s.invocations| ==> InvocationOk(s, q)
    ensures DispatcherStep(s) != Fault
    ensures DispatcherStep(s).Next? ==>
              var t := DispatcherStep(s).state;
              |t.invocations| == |s.invocations| && forall q: nat :: q < |t.invocations| ==> InvocationOk(t, q)
  {
    if s.dispatcher == DPop && s.chain != [] {
      PopKeepsList(s);
      var r := s.chain[0];
      var t := DispatcherStep(s).state;
      assert s.chain == [r] + t.chain;
      assert InvocationOk(s, r);
      OthersKept(s, t, r);
    } else if s.dispatcher == DSpawn && s.cb.Some? {
      var r := s.cb.value;
      assert InvocationOk(s, r);
      OthersKept(s, DispatcherStep(s).state, r);
    } else if DispatcherStep(s).Next? {
      OthersKept(s, DispatcherStep(s).state, |s.invocations|);
    }
  }

  lemma DispatcherKeepsInv(s: State)
    requires Inv(s)
    ensures DispatcherStep(s) != Fault
    ensures DispatcherStep(s).Next? ==> Inv(DispatcherStep(s).state)
  {
    DispatcherKeepsOthers(s);
    if DispatcherStep(s).Next? {
      DispatcherKeepsList(s);
    }
  }

  lemma RunnerConsistent(s: State, r: nat)
    requires r < |s.invocations| && InvocationOk(s, r)
    ensures RunnerStep(s, r) != Fault
    ensures RunnerStep(s, r).Next? ==>
              |RunnerStep(s, r).state.invocations| == |s.invocations| && InvocationOk(RunnerStep(s, r).state, r)
  {
    match s.invocations[r].runner
    case RNone =>
    case RStart =>
    case RBlock =>
    case RLock =>
    case RSetDone =>
    case RSignal =>
    case RUnlock =>
    case RDone =>
    case RKilled(_) =>
  }

  lemma RunnerKeepsInv(s: State, r: nat)
    requires Inv(s) && r < |s.invocations|
    ensures RunnerStep(s, r) != Fault
    ensures RunnerStep(s, r).Next? ==> Inv(RunnerStep(s, r).state)
  {
    RunnerConsistent(s, r);
    if RunnerStep(s, r).Next? {
      SameLinks(s, RunnerStep(s, r).state);
      OthersKept(s, RunnerStep(s, r).state, r);
      RunnerKeepsDispatcher(s, r);
    }
  }

  lemma RunnerKeepsDispatcher(s: State, r: nat)
    requires r < |s.invocations| && DispatcherOk(s) && NoLostWakeup(s) && RunnerStep(s, r).Next?
    ensures DispatcherOk(RunnerStep(s, r).state) && NoLostWakeup(RunnerStep(s, r).state)
  {
  }

  lemma KillKeepsInv(s: State, r: nat)
    requires Inv(s) && r < |s.invocations| && KillStep(s, r).Next?
    ensures Inv(KillStep(s, r).state)
  {
    assert InvocationOk(s, r);
    SameLinks(s, KillStep(s, r).state);
    OthersKept(s, KillStep(s, r).state, r);
  }

  lemma StopperKeepsDispatcher(s: State)
    requires DispatcherOk(s) && NoLostWakeup(s)
    ensures StopperStep(s) != Fault
    ensures StopperStep(s).Next? ==> DispatcherOk(StopperStep(s).state) && NoLostWakeup(StopperStep(s).state)
  {
  }

  lemma StopperKeepsInv(s: State)
    requires Inv(s)
    ensures StopperStep(s) != Fault
    ensures StopperStep(s).Next? ==> Inv(StopperStep(s).state)
  {
    StopperKeepsDispatcher(s);
    if StopperStep(s).Next? {
      var t := StopperStep(s).state;
      SameLinks(s, t);
      OthersKept(s, t, |s.invocations|);
    }
  }

  lemma BeginKeepsInv(s: State)
    requires Inv(s)
    ensures Inv(Step(s, Begin).state)
  {
    var t := Step(s, Begin).state;
    forall i | 0 <= i < |t.chain| ensures Linked(t, i) {
      assert Linked(s, i);
    }
    forall q: nat | q < |t.invocations| ensures InvocationOk(t, q) {
      assert q < |s.invocations| ==> InvocationOk(s, q);
    }
  }

  lemma SpuriousKeepsInv(s: State, l: Label)
    requires Inv(s) && Step(s, l).Next? && (l.CallerSpurious? || l.DispatcherSpurious?)
    ensures Inv(Step(s, l).state)
  {
    var r := if l.CallerSpurious? then l.r else |s.invocations|;
    assert r < |s.invocations| ==> InvocationOk(s, r);
    SameLinks(s, Step(s, l).state);
    OthersKept(s, Step(s, l).state, r);
  }

  lemma StepKeepsInv(s: State, l: Label)
    requires Inv(s)
    ensures Step(s, l) != Fault
    ensures Step(s, l).Next? ==> Inv(Step(s, l).state)
  {
    match l
    case Begin => BeginKeepsInv(s);
    case Caller(r) => if r < |s.invocations| { CallerKeepsInv(s, r); }
    case Dispatcher => DispatcherKeepsInv(s);
    case Runner(r) => if r < |s.invocations| { RunnerKeepsInv(s, r); }
    case Kill(r) => if Step(s, l).Next? { KillKeepsInv(s, r); }
    case Stopper => StopperKeepsInv(s);
    case _ => if Step(s, l).Next? { SpuriousKeepsInv(s, l); }
  }

  /** Over every run from the start: no step faults, and the invariant holds wherever the run stops. */
  lemma {:induction false} RunsAreSafe(s: State, labels: seq<Label>)
    requires Inv(s)
    ensures Run(s, labels) != Fault
    ensures Run(s, labels).Next? ==> Inv(Run(s, labels).state)
    decreases |labels|
  {
    if labels != [] {
      StepKeepsInv(s, labels[0]);
      if Step(s, labels[0]).Next? {
        RunsAreSafe(Step(s, labels[0]).state, labels[1..]);
      }
    }
  }

  // ---------------------------------------------------------------- refinement of the protocol

  function StageOf(s: State, r: nat): CallbackSpec.Stage
    requires r < |s.invocations|
  {
    var v := s.invocations[r];
    if BeforePush(v.caller) then CallbackSpec.Preparing
    else if v.caller == CReturned then CallbackSpec.Returned
    else
      match v.runner
      case RNone => if r in s.chain then CallbackSpec.Pending else CallbackSpec.Taken
      case RStart => CallbackSpec.Spawned
      case RBlock => CallbackSpec.Running
      case RKilled(started) => if started then CallbackSpec.Running else CallbackSpec.Spawned
      case _ => CallbackSpec.Ran
  }

  function Abstract(s: State): CallbackSpec.Spec {
    CallbackSpec.Spec(seq(|s.invocations|, r requires 0 <= r < |s.invocations| => StageOf(s, r)), s.chain)
  }

  /** The protocol action a step performs, if any. */
  function Visible(s: State, l: Label): Option<CallbackSpec.Action> {
    match l
    case Begin => Some(CallbackSpec.Begin)
    case Caller(r) =>
      if r >= |s.invocations| then None
      else if s.invocations[r].caller == CPush then Some(CallbackSpec.Push(r))
      else if s.invocations[r].caller == CDestroy then Some(CallbackSpec.Return(r))
      else None
    case Dispatcher =>
      if s.dispatcher == DPop && s.head.Some? then Some(CallbackSpec.Take(s.head.value))
      else if s.dispatcher == DSpawn && s.cb.Some? then Some(CallbackSpec.Spawn(s.cb.value))
      else None
    case Runner(r) =>
      if r >= |s.invocations| then None
      else if s.invocations[r].runner == RStart then Some(CallbackSpec.Start(r))
      else if s.invocations[r].runner == RBlock then Some(CallbackSpec.Finish(r))
      else None
    case _ => None
  }

  function Trace(s: State, labels: seq<Label>): seq<CallbackSpec.Action>
    decreases |labels|
  {
    if labels == [] then []
    else
      match Step(s, labels[0])
      case Next(t) =>
        (match Visible(s, labels[0]) case Some(a) => [a] case None => []) + Trace(t, labels[1..])
      case _ => []
  }

  /** Where a step leaves the stage of every invocation but r alone, the abstract state changes at r only. */
  lemma AbstractMoves(s: State, t: State, r: nat)
    requires |t.invocations| == |s.invocations|
    requires forall q: nat :: q < |s.invocations| && q != r ==> t.invocations[q] == s.invocations[q]
    requires forall q: nat :: q < |s.invocations| && q != r ==> (q in t.chain <==> q in s.chain)
    ensures r < |s.invocations| ==>
              Abstract(t) == CallbackSpec.Move(Abstract(s), r, StageOf(t, r)).(pending := t.chain)
    ensures r >= |s.invocations| ==> Abstract(t).stages == Abstract(s).stages
  {
    var stages := Abstract(s).stages;
    assert forall q: nat :: q < |s.invocations| && q != r ==> StageOf(t, q) == StageOf(s, q);
    if r < |s.invocations| {
      assert Abstract(t).stages == stages[r := StageOf(t, r)];
    } else {
      assert Abstract(t).stages == stages;
    }
  }

  ghost predicate Refines(s: State, l: Label)
    requires Step(s, l).Next?
  {
    var t := Step(s, l).state;
    match Visible(s, l)
    case None => Abstract(t) == Abstract(s)
    case Some(a) => CallbackSpec.Step(Abstract(s), a) == Some(Abstract(t))
  }

  lemma CallerStage(s: State, r: nat)
    requires r < |s.invocations| && InvocationOk(s, r) && CallerStep(s, r).Next?
    requires s.invocations[r].caller != CPush && s.invocations[r].caller != CDestroy
    ensures var t := CallerStep(s, r).state;
            |t.invocations| == |s.invocations| && t.chain == s.chain && StageOf(t, r) == StageOf(s, r)
  {
  }

  lemma CallerMoves(s: State, r: nat)
    requires r < |s.invocations| && CallerStep(s, r).Next?
    ensures var t := CallerStep(s, r).state;
            && |t.invocations| == |s.invocations|
            && (forall q: nat :: q < |s.invocations| && q != r ==> t.invocations[q] == s.invocations[q])
            && forall q: nat :: q != r ==> (q in t.chain <==> q in s.chain)
  {
  }

  lemma CallerRefines(s: State, r: nat)
    requires r < |s.invocations| && InvocationOk(s, r) && CallerStep(s, r).Next?
    ensures Refines(s, Caller(r))
  {
    var t := CallerStep(s, r).state;
    CallerMoves(s, r);
    AbstractMoves(s, t, r);
    if s.invocations[r].caller != CPush && s.invocations[r].caller != CDestroy {
      CallerStage(s, r);
      assert Abstract(s) == CallbackSpec.Move(Abstract(s), r, StageOf(s, r));
    }
  }

  lemma RunnerRefines(s: State, r: nat)
    requires r < |s.invocations| && InvocationOk(s, r) && RunnerStep(s, r).Next?
    ensures Refines(s, Runner(r))
  {
    AbstractMoves(s, RunnerStep(s, r).state, r);
    assert Abstract(s) == CallbackSpec.Move(Abstract(s), r, StageOf(s, r));
  }

  lemma PopRefines(s: State)
    requires ChainOk(s) && s.dispatcher == DPop && s.chain != [] && InvocationOk(s, s.chain[0])
    requires DispatcherStep(s).Next?
    ensures Refines(s, Dispatcher)
  {
    var r, t := s.chain[0], DispatcherStep(s).state;
    assert Linked(s, 0);
    assert s.chain == [r] + t.chain;
    AbstractMoves(s, t, r);
  }

  lemma SpawnRefines(s: State)
    requires s.dispatcher == DSpawn && s.cb.Some? && s.cb.value < |s.invocations| && InvocationOk(s, s.cb.value)
    requires DispatcherStep(s).Next?
    ensures Refines(s, Dispatcher)
  {
    AbstractMoves(s, DispatcherStep(s).state, s.cb.value);
  }

  lemma DispatcherRefines(s: State)
    requires Inv(s) && DispatcherStep(s).Next?
    ensures Refines(s, Dispatcher)
  {
    if s.dispatcher == DPop && s.chain != [] {
      PopRefines(s);
    } else if s.dispatcher == DSpawn && s.cb.Some? {
      SpawnRefines(s);
    } else {
      AbstractMoves(s, DispatcherStep(s).state, |s.invocations|);
    }
  }

  lemma BeginRefines(s: State)
    requires ChainOk(s)
    ensures Refines(s, Begin)
  {
    var t := Step(s, Begin).state;
    assert forall i :: 0 <= i < |s.chain| ==> Linked(s, i);
    assert Abstract(t).stages == Abstract(s).stages + [CallbackSpec.Preparing];
  }

  /** A step that changes invocation r alone, and not its stage, is invisible. */
  lemma StaysPut(s: State, t: State, r: nat)
    requires r < |s.invocations| == |t.invocations| && StageOf(t, r) == StageOf(s, r)
    requires t == s.(invocations := s.invocations[r := t.invocations[r]])
    ensures Abstract(t) == Abstract(s)
  {
    AbstractMoves(s, t, r);
    assert Abstract(s) == CallbackSpec.Move(Abstract(s), r, StageOf(s, r));
  }

  /** Each step is one action of the protocol, or invisible to it. */
  lemma StepRefines(s: State, l: Label)
    requires Inv(s) && Step(s, l).Next?
    ensures Refines(s, l)
  {
    match l
    case Begin => BeginRefines(s);
    case Caller(r) =>
      assert InvocationOk(s, r);
      CallerRefines(s, r);
    case CallerSpurious(r) =>
      StaysPut(s, Step(s, l).state, r);
    case Runner(r) =>
      assert InvocationOk(s, r);
      RunnerRefines(s, r);
    case Kill(r) =>
      assert InvocationOk(s, r);
      StaysPut(s, Step(s, l).state, r);
    case Dispatcher => DispatcherRefines(s);
    case _ => AbstractMoves(s, Step(s, l).state, |s.invocations|);
  }

  /** The visible actions of every run are a run of the protocol, from the abstraction of where it
      started to the abstraction of where it stopped. */
  lemma {:induction false} RunRefines(s: State, labels: seq<Label>)
    requires Inv(s) && Run(s, labels).Next?
    ensures CallbackSpec.Run(Abstract(s), Trace(s, labels)) == Some(Abstract(Run(s, labels).state))
    decreases |labels|
  {
    if labels != [] {
      StepKeepsInv(s, labels[0]);
      StepRefines(s, labels[0]);
      var t := Step(s, labels[0]).state;
      RunRefines(t, labels[1..]);
      if Visible(s, labels[0]).Some? {
        assert Trace(s, labels)[1..] == Trace(t, labels[1..]);
      } else {
        assert Trace(s, labels) == Trace(t, labels[1..]);
      }
    }
  }

  /** In every interleaving: nothing faults, the Ruby block of an invocation is started at most once, and
      a native thread that has returned had its block started and finished exactly once before. */
  lemma {:induction false} EveryInterleavingIsSafe(labels: seq<Label>, r: nat)
    ensures Run(Initial, labels) != Fault
    ensures Run(Initial, labels).Next? ==>
              var t := Run(Initial, labels).state;
              var trace := Trace(Initial, labels);
              && CallbackSpec.Count(trace, CallbackSpec.Start(r)) <= 1
              && (r < |t.invocations| && t.invocations[r].caller == CReturned ==>
                    && CallbackSpec.Count(trace, CallbackSpec.Start(r)) == 1
                    && CallbackSpec.Count(trace, CallbackSpec.Finish(r)) == 1)
  {
    RunsAreSafe(Initial, labels);
    if Run(Initial, labels).Next? {
      RunRefines(Initial, labels);
      assert Abstract(Initial) == CallbackSpec.Initial;
      CallbackSpec.BlockRunsExactlyOnceBeforeReturn(Trace(Initial, labels), r);
    }
  }

  // ---------------------------------------------------------------- progress

  function CallerWork(pc: CallerPc): nat {
    match pc
    case CInit => 27
    case CLock => 26
    case CPush => 25
    case CSignal => 8
    case CUnlock => 5
    case CLockOwn => 4
    case CRelock => 4
    case CTest => 3
    case CUnlockOwn => 2
    case CDestroy => 1
    case CWaiting => 0
    case CReturned => 0
  }

  function RunnerWork(pc: RunnerPc): nat {
    match pc
    case RStart => 10
    case RBlock => 9
    case RLock => 8
    case RSetDone => 7
    case RSignal => 6
    case RUnlock => 1
    case RDone => 0
    case RNone => 0
    case RKilled(_) => 0
  }

  function DispatcherWork(pc: DispatcherPc): nat {
    match pc
    case DUnlock => 15
    case DSpawn => 14
    case DLoop => 3
    case DLock => 2
    case DRelock => 2
    case DTest => 1
    case DPop => 0
    case DWaiting => 0
    case DExited => 0
  }

  function Work(v: Invocation): nat {
    CallerWork(v.caller) + RunnerWork(v.runner)
  }

  function TotalWork(vs: seq<Invocation>): nat {
    if vs == [] then 0 else Work(vs[0]) + TotalWork(vs[1..])
  }

  /** Statements left to execute before everybody is done, counting a listed record as the work the
      dispatcher and its runner will have with it. */
  function Remaining(s: State): nat {
    TotalWork(s.invocations) + 16 * |s.chain| + DispatcherWork(s.dispatcher)
  }

  lemma {:induction false} TotalWorkUpdate(vs: seq<Invocation>, r: nat, v: Invocation)
    requires r < |vs|
    ensures TotalWork(vs[r := v]) == TotalWork(vs) - Work(vs[r]) + Work(v)
    decreases r
  {
    if r > 0 {
      TotalWorkUpdate(vs[1..], r - 1, v);
      assert vs[r := v][1..] == vs[1..][r - 1 := v];
    }
  }

  lemma {:induction false} TotalWorkAppend(vs: seq<Invocation>, v: Invocation)
    ensures TotalWork(vs + [v]) == TotalWork(vs) + Work(v)
    decreases |vs|
  {
    if vs == [] {
      assert vs + [v] == [v];
    } else {
      assert (vs + [v])[1..] == vs[1..] + [v];
      TotalWorkAppend(vs[1..], v);
    }
  }

  /** The steps the threads take of their own accord: everything but new calls, stop requests, kills and
      wakeups for no reason. */
  predicate Ordinary(l: Label) {
    l.Caller? || l.Dispatcher? || l.Runner?
  }

  /** The work that a new native thread or a spurious wakeup adds. */
  function Added(l: Label): nat {
    if l == Begin then 27 else if l.CallerSpurious? || l.DispatcherSpurious? then 4 else 0
  }

  lemma CallerPays(s: State, r: nat)
    requires r < |s.invocations| && InvocationOk(s, r) && CallerStep(s, r).Next?
    ensures var t := CallerStep(s, r).state;
            && |t.invocations| == |s.invocations|
            && t.invocations == s.invocations[r := t.invocations[r]]
            && Work(t.invocations[r]) + 16 * |t.chain| + DispatcherWork(t.dispatcher)
               < Work(s.invocations[r]) + 16 * |s.chain| + DispatcherWork(s.dispatcher)
  {
    if s.invocations[r].caller != CPush {
      assert CallerStep(s, r).state.chain == s.chain;
    }
  }

  lemma CallerWorks(s: State, r: nat)
    requires r < |s.invocations| && InvocationOk(s, r) && CallerStep(s, r).Next?
    ensures Remaining(CallerStep(s, r).state) < Remaining(s)
  {
    CallerPays(s, r);
    TotalWorkUpdate(s.invocations, r, CallerStep(s, r).state.invocations[r]);
  }

  lemma RunnerPays(s: State, r: nat)
    requires r < |s.invocations| && InvocationOk(s, r) && RunnerStep(s, r).Next?
    ensures var t := RunnerStep(s, r).state;
            && |t.invocations| == |s.invocations|
            && t == s.(invocations := s.invocations[r := t.invocations[r]])
            && Work(t.invocations[r]) < Work(s.invocations[r])
  {
    match s.invocations[r].runner
    case RStart =>
    case RBlock =>
    case RLock =>
    case RSetDone =>
    case RSignal =>
    case RUnlock =>
  }

  lemma DispatcherWorks(s: State)
    requires Inv(s) && !s.stop && DispatcherStep(s).Next?
    ensures Remaining(DispatcherStep(s).state) < Remaining(s)
  {
    var t := DispatcherStep(s).state;
    if s.dispatcher == DSpawn && s.cb.Some? {
      var r := s.cb.value;
      assert InvocationOk(s, r);
      TotalWorkUpdate(s.invocations, r, t.invocations[r]);
    } else if s.dispatcher == DPop {
      assert Linked(s, 0);
    }
  }

  /** Without a stop request every ordinary step uses up work. */
  lemma StepWorks(s: State, l: Label)
    requires Inv(s) && !s.stop && Ordinary(l) && Step(s, l).Next?
    ensures Remaining(Step(s, l).state) < Remaining(s) && !Step(s, l).state.stop
  {
    match l
    case Caller(r) =>
      assert InvocationOk(s, r);
      CallerWorks(s, r);
    case Runner(r) =>
      assert InvocationOk(s, r);
      RunnerPays(s, r);
      TotalWorkUpdate(s.invocations, r, RunnerStep(s, r).state.invocations[r]);
    case Dispatcher => DispatcherWorks(s);
  }

  /** And what the other steps add is bounded. */
  lemma StepPays(s: State, l: Label)
    requires Inv(s) && !s.stop && l != Stopper && Step(s, l).Next?
    ensures Remaining(Step(s, l).state) + (if Ordinary(l) then 1 else 0) <= Remaining(s) + Added(l)
    ensures !Step(s, l).state.stop && Step(s, l).state.stopper == s.stopper
  {
    match l
    case Begin => TotalWorkAppend(s.invocations, Invocation(CInit, RNone, None));
    case Kill(r) => TotalWorkUpdate(s.invocations, r, Step(s, l).state.invocations[r]);
    case CallerSpurious(r) =>
      TotalWorkUpdate(s.invocations, r, s.invocations[r].(caller := CRelock));
    case DispatcherSpurious =>
    case _ => StepWorks(s, l);
  }

  function OrdinarySteps(labels: seq<Label>): nat {
    if labels == [] then 0 else (if Ordinary(labels[0]) then 1 else 0) + OrdinarySteps(labels[1..])
  }

  function AllAdded(labels: seq<Label>): nat {
    if labels == [] then 0 else Added(labels[0]) + AllAdded(labels[1..])
  }

  ghost predicate Stuck(s: State) {
    forall l: Label :: Ordinary(l) ==> !Step(s, l).Next?
  }

  /** No wakeup is lost and no two threads wait for each other: while a native thread whose
      runner was not killed has not returned, some ordinary step is enabled. The witness says which. */
  lemma SomebodyCanStep(s: State, r: nat) returns (l: Label)
    requires Inv(s) && !s.stop && s.stopper == SIdle
    requires r < |s.invocations| && s.invocations[r].caller != CReturned && !s.invocations[r].runner.RKilled?
    ensures Ordinary(l) && Step(s, l).Next?
  {
    var v := s.invocations[r];
    assert InvocationOk(s, r);
    match s.mutex
    case CallerOwns(q) =>
      assert InvocationOk(s, q);
      CallerConsistent(s, q);
      l := Caller(q);
    case DispatcherOwns =>
      DispatcherKeepsOthers(s);
      l := Dispatcher;
    case StopperOwns =>
      assert false;
    case Free =>
      if s.dispatcher != DWaiting {
        DispatcherKeepsOthers(s);
        l := Dispatcher;
      } else if v.runner != RNone && v.runner != RDone && RunnerStep(s, r).Next? {
        l := Runner(r);
      } else {
        assert v.caller == CWaiting && v.runner == RNone ==> r in s.chain;
        assert s.chain == [];
        CallerConsistent(s, r);
        l := Caller(r);
      }
  }

  /** Unless the dispatcher was asked to stop, a native thread is stranded only if the runner of its callback
      is killed. The steps of a run are no more than the work there was to begin with plus what new native
      threads and spurious wakeups added, and when it can go no further the native threads that have returned
      are exactly those whose runners were not killed. Nothing is assumed about the order in which threads
      are scheduled. */
  lemma {:induction false} EveryCallerIsReleased(s: State, labels: seq<Label>, r: nat)
    requires Inv(s) && !s.stop && s.stopper == SIdle
    requires Stopper !in labels && Run(s, labels).Next?
    ensures var t := Run(s, labels).state;
            && OrdinarySteps(labels) + Remaining(t) <= Remaining(s) + AllAdded(labels)
            && (Stuck(t) && r < |t.invocations| ==>
                  (t.invocations[r].caller == CReturned <==> !t.invocations[r].runner.RKilled?))
    decreases |labels|
  {
    if labels == [] {
      if r < |s.invocations| {
        assert InvocationOk(s, r);
        if s.invocations[r].caller != CReturned && !s.invocations[r].runner.RKilled? {
          var l := SomebodyCanStep(s, r);
        }
      }
    } else {
      assert labels[0] in labels && forall l :: l in labels[1..] ==> l in labels;
      StepKeepsInv(s, labels[0]);
      StepPays(s, labels[0]);
      EveryCallerIsReleased(Step(s, labels[0]).state, labels[1..], r);
    }
  }

  /** Whatever happens afterwards, a native thread whose runner was killed does not return. */
  lemma {:induction false} KilledIsStranded(s: State, labels: seq<Label>, r: nat)
    requires Inv(s) && r < |s.invocations| && s.invocations[r].runner.RKilled? && Run(s, labels).Next?
    ensures var t := Run(s, labels).state;
            r < |t.invocations| && t.invocations[r].runner.RKilled? && t.invocations[r].caller != CReturned
    decreases |labels|
  {
    assert InvocationOk(s, r);
    if labels != [] {
      StepKeepsInv(s, labels[0]);
      KilledStaysKilled(s, labels[0], r);
      KilledIsStranded(Step(s, labels[0]).state, labels[1..], r);
    }
  }

  lemma KilledStaysKilled(s: State, l: Label, r: nat)
    requires r < |s.invocations| && s.invocations[r].runner.RKilled? && Step(s, l).Next?
    ensures var t := Step(s, l).state; r < |t.invocations| && t.invocations[r].runner.RKilled?
  {
    match l
    case Caller(q) =>
    case Dispatcher =>
    case Runner(q) =>
    case _ =>
  }

  predicate IsTake(s: State, l: Label) {
    l == Dispatcher && s.dispatcher == DPop && s.head.Some?
  }

  function Takes(s: State, labels: seq<Label>): nat
    decreases |labels|
  {
    if labels == [] || !Step(s, labels[0]).Next? then 0
    else (if IsTake(s, labels[0]) then 1 else 0) + Takes(Step(s, labels[0]).state, labels[1..])
  }

  /** Progress needs the absence of a stop request: once stop is set the dispatcher takes at most one more
      record, and none at all when it is past the list in its current round. */
  lemma {:induction false} StopTakesAtMostOneMore(s: State, labels: seq<Label>)
    requires s.stop
    ensures Takes(s, labels) <= 1
    ensures s.dispatcher in {DUnlock, DSpawn, DLoop, DExited} ==> Takes(s, labels) == 0
    decreases |labels|
  {
    if labels != [] && Step(s, labels[0]).Next? {
      StopTakesAtMostOneMore(Step(s, labels[0]).state, labels[1..]);
    }
  }

  // ---------------------------------------------------------------- stopping

  /** How many steps of its own the dispatcher has left after a stop request. */
  function ExitWork(pc: DispatcherPc): nat {
    match pc
    case DWaiting => 7
    case DRelock => 6
    case DLock => 6
    case DTest => 5
    case DPop => 4
    case DUnlock => 3
    case DSpawn => 2
    case DLoop => 1
    case DExited => 0
  }

  function DispatcherSteps(labels: seq<Label>): nat {
    if labels == [] then 0 else (if labels[0] == Dispatcher then 1 else 0) + DispatcherSteps(labels[1..])
  }

  lemma StopPays(s: State, l: Label)
    requires DispatcherOk(s) && s.stop && Step(s, l).Next?
    ensures var t := Step(s, l).state;
            t.stop && ExitWork(t.dispatcher) + (if l == Dispatcher then 1 else 0) <= ExitWork(s.dispatcher)
  {
    match l
    case Caller(r) => CallerKeepsExit(s, r);
    case Dispatcher => DispatcherPaysExit(s);
    case Stopper => StopperKeepsExit(s);
    case _ =>
  }

  lemma CallerKeepsExit(s: State, r: nat)
    requires r < |s.invocations| && CallerStep(s, r).Next?
    ensures var t := CallerStep(s, r).state;
            t.stop == s.stop && ExitWork(t.dispatcher) <= ExitWork(s.dispatcher)
  {
  }

  lemma DispatcherPaysExit(s: State)
    requires s.stop && DispatcherStep(s).Next?
    ensures var t := DispatcherStep(s).state; t.stop && ExitWork(t.dispatcher) < ExitWork(s.dispatcher)
  {
  }

  lemma StopperKeepsExit(s: State)
    requires s.stop && StopperStep(s).Next?
    ensures var t := StopperStep(s).state; t.stop && ExitWork(t.dispatcher) <= ExitWork(s.dispatcher)
  {
  }

  /** After a stop request the dispatcher takes a bounded number of steps, whatever the others do. */
  lemma {:induction false} StoppedStepsAreBounded(s: State, labels: seq<Label>)
    requires Inv(s) && s.stop && Run(s, labels).Next?
    ensures var t := Run(s, labels).state;
            t.stop && DispatcherSteps(labels) + ExitWork(t.dispatcher) <= ExitWork(s.dispatcher)
    decreases |labels|
  {
    if labels != [] {
      StepKeepsInv(s, labels[0]);
      StopPays(s, labels[0]);
      StoppedStepsAreBounded(Step(s, labels[0]).state, labels[1..]);
    }
  }

  /** And until it has exited, some thread can step: the dispatcher itself, the one that holds its mutex,
      or the one that asked it to stop and has still to wake it. */
  lemma StopIsNeverStuck(s: State) returns (l: Label)
    requires Inv(s) && s.stop && s.dispatcher != DExited
    ensures Step(s, l).Next? && (Ordinary(l) || (l == Stopper && s.stopper != SIdle))
  {
    match s.mutex
    case CallerOwns(q) =>
      assert InvocationOk(s, q);
      CallerConsistent(s, q);
      l := Caller(q);
    case DispatcherOwns =>
      DispatcherKeepsOthers(s);
      l := Dispatcher;
    case StopperOwns =>
      l := Stopper;
    case Free =>
      DispatcherKeepsOthers(s);
      if DispatcherStep(s).Next? {
        l := Dispatcher;
      } else {
        l := Stopper;
      }
  }

  /** Once nothing can go on any more after a stop request, the dispatcher has exited. */
  lemma StoppedDispatcherExits(s: State)
    requires Inv(s) && s.stop && s.stopper == SIdle && Stuck(s)
    ensures s.dispatcher == DExited
  {
    if s.dispatcher != DExited {
      var l := StopIsNeverStuck(s);
    }
  }
}
