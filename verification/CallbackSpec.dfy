/** What the asynchronous callback dispatcher is for, said without locks, condition variables or
    pointers. A callback that arrives on a thread unknown to Ruby is an invocation; it goes through the
    stages below in order. Both implementations of the dispatcher are proved to refine this protocol. */
module CallbackSpec {
  import opened Wrappers

  datatype Stage =
    | Preparing  // the native thread is building its record
    | Pending    // the record is on the dispatcher's list
    | Taken      // the dispatcher has unlinked the record and holds it
    | Spawned    // a runner thread exists for it, the Ruby block has not started
    | Running    // the Ruby block is executing
    | Ran        // the Ruby block has finished, the native thread has not returned
    | Returned   // the native thread has returned and its record is gone

  datatype Action =
    | Begin
    | Push(r: nat)
    | Take(r: nat)
    | Spawn(r: nat)
    | Start(r: nat)
    | Finish(r: nat)
    | Return(r: nat)

  /** Invocations are numbered from 0 in order of arrival; `pending` is the list, newest first. */
  datatype Spec = Spec(stages: seq<Stage>, pending: seq<nat>)

  const Initial := Spec([], [])

  predicate At(s: Spec, r: nat, stage: Stage) {
    r < |s.stages| && s.stages[r] == stage
  }

  function Move(s: Spec, r: nat, stage: Stage): Spec
    requires r < |s.stages|
  {
    s.(stages := s.stages[r := stage])
  }

  /** The effect of an action, None where the protocol does not allow it. */
  function Step(s: Spec, a: Action): Option<Spec> {
    match a
    case Begin => Some(s.(stages := s.stages + [Preparing]))
    case Push(r) =>
      if At(s, r, Preparing) then Some(Move(s, r, Pending).(pending := [r] + s.pending)) else None
    case Take(r) =>
      if At(s, r, Pending) && s.pending != [] && s.pending[0] == r
      then Some(Move(s, r, Taken).(pending := s.pending[1..])) else None
    case Spawn(r) => if At(s, r, Taken) then Some(Move(s, r, Spawned)) else None
    case Start(r) => if At(s, r, Spawned) then Some(Move(s, r, Running)) else None
    case Finish(r) => if At(s, r, Running) then Some(Move(s, r, Ran)) else None
    case Return(r) => if At(s, r, Ran) then Some(Move(s, r, Returned)) else None
  }

  function Run(s: Spec, actions: seq<Action>): Option<Spec>
    decreases |actions|
  {
    if actions == [] then Some(s)
    else
      match Step(s, actions[0])
      case None => None
      case Some(t) => Run(t, actions[1..])
  }

  function Count(actions: seq<Action>, a: Action): nat {
    if actions == [] then 0 else (if actions[0] == a then 1 else 0) + Count(actions[1..], a)
  }

  /** How far along an invocation is; no action ever moves one backwards. */
  function Rank(stage: Stage): nat {
    match stage
    case Preparing => 0
    case Pending => 1
    case Taken => 2
    case Spawned => 3
    case Running => 4
    case Ran => 5
    case Returned => 6
  }

  function RankOf(s: Spec, r: nat): nat {
    if r < |s.stages| then Rank(s.stages[r]) else 0
  }

  /** Along any run the action that moves invocation r out of a stage happens once if r crossed that
      stage and not at all otherwise. */
  lemma {:induction false} CrossedOnce(s: Spec, actions: seq<Action>, r: nat)
    requires Run(s, actions).Some?
    ensures var t := Run(s, actions).value;
            && RankOf(s, r) <= RankOf(t, r)
            && Count(actions, Start(r)) == (if RankOf(s, r) < 4 <= RankOf(t, r) then 1 else 0)
            && Count(actions, Finish(r)) == (if RankOf(s, r) < 5 <= RankOf(t, r) then 1 else 0)
            && Count(actions, Return(r)) == (if RankOf(s, r) < 6 <= RankOf(t, r) then 1 else 0)
    decreases |actions|
  {
    if actions != [] {
      CrossedOnce(Step(s, actions[0]).value, actions[1..], r);
    }
  }

  /** The Ruby block of an invocation is started at most once, and the native thread returns only in
      runs in which the block was started and finished exactly once. */
  lemma BlockRunsExactlyOnceBeforeReturn(actions: seq<Action>, r: nat)
    requires Run(Initial, actions).Some?
    ensures Count(actions, Start(r)) <= 1
    ensures Count(actions, Return(r)) <= Count(actions, Finish(r)) <= Count(actions, Start(r))
    ensures At(Run(Initial, actions).value, r, Returned) ==>
              Count(actions, Start(r)) == Count(actions, Finish(r)) == Count(actions, Return(r)) == 1
  {
    CrossedOnce(Initial, actions, r);
  }
}
