/** The two-level cache that gives a proc the same Function each time it is passed with the same signature. */
module CallbackCache {
  import opened Wrappers

  type Signature = nat
  type ProcId = nat

  /** A Function object, by identity. */
  datatype Function = Function(id: nat, sig: Signature)

  datatype Error = NoMemError

  /** What hangs off a proc: the instance variable for its first callback, and the hash for the others. */
  datatype Slots = Slots(first: Option<Function>, others: Option<map<Signature, Function>>)

  const NO_SLOTS: Slots := Slots(None, None)

  /** rbffi_Function_ForProc on one proc. `made` is the Function that would be created, if that succeeds. */
  function ForProc(s: Slots, sig: Signature, made: Option<Function>): (Slots, Result<Function, Error>) {
    if s.first.Some? && s.first.value.sig == sig then (s, Ok(s.first.value))
    else if s.others.Some? && sig in s.others.value then (s, Ok(s.others.value[sig]))
    else
      match made
      case None => (s, Err(NoMemError))
      case Some(f) =>
        if s.first.None? then (s.(first := Some(f)), Ok(f))
        else
          var table := if s.others.Some? then s.others.value else map[];
          (s.(others := Some(table[sig := f])), Ok(f))
  }

  /** The Functions the two levels hold between them. */
  function Cached(s: Slots): map<Signature, Function> {
    var table := if s.others.Some? then s.others.value else map[];
    if s.first.Some? then table[s.first.value.sig := s.first.value] else table
  }

  /** Each signature is stored in one level only, under its own key, and the hash only once the slot is taken. */
  ghost predicate Consistent(s: Slots) {
    && (s.others.Some? ==> s.first.Some? && s.first.value.sig !in s.others.value)
    && (s.others.Some? ==> forall k :: k in s.others.value ==> s.others.value[k].sig == k)
  }

  /** One lookup is one step of a plain memo table. */
  lemma ForProcIsMemo(s: Slots, sig: Signature, made: Option<Function>)
    requires Consistent(s) && (made.Some? ==> made.value.sig == sig)
    ensures var (n, r) := ForProc(s, sig, made);
            && Consistent(n)
            && (sig in Cached(s) ==> r == Ok(Cached(s)[sig]) && n == s)
            && (sig !in Cached(s) && made.Some? ==> r == Ok(made.value) && Cached(n) == Cached(s)[sig := made.value])
            && (sig !in Cached(s) && made.None? ==> r == Err(NoMemError) && n == s)
  {
    var n := ForProc(s, sig, made).0;
    if sig !in Cached(s) && made.Some? && s.first.Some? {
      assert Cached(n) == Cached(s)[sig := made.value];
    }
  }

  // ---------------------------------------------------------------- runs over many procs

  /** A request for a callback, and whether creating a Function would succeed. */
  datatype Request = Request(proc: ProcId, sig: Signature, canMake: bool)

  /** The procs' slots, and how many Functions were made. */
  datatype State = State(procs: map<ProcId, Slots>, made: nat)

  function SlotsOf(s: State, p: ProcId): Slots {
    if p in s.procs then s.procs[p] else NO_SLOTS
  }

  function Step(s: State, q: Request): (State, Result<Function, Error>) {
    var (n, r) := ForProc(SlotsOf(s, q.proc), q.sig, if q.canMake then Some(Function(s.made, q.sig)) else None);
    var created := n != SlotsOf(s, q.proc);
    (State(s.procs[q.proc := n], if created then s.made + 1 else s.made), r)
  }

  function Run(s: State, qs: seq<Request>): (r: (State, seq<Result<Function, Error>>))
    ensures |r.1| == |qs|
    decreases |qs|
  {
    if qs == [] then (s, [])
    else
      var (n, a) := Step(s, qs[0]);
      var (e, rest) := Run(n, qs[1..]);
      (e, [a] + rest)
  }

  /** The Function cached for a pair, in whichever level. */
  function Found(s: State, p: ProcId, sig: Signature): Option<Function> {
    var c := Cached(SlotsOf(s, p));
    if sig in c then Some(c[sig]) else None
  }

  ghost predicate IsFound(s: State, p: ProcId, sig: Signature, f: Function) {
    Found(s, p, sig) == Some(f)
  }

  /** Every proc's slots are consistent, and no Function serves two pairs. */
  ghost predicate Sound(s: State) {
    && (forall p: ProcId :: Consistent(SlotsOf(s, p)))
    && (forall p: ProcId, k: Signature, f :: IsFound(s, p, k, f) ==> f.id < s.made)
    && (forall p: ProcId, k: Signature, f, q: ProcId, l: Signature, g ::
          IsFound(s, p, k, f) && IsFound(s, q, l, g) && f.id == g.id ==> p == q && k == l)
  }

  lemma NothingCachedIsSound()
    ensures Sound(State(map[], 0))
  {
    assert forall p: ProcId :: Consistent(SlotsOf(State(map[], 0), p));
  }

  /** What a plain table would answer. */
  function Answer(s: State, q: Request): Result<Function, Error> {
    match Found(s, q.proc, q.sig)
    case Some(f) => Ok(f)
    case None => if q.canMake then Ok(Function(s.made, q.sig)) else Err(NoMemError)
  }

  /** A request answers from the table, or adds to it, and leaves every other pair's entry alone. */
  lemma {:induction false} StepIsMemo(s: State, q: Request, p: ProcId, k: Signature)
    requires Consistent(SlotsOf(s, q.proc))
    ensures var (n, r) := Step(s, q);
            && Found(n, p, k) == (if p == q.proc && k == q.sig && r.Ok? then Some(r.value) else Found(s, p, k))
            && r == Answer(s, q)
            && n.made == (if Found(s, q.proc, q.sig).None? && q.canMake then s.made + 1 else s.made)
            && Consistent(SlotsOf(n, q.proc)) && (p != q.proc ==> SlotsOf(n, p) == SlotsOf(s, p))
  {
    ForProcIsMemo(SlotsOf(s, q.proc), q.sig, if q.canMake then Some(Function(s.made, q.sig)) else None);
  }

  lemma {:induction false} StepKeepsSound(s: State, q: Request)
    requires Sound(s)
    ensures Sound(Step(s, q).0)
  {
    var n := Step(s, q).0;
    assert Consistent(SlotsOf(s, q.proc));
    forall p: ProcId ensures Consistent(SlotsOf(n, p)) {
      StepIsMemo(s, q, p, 0);
      assert Consistent(SlotsOf(s, p));
    }
    forall p: ProcId, k: Signature, f | IsFound(n, p, k, f) ensures f.id < n.made {
      StepIsMemo(s, q, p, k);
      OldOrNew(s, q, p, k, f);
    }
    forall p: ProcId, k: Signature, f, o: ProcId, l: Signature, g
      | IsFound(n, p, k, f) && IsFound(n, o, l, g) && f.id == g.id
      ensures p == o && k == l
    {
      OldOrNew(s, q, p, k, f);
      OldOrNew(s, q, o, l, g);
    }
  }

  /** What is found after a request was found before, or is what the request just made. */
  lemma {:induction false} OldOrNew(s: State, q: Request, p: ProcId, k: Signature, f: Function)
    requires Sound(s) && IsFound(Step(s, q).0, p, k, f)
    ensures IsFound(s, p, k, f) || (p == q.proc && k == q.sig && f.id == s.made < Step(s, q).0.made)
  {
    assert Consistent(SlotsOf(s, q.proc));
    StepIsMemo(s, q, p, k);
  }

  /** Over a run entries are never replaced, and each answer given is an entry at the end. */
  lemma {:induction false} RunKeepsEntry(s: State, qs: seq<Request>, p: ProcId, k: Signature, f: Function)
    requires Sound(s) && IsFound(s, p, k, f)
    ensures IsFound(Run(s, qs).0, p, k, f)
    decreases |qs|
  {
    if qs != [] {
      assert Consistent(SlotsOf(s, qs[0].proc));
      StepIsMemo(s, qs[0], p, k);
      StepKeepsSound(s, qs[0]);
      RunKeepsEntry(Step(s, qs[0]).0, qs[1..], p, k, f);
    }
  }

  lemma {:induction false} RunKeepsSound(s: State, qs: seq<Request>)
    requires Sound(s)
    ensures Sound(Run(s, qs).0)
    decreases |qs|
  {
    if qs != [] {
      StepKeepsSound(s, qs[0]);
      RunKeepsSound(Step(s, qs[0]).0, qs[1..]);
    }
  }

  lemma {:induction false} AnswersAreEntries(s: State, qs: seq<Request>, i: nat)
    requires Sound(s) && i < |qs| && Run(s, qs).1[i].Ok?
    ensures IsFound(Run(s, qs).0, qs[i].proc, qs[i].sig, Run(s, qs).1[i].value)
    decreases |qs|
  {
    var n := Step(s, qs[0]).0;
    StepKeepsSound(s, qs[0]);
    if i == 0 {
      assert Consistent(SlotsOf(s, qs[0].proc));
      StepIsMemo(s, qs[0], qs[0].proc, qs[0].sig);
      RunKeepsEntry(n, qs[1..], qs[0].proc, qs[0].sig, Step(s, qs[0]).1.value);
    } else {
      AnswersAreEntries(n, qs[1..], i - 1);
    }
  }

  /** Over any run, a pair of proc and signature gets the same Function every time, and different pairs get
      different Functions: each pair's is made at most once. */
  lemma {:induction false} SamePairSameFunction(s: State, qs: seq<Request>, i: nat, j: nat)
    requires Sound(s) && i < |qs| && j < |qs|
    requires Run(s, qs).1[i].Ok? && Run(s, qs).1[j].Ok?
    ensures Run(s, qs).1[i].value == Run(s, qs).1[j].value
       <==> qs[i].proc == qs[j].proc && qs[i].sig == qs[j].sig
  {
    AnswersAreEntries(s, qs, i);
    AnswersAreEntries(s, qs, j);
    RunKeepsSound(s, qs);
  }

  // ---------------------------------------------------------------- in place

  /** A Ruby proc, with the two instance variables the cache uses. */
  class RubyProc {
    var cbRef: Option<Function>
    var cbTable: Option<map<Signature, Function>>

    function Contents(): Slots
      reads this
    {
      Slots(cbRef, cbTable)
    }

    constructor ()
      ensures Contents() == NO_SLOTS
    {
      cbRef, cbTable := None, None;
    }

    method CallbackFor(sig: Signature, made: Option<Function>) returns (r: Result<Function, Error>)
      modifies this
      ensures (Contents(), r) == ForProc(old(Contents()), sig, made)
    {
      if cbRef.Some? && cbRef.value.sig == sig {
        return Ok(cbRef.value);
      }
      if cbTable.Some? && sig in cbTable.value {
        return Ok(cbTable.value[sig]);
      }
      if made.None? {
        return Err(NoMemError);
      }
      if cbRef.None? {
        cbRef := made;
      } else {
        if cbTable.None? {
          cbTable := Some(map[]);
        }
        cbTable := Some(cbTable.value[sig := made.value]);
      }
      r := Ok(made.value);
    }
  }
}
