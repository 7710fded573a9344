/** Marshalling the arguments of a native call: one loop that advances three cursors. */
module CallParams {
  import opened Wrappers

  type Signature = nat

  /** Parameter types, by what the loop does with them. A mapped type converts its argument first. */
  datatype PType = Plain | Callback(sig: Signature) | StructByValue | Mapped(inner: PType) | Unsupported

  /** An argument as passed, or what a mapped type's to_native made of it. */
  datatype Value = Given(id: int) | Converted(v: Value)

  /** One parameter's storage. */
  datatype Cell = Unset | Holds(v: Value) | Code(proc: Value, sig: Signature)

  /** What ffi_call is given for a parameter: a storage cell or the address of a struct. */
  datatype Ref = Slot(n: nat) | Address(v: Value)

  datatype Error = ArgumentError

  /** The type the switch looks at: the loop unwraps one level of mapping. */
  function Native(t: PType): PType {
    match t
    case Mapped(Mapped(_)) => Unsupported
    case Mapped(u) => u
    case _ => t
  }

  // ---------------------------------------------------------------- the list of callback signatures

  /** The signatures of the parameters that are callbacks themselves, in order. */
  function Signatures(types: seq<PType>): seq<Signature> {
    if types == [] then []
    else
      var t := types[|types| - 1];
      Signatures(types[..|types| - 1]) + if t.Callback? then [t.sig] else []
  }

  /** fntype_initialize grows the list one parameter at a time. */
  method CollectCallbacks(types: seq<PType>) returns (callbackParameters: seq<Signature>)
    ensures callbackParameters == Signatures(types)
  {
    callbackParameters := [];
    for i := 0 to |types|
      invariant callbackParameters == Signatures(types[..i])
    {
      assert types[..i + 1][..i] == types[..i];
      if types[i].Callback? {
        callbackParameters := callbackParameters + [types[i].sig];
      }
    }
    assert types[..|types|] == types;
  }

  /** How many of the first i parameters the switch treats as callbacks. */
  function CallbacksBefore(types: seq<PType>, i: nat): nat
    requires i <= |types|
  {
    if i == 0 then 0 else CallbacksBefore(types, i - 1) + if Native(types[i - 1]).Callback? then 1 else 0
  }

  predicate NoMappedCallback(types: seq<PType>) {
    forall i :: 0 <= i < |types| ==> (Native(types[i]).Callback? ==> types[i].Callback?)
  }

  /** The loop gets to parameter i: it raises at the first one of an unsupported type. */
  predicate Reached(types: seq<PType>, i: nat)
    requires i <= |types|
  {
    forall j :: 0 <= j < i ==> !Native(types[j]).Unsupported?
  }

  /** The callback cursor is inside the list whenever the loop uses it. */
  predicate CursorInRange(types: seq<PType>) {
    forall i :: 0 <= i < |types| && Reached(types, i) && Native(types[i]).Callback? ==>
                  CallbacksBefore(types, i) < |Signatures(types)|
  }

  lemma {:induction false} CallbacksAreCounted(types: seq<PType>, i: nat)
    requires i <= |types|
    ensures |Signatures(types[..i])| <= CallbacksBefore(types, i)
    ensures CallbacksBefore(types, i) == |Signatures(types[..i])| <==> NoMappedCallback(types[..i])
    decreases i
  {
    if i > 0 {
      CallbacksAreCounted(types, i - 1);
      assert types[..i][..i - 1] == types[..i - 1];
      assert NoMappedCallback(types[..i]) <==>
        NoMappedCallback(types[..i - 1]) && (Native(types[i - 1]).Callback? ==> types[i - 1].Callback?) by {
        assert forall j :: 0 <= j < i - 1 ==> types[..i][j] == types[..i - 1][j];
        assert types[..i][i - 1] == types[i - 1];
      }
    }
  }

  lemma {:induction false} CallbacksGrow(types: seq<PType>, i: nat, j: nat)
    requires i <= j <= |types|
    ensures CallbacksBefore(types, i) <= CallbacksBefore(types, j)
    decreases j
  {
    if i < j {
      CallbacksGrow(types, i, j - 1);
    }
  }

  /** The last callback of the list, if there is any. */
  lemma {:induction false} LastCallback(types: seq<PType>, n: nat) returns (i: nat)
    requires n <= |types| && CallbacksBefore(types, n) > 0
    ensures i < n && Native(types[i]).Callback? && CallbacksBefore(types, i) + 1 == CallbacksBefore(types, n)
    decreases n
  {
    if Native(types[n - 1]).Callback? {
      i := n - 1;
    } else {
      i := LastCallback(types, n - 1);
    }
  }

  /** Where the loop stops: at the first parameter of an unsupported type, or at the end. */
  function Stop(types: seq<PType>): (m: nat)
    ensures m <= |types| && Reached(types, m)
    ensures m < |types| ==> Native(types[m]).Unsupported?
  {
    if types == [] || Native(types[0]).Unsupported? then 0
    else
      var m := Stop(types[1..]) + 1;
      assert forall j :: 0 < j < m ==> types[j] == types[1..][j - 1];
      m
  }

  lemma ReachedBeforeStop(types: seq<PType>, i: nat)
    requires i < |types|
    ensures Reached(types, i) && !Native(types[i]).Unsupported? <==> i < Stop(types)
  {
  }

  /** How many of the first i parameters have a mapped type that wraps a callback. */
  function MappedCallbacks(types: seq<PType>, i: nat): nat
    requires i <= |types|
  {
    if i == 0 then 0
    else
      var t := types[i - 1];
      MappedCallbacks(types, i - 1) + if Native(t).Callback? && !t.Callback? then 1 else 0
  }

  lemma {:induction false} MappedAndDirect(types: seq<PType>, i: nat)
    requires i <= |types|
    ensures CallbacksBefore(types, i) == |Signatures(types[..i])| + MappedCallbacks(types, i)
    decreases i
  {
    if i > 0 {
      MappedAndDirect(types, i - 1);
      assert types[..i][..i - 1] == types[..i - 1];
    }
  }

  lemma {:induction false} SignaturesSplit(types: seq<PType>, m: nat)
    requires m <= |types|
    ensures |Signatures(types)| == |Signatures(types[..m])| + |Signatures(types[m..])|
    decreases |types|
  {
    if m < |types| {
      var front := types[..|types| - 1];
      SignaturesSplit(front, m);
      assert front[..m] == types[..m] && types[m..][..|types| - 1 - m] == front[m..];
    } else {
      assert types[..m] == types && types[m..] == [];
    }
  }

  /** The loop stays inside the list of callback signatures exactly when the mapped callbacks it gets to are
      no more than the callback parameters from where it stops on, whose signatures they would take. */
  lemma CursorStaysInRange(types: seq<PType>)
    ensures CursorInRange(types) <==> MappedCallbacks(types, Stop(types)) <= |Signatures(types[Stop(types)..])|
  {
    var m := Stop(types);
    MappedAndDirect(types, m);
    SignaturesSplit(types, m);
    if CallbacksBefore(types, m) <= |Signatures(types)| {
      forall i | 0 <= i < |types| && Reached(types, i) && Native(types[i]).Callback?
        ensures CallbacksBefore(types, i) < |Signatures(types)|
      {
        ReachedBeforeStop(types, i);
        CallbacksGrow(types, i + 1, m);
      }
    } else {
      var i := LastCallback(types, m);
      assert Reached(types, i);
    }
  }

  /** The smallest case that does not: one parameter of a mapped type that wraps a callback. */
  lemma MappedCallbackRunsPast(sig: Signature)
    ensures !CursorInRange([Mapped(Callback(sig))])
  {
    var types := [Mapped(Callback(sig))];
    assert Signatures(types) == [] by {
      assert types[..0] == [];
    }
    assert Native(types[0]) == Callback(sig) && Reached(types, 0);
  }

  /** Of a function whose parameter types are all supported: exactly when no mapped type wraps a callback. */
  lemma CursorStaysInRangeIfSupported(types: seq<PType>)
    requires AllSupported(types)
    ensures CursorInRange(types) <==> NoMappedCallback(types)
  {
    var n := |types|;
    assert Stop(types) == n && types[..n] == types && types[n..] == [];
    CursorStaysInRange(types);
    MappedAndDirect(types, n);
    CallbacksAreCounted(types, n);
  }

  predicate AllSupported(types: seq<PType>) {
    forall i :: 0 <= i < |types| ==> !Native(types[i]).Unsupported?
  }

  /** A type the switch has a case for, itself or wrapped by one mapping. */
  predicate Basic(t: PType) {
    t.Plain? || t.Callback? || t.StructByValue?
  }

  /** So a mapped type that wraps another one is refused. */
  lemma SupportedExactly(types: seq<PType>)
    ensures AllSupported(types) <==>
              forall i :: 0 <= i < |types| ==> Basic(types[i]) || (types[i].Mapped? && Basic(types[i].inner))
  {
    assert forall t: PType :: !Native(t).Unsupported? <==> Basic(t) || (t.Mapped? && Basic(t.inner));
  }

  /** At callback i the cursor points at that callback's own signature. */
  lemma {:induction false} CursorFindsSignature(types: seq<PType>, n: nat, i: nat)
    requires NoMappedCallback(types) && i < n <= |types| && types[i].Callback?
    ensures CallbacksBefore(types, i) < |Signatures(types[..n])|
    ensures Signatures(types[..n])[CallbacksBefore(types, i)] == types[i].sig
    decreases n
  {
    assert types[..n][..n - 1] == types[..n - 1];
    if i < n - 1 {
      CursorFindsSignature(types, n - 1, i);
    } else {
      CallbacksAreCounted(types, i);
    }
  }

  // ---------------------------------------------------------------- which argument goes where

  /** The argument the loop takes for parameter i. */
  function ArgIndex(types: seq<PType>, i: nat, fromBlock: bool): int
    requires i <= |types|
  {
    if fromBlock then i - CallbacksBefore(types, i) else i
  }

  /** What parameter i must receive. */
  function Expected(argv: seq<Value>, types: seq<PType>, i: nat, block: Option<Value>): Cell
    requires i < |types| && NoMappedCallback(types)
    requires 0 <= ArgIndex(types, i, block.Some?) < |argv| || (types[i].Callback? && block.Some?)
  {
    var arg := ArgIndex(types, i, block.Some?);
    match types[i]
    case Callback(sig) => Code(if block.Some? then block.value else argv[arg], sig)
    case Mapped(_) => Holds(Converted(argv[arg]))
    case _ => Holds(argv[arg])
  }

  predicate Accepts(argc: nat, types: seq<PType>, block: Option<Value>) {
    argc == |types| || (argc == |types| - 1 && |Signatures(types)| == 1 && block.Some?)
  }

  /** The argument cursor is in range whenever it is used, in both modes. */
  lemma ArgumentInRange(types: seq<PType>, i: nat, argc: nat, block: Option<Value>)
    requires Accepts(argc, types, block) && i < |types|
    ensures var fromBlock := argc != |types|;
            && 0 <= ArgIndex(types, i, fromBlock)
            && (ArgIndex(types, i, fromBlock) < argc || (types[i].Callback? && fromBlock))
  {
    CallbackBound(types, i);
    if argc != |types| && i == |types| - 1 {
      assert types[..i] == types[..|types| - 1];
      CallbacksAreCounted(types, i);
    }
  }

  lemma {:induction false} CallbackBound(types: seq<PType>, i: nat)
    requires i <= |types|
    ensures CallbacksBefore(types, i) <= i
    decreases i
  {
    if i > 0 {
      CallbackBound(types, i - 1);
    }
  }

  /** When a block stands in for the one callback, the arguments fill the other parameters in order:
      the ones before the callback keep their index, the ones after it move up by one. */
  lemma BlockShiftsArguments(types: seq<PType>, i: nat)
    requires NoMappedCallback(types) && |Signatures(types)| == 1 && i < |types| && !types[i].Callback?
    ensures exists p :: 0 <= p < |types| && types[p].Callback? && p != i
                        && ArgIndex(types, i, true) == if i < p then i else i - 1
  {
    assert types[..|types|] == types;
    CallbacksAreCounted(types, |types|);
    var p := LastCallback(types, |types|);
    assert types[p].Callback?;
    if i < p {
      CallbacksGrow(types, i, p);
    } else {
      CallbacksGrow(types, p + 1, i);
      CallbacksGrow(types, i, |types|);
    }
    assert types[p].Callback? && p != i && ArgIndex(types, i, true) == if i < p then i else i - 1;
  }

  /** Parameter p is the only callback among the parameters. */
  predicate OnlyCallback(types: seq<PType>, p: nat)
    requires p < |types|
  {
    types[p].Callback? && forall i :: 0 <= i < |types| && types[i].Callback? ==> i == p
  }

  lemma {:induction false} OneSignature(types: seq<PType>)
    ensures |Signatures(types)| == 0 <==> forall i :: 0 <= i < |types| ==> !types[i].Callback?
    ensures |Signatures(types)| == 1 <==> exists p :: 0 <= p < |types| && OnlyCallback(types, p)
    decreases |types|
  {
    if types != [] {
      var n := |types| - 1;
      var front := types[..n];
      OneSignature(front);
      assert forall i :: 0 <= i < n ==> front[i] == types[i];
      if |Signatures(types)| == 1 {
        if types[n].Callback? {
          assert OnlyCallback(types, n);
        } else {
          var p :| 0 <= p < n && OnlyCallback(front, p);
          assert OnlyCallback(types, p);
        }
      }
      if p :| 0 <= p < |types| && OnlyCallback(types, p) {
        if p < n {
          assert OnlyCallback(front, p);
        }
      }
    }
  }

  /** The number of arguments is right if it is the number of parameters, or one less when a block is given
      and exactly one parameter is a callback. */
  lemma {:induction false} AcceptsExactly(argc: nat, types: seq<PType>, block: Option<Value>)
    ensures Accepts(argc, types, block) <==>
              argc == |types|
              || (argc + 1 == |types| && block.Some? && exists p :: 0 <= p < |types| && OnlyCallback(types, p))
  {
    OneSignature(types);
  }

  /** Without a block parameter i takes argument i; when a block stands in for the only callback, the
      parameters after it take the argument before theirs. */
  lemma {:induction false} ArgIndexAnswers(types: seq<PType>, i: nat, p: nat)
    requires i < |types| && NoMappedCallback(types)
    ensures ArgIndex(types, i, false) == i
    ensures p < |types| && OnlyCallback(types, p) ==> ArgIndex(types, i, true) == if i <= p then i else i - 1
  {
    if p < |types| && OnlyCallback(types, p) {
      CallbacksBeforeOnly(types, i, p);
    }
  }

  /** A callback gets code for its own signature, running the block if there is one; a mapped type gets a
      converted argument; everything else the argument itself. */
  lemma ExpectedIsPassed(argv: seq<Value>, types: seq<PType>, i: nat, block: Option<Value>)
    requires i < |types| && NoMappedCallback(types)
    requires 0 <= ArgIndex(types, i, block.Some?) < |argv| || (types[i].Callback? && block.Some?)
    ensures Expected(argv, types, i, block)
         == Passed(types[i], if types[i].Callback? && block.Some? then block.value
                             else argv[ArgIndex(types, i, block.Some?)])
  {
  }

  /** An argument as a parameter of this type gets it. */
  function Passed(t: PType, v: Value): Cell {
    if t.Callback? then Code(v, t.sig) else if t.Mapped? then Holds(Converted(v)) else Holds(v)
  }

  lemma {:induction false} CallbacksBeforeOnly(types: seq<PType>, i: nat, p: nat)
    requires NoMappedCallback(types) && i <= |types| && p < |types| && OnlyCallback(types, p)
    ensures CallbacksBefore(types, i) == if i <= p then 0 else 1
    decreases i
  {
    if i > 0 {
      CallbacksBeforeOnly(types, i - 1, p);
    }
  }

  /** Which storage cell parameter i gets. */
  function SlotIndex(types: seq<PType>, i: nat): nat
    requires i <= |types|
  {
    if i == 0 then 0 else SlotIndex(types, i - 1) + if Native(types[i - 1]).StructByValue? then 0 else 1
  }

  /** No two parameters share a cell, and there are cells enough. */
  lemma {:induction false} SlotsAreDistinct(types: seq<PType>, i: nat, j: nat)
    requires i < j <= |types| && !Native(types[i]).StructByValue?
    ensures SlotIndex(types, i) < SlotIndex(types, j) <= j
    decreases j
  {
    if i < j - 1 {
      SlotsAreDistinct(types, i, j - 1);
    } else {
      SlotBound(types, i);
    }
  }

  lemma {:induction false} SlotBound(types: seq<PType>, i: nat)
    requires i <= |types|
    ensures SlotIndex(types, i) <= i
    decreases i
  {
    if i > 0 {
      SlotBound(types, i - 1);
    }
  }

  // ---------------------------------------------------------------- the loop

  /** What the native function finds behind a parameter. */
  function Received(storage: seq<Cell>, refs: seq<Ref>, i: nat): Cell
    requires i < |refs|
  {
    match refs[i]
    case Address(v) => Holds(v)
    case Slot(n) => if n < |storage| then storage[n] else Unset
  }

  /** The loop's variables: the three arrays and the three cursors. */
  datatype Pass = Pass(argv: seq<Value>, storage: seq<Cell>, refs: seq<Ref>, param: nat, argidx: nat, cbidx: nat)

  /** What is fixed during a call: the parameter types and the block that stands in for the callback. */
  datatype Plan = Plan(types: seq<PType>, proc: Option<Value>)

  predicate CanPass(s: Pass, c: Plan, i: nat) {
    && i < |c.types| == |s.refs| && s.param < |s.storage|
    && !Native(c.types[i]).Unsupported?
    && (s.argidx < |s.argv| || (c.types[i].Callback? && c.proc.Some?))
    && (Native(c.types[i]).Callback? ==> s.cbidx < |Signatures(c.types)|)
  }

  /** One round of the loop. */
  function PassOne(s: Pass, c: Plan, i: nat): Pass
    requires CanPass(s, c, i)
  {
    var t := c.types[i];
    var argv := if t.Mapped? then s.argv[s.argidx := Converted(s.argv[s.argidx])] else s.argv;
    match Native(t)
    case Callback(_) =>
      var proc := if c.proc.Some? then c.proc.value else argv[s.argidx];
      Pass(argv, s.storage[s.param := Code(proc, Signatures(c.types)[s.cbidx])], s.refs[i := Slot(s.param)],
           s.param + 1, if c.proc.Some? then s.argidx else s.argidx + 1, s.cbidx + 1)
    case StructByValue =>
      Pass(argv, s.storage, s.refs[i := Address(argv[s.argidx])], s.param, s.argidx + 1, s.cbidx)
    case _ =>
      Pass(argv, s.storage[s.param := Holds(argv[s.argidx])], s.refs[i := Slot(s.param)],
           s.param + 1, s.argidx + 1, s.cbidx)
  }

  /** Parameter k has received what it must, in a cell of its own. */
  ghost predicate Delivered(argv: seq<Value>, c: Plan, s: Pass, k: nat)
    requires k < |c.types| == |s.refs| && NoMappedCallback(c.types)
  {
    && (0 <= ArgIndex(c.types, k, c.proc.Some?) < |argv| || (c.types[k].Callback? && c.proc.Some?))
    && Received(s.storage, s.refs, k) == Expected(argv, c.types, k, c.proc)
    && s.refs[k] == if Native(c.types[k]).StructByValue?
                    then Address(Expected(argv, c.types, k, c.proc).v)
                    else Slot(SlotIndex(c.types, k))
  }

  /** After the first i parameters: the cursors are where they should be, later arguments are untouched, and
      those parameters have received what they must. */
  ghost predicate PassedUpTo(argv: seq<Value>, c: Plan, s: Pass, i: nat) {
    && i <= |c.types| == |s.refs| == |s.storage| && |s.argv| == |argv|
    && s.param == SlotIndex(c.types, i) && s.cbidx == CallbacksBefore(c.types, i)
    && s.argidx == ArgIndex(c.types, i, c.proc.Some?)
    && (NoMappedCallback(c.types) ==> Untouched(argv, s) && forall k :: 0 <= k < i ==> Delivered(argv, c, s, k))
  }

  ghost predicate Untouched(argv: seq<Value>, s: Pass) {
    |s.argv| == |argv| && forall a :: s.argidx <= a < |argv| ==> s.argv[a] == argv[a]
  }

  ghost predicate Fits(argv: seq<Value>, c: Plan) {
    && CursorInRange(c.types)
    && (if c.proc.Some? then Accepts(|argv|, c.types, c.proc) && |argv| != |c.types| else |argv| == |c.types|)
  }

  lemma {:induction false} CanPassNext(argv: seq<Value>, c: Plan, s: Pass, i: nat)
    requires Fits(argv, c) && PassedUpTo(argv, c, s, i) && i < Stop(c.types)
    ensures CanPass(s, c, i)
  {
    ReachedBeforeStop(c.types, i);
    ArgumentInRange(c.types, i, |argv|, c.proc);
    SlotBound(c.types, i);
  }

  /** The parameter just passed has what it must. */
  lemma {:induction false} NewIsDelivered(argv: seq<Value>, c: Plan, s: Pass, i: nat)
    requires Fits(argv, c) && PassedUpTo(argv, c, s, i) && CanPass(s, c, i) && NoMappedCallback(c.types)
    ensures Delivered(argv, c, PassOne(s, c, i), i)
  {
    ArgumentInRange(c.types, i, |argv|, c.proc);
    if c.types[i].Callback? {
      assert c.types[..|c.types|] == c.types;
      CursorFindsSignature(c.types, |c.types|, i);
    }
  }

  /** The ones before it keep what they have. */
  lemma {:induction false} OldStayDelivered(argv: seq<Value>, c: Plan, s: Pass, i: nat, k: nat)
    requires PassedUpTo(argv, c, s, i) && CanPass(s, c, i) && NoMappedCallback(c.types) && k < i
    ensures Delivered(argv, c, PassOne(s, c, i), k)
  {
    assert Delivered(argv, c, s, k);
    if !Native(c.types[k]).StructByValue? {
      SlotsAreDistinct(c.types, k, i);
    }
  }

  lemma {:induction false} PassNext(argv: seq<Value>, c: Plan, s: Pass, i: nat)
    requires Fits(argv, c) && PassedUpTo(argv, c, s, i) && i < Stop(c.types)
    ensures CanPass(s, c, i) && PassedUpTo(argv, c, PassOne(s, c, i), i + 1)
  {
    CanPassNext(argv, c, s, i);
    var n := PassOne(s, c, i);
    if NoMappedCallback(c.types) {
      forall k | 0 <= k < i + 1 ensures Delivered(argv, c, n, k) {
        if k < i {
          OldStayDelivered(argv, c, s, i, k);
        } else {
          NewIsDelivered(argv, c, s, i);
        }
      }
    }
  }

  /** A loop that got to the end has passed every parameter. */
  lemma {:induction false} AllDelivered(argv: seq<Value>, c: Plan, s: Pass)
    requires CursorInRange(c.types) && |c.types| <= Stop(c.types) && PassedUpTo(argv, c, s, |c.types|)
    ensures AllSupported(c.types) && NoMappedCallback(c.types)
    ensures forall i :: 0 <= i < |c.types| ==> Delivered(argv, c, Done(s.argv, s.storage, s.refs), i)
  {
    assert AllSupported(c.types);
    CursorStaysInRangeIfSupported(c.types);
    forall i | 0 <= i < |c.types| ensures Delivered(argv, c, Done(s.argv, s.storage, s.refs), i) {
      assert Delivered(argv, c, s, i);
    }
  }

  /** rbffi_SetupCallParams for a fixed number of parameters; the answer is the block it used, if any. It is
      defined for all types whose callbacks stay inside the list of signatures. */
  method SetupCallParams(argv: array<Value>, types: seq<PType>, storage: array<Cell>, ffiValues: array<Ref>,
                         callbackParameters: seq<Signature>, block: Option<Value>)
    returns (r: Result<Option<Value>, Error>)
    requires callbackParameters == Signatures(types) && CursorInRange(types)
    requires storage.Length == |types| == ffiValues.Length
    modifies argv, storage, ffiValues
    ensures r.Ok? <==> Accepts(argv.Length, types, block) && AllSupported(types)
    ensures r.Ok? ==> r.value == (if argv.Length == |types| then None else block) && NoMappedCallback(types)
    ensures r.Ok? ==> forall i :: 0 <= i < |types| ==>
                        Delivered(old(argv[..]), Plan(types, r.value), Done(argv[..], storage[..], ffiValues[..]), i)
  {
    var argc := argv.Length;
    var proc: Option<Value> := None;
    if argc != |types| {
      if argc == |types| - 1 && |callbackParameters| == 1 && block.Some? {
        proc := block;
      } else {
        return Err(ArgumentError);
      }
    }
    ghost var given, c := argv[..], Plan(types, proc);
    var param, argidx, cbidx := 0, 0, 0;
    for i := 0 to |types|
      invariant PassedUpTo(given, c, Pass(argv[..], storage[..], ffiValues[..], param, argidx, cbidx), i)
      invariant i <= Stop(types)
    {
      if Native(types[i]).Unsupported? {
        return Err(ArgumentError);
      }
      PassNext(given, c, Pass(argv[..], storage[..], ffiValues[..], param, argidx, cbidx), i);
      param, argidx, cbidx := PassParameter(argv, types, storage, ffiValues, callbackParameters, proc,
                                            i, param, argidx, cbidx);
    }
    AllDelivered(given, c, Pass(argv[..], storage[..], ffiValues[..], param, argidx, cbidx));
    r := Ok(proc);
  }

  function Done(argv: seq<Value>, storage: seq<Cell>, refs: seq<Ref>): Pass {
    Pass(argv, storage, refs, 0, 0, 0)
  }

  /** The switch on a parameter's type, with the conversion of a mapped argument before it. */
  method PassParameter(argv: array<Value>, types: seq<PType>, storage: array<Cell>, ffiValues: array<Ref>,
                       callbackParameters: seq<Signature>, proc: Option<Value>,
                       i: nat, param: nat, argidx: nat, cbidx: nat)
    returns (param': nat, argidx': nat, cbidx': nat)
    requires callbackParameters == Signatures(types)
    requires CanPass(Pass(argv[..], storage[..], ffiValues[..], param, argidx, cbidx), Plan(types, proc), i)
    modifies argv, storage, ffiValues
    ensures Pass(argv[..], storage[..], ffiValues[..], param', argidx', cbidx') ==
            PassOne(old(Pass(argv[..], storage[..], ffiValues[..], param, argidx, cbidx)), Plan(types, proc), i)
  {
    param', argidx', cbidx' := param, argidx, cbidx;
    var t := types[i];
    if t.Mapped? {
      argv[argidx] := Converted(argv[argidx]);
      t := t.inner;
    }
    ffiValues[i] := Slot(param);
    if t.Callback? {
      if proc.Some? {
        storage[param] := Code(proc.value, callbackParameters[cbidx]);
      } else {
        storage[param] := Code(argv[argidx], callbackParameters[cbidx]);
        argidx' := argidx + 1;
      }
      cbidx', param' := cbidx + 1, param + 1;
    } else if t.StructByValue? {
      ffiValues[i] := Address(argv[argidx]);
      argidx' := argidx + 1;
    } else {
      storage[param] := Holds(argv[argidx]);
      argidx', param' := argidx + 1, param + 1;
    }
  }
}
