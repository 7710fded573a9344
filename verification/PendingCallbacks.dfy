/** Callbacks that are still waiting for their Ruby block while Ruby code creates, frees and collects
    Functions: the callback protocol and the lifetimes of Functions, run together. The record of a callback
    names a closure, and the closure names the Function whose block runs. Nothing in either keeps the
    Function from giving the closure back in between. */
module PendingCallbacks {
  import opened Wrappers
  import PoolSpec
  import P = CallbackSpec
  import L = LifetimeSpec

  /** `given` is the closure each function got when it was created, and `owners` and `closures` say for each
      invocation which function native code called, and by which closure. */
  datatype State<C> = State(protocol: P.Spec, life: L.Life<C>, given: seq<Option<C>>,
                            owners: seq<nat>, closures: seq<C>)

  datatype Event<C> =
    | Call(i: nat)              // native code calls the closure of function i on a thread Ruby does not know
    | Proceed(a: P.Action)      // the native threads, the dispatcher and the runners go on
    | Ruby(op: L.Op<C>)         // Ruby code or the collector

  function Start<C>(): State<C> {
    State(P.Initial, L.Start(), [], [], [])
  }

  /** A new function's closure is told whose it is; giving a closure back tells it nothing. */
  function Told<C>(given: seq<Option<C>>, fns: seq<L.Fn<C>>): seq<Option<C>> {
    if |fns| == |given| + 1 then given + [fns[|given|].closure] else given
  }

  ghost function Step<C>(s: State<C>, e: Event<C>): Option<State<C>> {
    match e
    case Call(i) =>
      if L.Usable(s.life, i) && s.life.fns[i].closure.Some?
      then Some(s.(protocol := P.Step(s.protocol, P.Begin).value,
                   owners := s.owners + [i], closures := s.closures + [s.life.fns[i].closure.value]))
      else None
    case Proceed(a) =>
      if a.Begin? || P.Step(s.protocol, a) == None then None
      else Some(s.(protocol := P.Step(s.protocol, a).value))
    case Ruby(op) =>
      var o := L.Step(s.life, op);
      if o.Next? || o.Raised? then Some(s.(life := o.life, given := Told(s.given, o.life.fns))) else None
  }

  ghost function Run<C>(s: State<C>, events: seq<Event<C>>): Option<State<C>>
    decreases |events|
  {
    if events == [] then Some(s)
    else
      match Step(s, events[0])
      case None => None
      case Some(t) => Run(t, events[1..])
  }

  // ---------------------------------------------------------------- what a runner finds

  /** The info field of a closure: the last function created with it. */
  function Info<C(==)>(given: seq<Option<C>>, c: C): Option<nat> {
    if given == [] then None
    else if given[|given| - 1] == Some(c) then Some(|given| - 1)
    else Info(given[..|given| - 1], c)
  }

  /** What a runner that starts on a record finds: the pages of the pool are gone, the Function the closure
      names has been collected, its FunctionType has, or the block of function i can run. */
  datatype Found = PoolGone | FunctionGone | TypeGone | RunsBlockOf(i: nat)

  function Finds<C(==)>(s: State<C>, r: nat): Found
    requires r < |s.closures|
  {
    var i := Info(s.given, s.closures[r]);
    if s.life.cleanups > 0 then PoolGone
    else if i == None || i.value >= |s.life.fns| || s.life.fns[i.value].collected then FunctionGone
    else if !s.life.typeAlive then TypeGone
    else RunsBlockOf(i.value)
  }

  lemma {:induction false} InfoIsLast<C>(given: seq<Option<C>>, c: C, i: nat)
    requires i < |given| && given[i] == Some(c)
    ensures Info(given, c).Some? && i <= Info(given, c).value < |given|
    ensures given[Info(given, c).value] == Some(c)
    ensures Info(given, c) == Some(i) <==> forall k :: i < k < |given| ==> given[k] != Some(c)
    decreases |given|
  {
    if given[|given| - 1] != Some(c) {
      var front := given[..|given| - 1];
      InfoIsLast(front, c, i);
      if Info(front, c) == Some(i) {
        assert forall k :: i < k < |front| ==> front[k] == given[k];
      } else {
        var k :| i < k < |front| && front[k] == Some(c);
        assert given[k] == Some(c);
      }
    }
  }

  // ---------------------------------------------------------------- the invariant

  /** Function i has the closure it was given, or none any more. */
  predicate KeepsGiven<C(==)>(fns: seq<L.Fn<C>>, given: seq<Option<C>>, i: nat)
    requires i < |fns| == |given|
  {
    fns[i].closure == None || fns[i].closure == given[i]
  }

  /** While function i holds its closure, no later function is given the same one. */
  predicate Exclusive<C(==)>(fns: seq<L.Fn<C>>, given: seq<Option<C>>, i: nat, k: nat)
    requires i < |fns| == |given| && k < |given|
  {
    L.Holds(fns[i]) ==> given[k] != fns[i].closure
  }

  predicate HeldBy<C(==)>(fns: seq<L.Fn<C>>, c: C, i: nat) {
    i < |fns| && L.Holds(fns[i]) && fns[i].closure == Some(c)
  }

  ghost predicate LiveIsHeld<C>(fns: seq<L.Fn<C>>, live: set<C>) {
    forall c :: c in live ==> exists i: nat :: HeldBy(fns, c, i)
  }

  ghost predicate FunctionsOk<C>(life: L.Life<C>, given: seq<Option<C>>) {
    && L.Inv(life) && |given| == |life.fns|
    && (forall i :: 0 <= i < |given| ==> KeepsGiven(life.fns, given, i))
    && (forall i, k :: 0 <= i < k < |given| ==> Exclusive(life.fns, given, i, k))
    && (life.pool.Some? ==> LiveIsHeld(life.fns, life.pool.value.live))
    && (forall i :: 0 <= i < |given| ==> FromPool(life, given[i]))
  }

  predicate FromPool<C(==)>(life: L.Life<C>, c: Option<C>) {
    c.Some? ==> life.pool.Some? && c.value in life.pool.value.cells
  }

  predicate CallOk<C(==)>(s: State<C>, r: nat)
    requires r < |s.owners| == |s.closures|
  {
    s.owners[r] < |s.given| && s.given[s.owners[r]] == Some(s.closures[r])
  }

  ghost predicate Inv<C>(s: State<C>) {
    && FunctionsOk(s.life, s.given)
    && |s.owners| == |s.closures| == |s.protocol.stages|
    && forall r :: 0 <= r < |s.owners| ==> CallOk(s, r)
  }

  /** A new function with a closure nobody holds, or with none. */
  lemma AppendKeepsFunctions<C>(l: L.Life<C>, given: seq<Option<C>>, m: L.Life<C>, f: L.Fn<C>)
    requires FunctionsOk(l, given) && L.Inv(m) && m.fns == l.fns + [f] && !f.collected
    requires (m.pool == l.pool && f.closure == None) || (m.pool.Some? && NewClosure(l, m.pool.value, f.closure))
    ensures FunctionsOk(m, given + [f.closure])
  {
    var now := given + [f.closure];
    forall i | 0 <= i < |now| ensures KeepsGiven(m.fns, now, i) && FromPool(m, now[i]) {
      if i < |given| {
        assert KeepsGiven(l.fns, given, i) && FromPool(l, given[i]);
      }
    }
    forall i, k | 0 <= i < k < |now| ensures Exclusive(m.fns, now, i, k) {
      if k < |given| {
        assert Exclusive(l.fns, given, i, k);
      } else if L.Holds(l.fns[i]) && f.closure.Some? {
        assert l.pool.Some? && L.HeldIsLive(l.fns, i, l.pool.value.live);
      }
    }
    if m.pool.Some? {
      forall c | c in m.pool.value.live ensures exists i: nat :: HeldBy(m.fns, c, i) {
        if f.closure == Some(c) {
          assert HeldBy(m.fns, c, |l.fns|);
        } else {
          var i: nat :| HeldBy(l.fns, c, i);
          assert HeldBy(m.fns, c, i);
        }
      }
    }
  }

  /** The pool q after it has handed out c, when it had been l's or was just made. */
  ghost predicate NewClosure<C>(l: L.Life<C>, q: PoolSpec.Pool<C>, c: Option<C>) {
    var p := if l.pool == None then PoolSpec.New() else l.pool.value;
    && p.cells <= q.cells
    && (if c == None then q.live == p.live
        else c.value !in p.live && q.live == p.live + {c.value} && c.value in q.cells)
  }

  /** What creating a function does to the others and to the pool. */
  lemma NewCallbackAppends<C>(l: L.Life<C>, page: Option<L.Page<C>>)
    requires l.pool.Some? ==> PoolSpec.Valid(l.pool.value)
    ensures var o := L.Step(l, L.NewCallback(page));
            o.Next? || o.Raised? ==>
              && |o.life.fns| == |l.fns| + 1 && o.life.fns == l.fns + [o.life.fns[|l.fns|]]
              && !o.life.fns[|l.fns|].collected
              && o.life.pool.Some? && NewClosure(l, o.life.pool.value, o.life.fns[|l.fns|].closure)
  {
    var o := L.Step(l, L.NewCallback(page));
    var p := if l.pool == None then PoolSpec.New() else l.pool.value;
    if (o.Next? || o.Raised?) && p.free != [] {
      PoolSpec.ReuseKeepsValid(p);
    } else if o.Next? {
      PoolSpec.GrowKeepsValid(p, page.value.address, page.value.cells);
      assert page.value.cells[0] in PoolSpec.Elements(page.value.cells);
    }
  }

  lemma NewCallbackKeeps<C>(l: L.Life<C>, given: seq<Option<C>>, page: Option<L.Page<C>>)
    requires FunctionsOk(l, given)
    ensures var o := L.Step(l, L.NewCallback(page));
            o.Next? || o.Raised? ==> FunctionsOk(o.life, Told(given, o.life.fns))
  {
    var o := L.Step(l, L.NewCallback(page));
    NewCallbackAppends(l, page);
    if o.Next? || o.Raised? {
      L.StepKeepsInv(l, L.NewCallback(page));
      AppendKeepsFunctions(l, given, o.life, o.life.fns[|l.fns|]);
    }
  }

  /** Function i changes to f, and gives its closure back if f no longer holds it. */
  lemma ChangeKeepsFunctions<C>(l: L.Life<C>, given: seq<Option<C>>, m: L.Life<C>, i: nat, f: L.Fn<C>)
    requires FunctionsOk(l, given) && L.Inv(m) && i < |l.fns| && m.fns == l.fns[i := f]
    requires f.closure == None || f.closure == l.fns[i].closure
    requires L.Holds(f) ==> L.Holds(l.fns[i])
    requires l.pool.Some? <==> m.pool.Some?
    requires l.pool.Some? ==> m.pool.value.cells == l.pool.value.cells
    requires l.pool.Some? ==> m.pool.value.live == l.pool.value.live - GivenBack(l.fns[i], f)
    ensures FunctionsOk(m, given)
  {
    forall k | 0 <= k < |given| ensures KeepsGiven(m.fns, given, k) && FromPool(m, given[k]) {
      assert KeepsGiven(l.fns, given, k) && FromPool(l, given[k]);
    }
    forall k, q | 0 <= k < q < |given| ensures Exclusive(m.fns, given, k, q) {
      assert Exclusive(l.fns, given, k, q);
    }
    if m.pool.Some? {
      forall c | c in m.pool.value.live ensures exists k: nat :: HeldBy(m.fns, c, k) {
        var k: nat :| HeldBy(l.fns, c, k);
        assert HeldBy(m.fns, c, k);
      }
    }
  }

  function GivenBack<C(==)>(f: L.Fn<C>, g: L.Fn<C>): set<C> {
    if L.Holds(f) && !L.Holds(g) then {f.closure.value} else {}
  }

  lemma ReleaseKeeps<C>(l: L.Life<C>, given: seq<Option<C>>, i: nat)
    requires FunctionsOk(l, given) && L.Usable(l, i) && l.fns[i].closure.Some?
    ensures FunctionsOk(L.AfterFree(l, i, l.fns[i].(closure := None)), given)
  {
    L.ReleaseStep(l, i);
    var m := L.AfterFree(l, i, l.fns[i].(closure := None));
    ChangeKeepsFunctions(l, given, m, i, m.fns[i]);
  }

  lemma CollectKeeps<C>(l: L.Life<C>, given: seq<Option<C>>, i: nat)
    requires FunctionsOk(l, given) && L.Usable(l, i)
    ensures L.Step(l, L.Collect(i)).Next? && FunctionsOk(L.Step(l, L.Collect(i)).life, given)
    ensures |L.Step(l, L.Collect(i)).life.fns| == |l.fns|
  {
    L.CollectStep(l, i);
    var m := L.AfterCollect(l, i);
    ChangeKeepsFunctions(l, given, m, i, m.fns[i]);
  }

  lemma SetAutoreleaseKeeps<C>(l: L.Life<C>, given: seq<Option<C>>, i: nat, autorelease: bool)
    requires FunctionsOk(l, given) && L.Usable(l, i)
    ensures FunctionsOk(l.(fns := l.fns[i := l.fns[i].(autorelease := autorelease)]), given)
  {
    var f := l.fns[i].(autorelease := autorelease);
    L.UpdateKeepsInv(l, i, f);
    ChangeKeepsFunctions(l, given, l.(fns := l.fns[i := f]), i, f);
  }

  lemma CollectTypeKeeps<C>(l: L.Life<C>, given: seq<Option<C>>, m: L.Life<C>)
    requires FunctionsOk(l, given) && L.Step(l, L.CollectType) == L.Next(m)
    ensures FunctionsOk(m, given)
  {
    L.StepKeepsInv(l, L.CollectType);
    assert m.fns == l.fns;
    forall i | 0 <= i < |given| ensures FromPool(m, given[i]) && KeepsGiven(m.fns, given, i) {
      assert FromPool(l, given[i]) && KeepsGiven(l.fns, given, i);
    }
  }

  lemma RubyKeepsFunctions<C>(l: L.Life<C>, given: seq<Option<C>>, op: L.Op<C>)
    requires FunctionsOk(l, given)
    ensures var o := L.Step(l, op);
            o.Next? || o.Raised? ==> FunctionsOk(o.life, Told(given, o.life.fns))
  {
    var o := L.Step(l, op);
    if o.Next? || o.Raised? {
      match op
      case NewCallback(page) => NewCallbackKeeps(l, given, page);
      case NewFromPointer => FromPointerKeeps(l, given, o.life);
      case Release(i) =>
        if l.fns[i].closure.Some? {
          ReleaseKeeps(l, given, i);
          L.ReleaseStep(l, i);
        }
      case SetAutorelease(i, autorelease) => SetAutoreleaseKeeps(l, given, i, autorelease);
      case Collect(i) => CollectKeeps(l, given, i);
      case CollectType => CollectTypeKeeps(l, given, o.life);
    }
  }

  lemma FromPointerKeeps<C>(l: L.Life<C>, given: seq<Option<C>>, m: L.Life<C>)
    requires FunctionsOk(l, given) && L.Step(l, L.NewFromPointer) == L.Next(m)
    ensures FunctionsOk(m, Told(given, m.fns))
  {
    L.StepKeepsInv(l, L.NewFromPointer);
    AppendKeepsFunctions(l, given, m, L.Fn(None, true, false));
  }

  lemma StepKeepsInv<C>(s: State<C>, e: Event<C>)
    requires Inv(s) && Step(s, e).Some?
    ensures Inv(Step(s, e).value)
  {
    var t := Step(s, e).value;
    match e
    case Call(i) =>
      assert KeepsGiven(s.life.fns, s.given, i);
      forall r | 0 <= r < |t.owners| ensures CallOk(t, r) {
        assert r < |s.owners| ==> CallOk(s, r);
      }
    case Proceed(a) =>
      forall r | 0 <= r < |t.owners| ensures CallOk(t, r) {
        assert CallOk(s, r);
      }
    case Ruby(op) =>
      RubyKeepsFunctions(s.life, s.given, op);
      forall r | 0 <= r < |t.owners| ensures CallOk(t, r) {
        assert CallOk(s, r);
      }
  }

  lemma {:induction false} RunKeepsInv<C>(s: State<C>, events: seq<Event<C>>)
    requires Inv(s) && Run(s, events).Some?
    ensures Inv(Run(s, events).value)
    decreases |events|
  {
    if events != [] {
      StepKeepsInv(s, events[0]);
      RunKeepsInv(Step(s, events[0]).value, events[1..]);
    }
  }

  // ---------------------------------------------------------------- whose block runs

  /** A closure that its function still has names that function. */
  lemma OwnInfo<C>(s: State<C>, r: nat)
    requires Inv(s) && r < |s.owners|
    ensures s.owners[r] < |s.life.fns| && r < |s.closures|
    ensures s.life.fns[s.owners[r]].closure.Some? && !s.life.fns[s.owners[r]].collected ==>
              && s.life.fns[s.owners[r]].closure == Some(s.closures[r])
              && Info(s.given, s.closures[r]) == Some(s.owners[r])
  {
    var i := s.owners[r];
    assert CallOk(s, r) && KeepsGiven(s.life.fns, s.given, i);
    InfoIsLast(s.given, s.closures[r], i);
    if L.Holds(s.life.fns[i]) {
      forall k | i < k < |s.given| ensures s.given[k] != s.given[i] {
        assert Exclusive(s.life.fns, s.given, i, k);
      }
    }
  }

  /** In every run: a waiting callback runs the block of the function it was made on exactly when the
      FunctionType and the function have not been collected and no function created later was given the
      closure. That is so as long as the function has its closure. */
  lemma {:induction false} WhoseBlockRuns<C(!new)>(events: seq<Event<C>>, r: nat)
    requires Run(Start<C>(), events).Some? && r < |Run(Start<C>(), events).value.protocol.stages|
    ensures var s := Run(Start<C>(), events).value;
            && |s.owners| == |s.closures| == |s.protocol.stages| && s.owners[r] < |s.life.fns| == |s.given|
            && var (i, f) := (s.owners[r], s.life.fns[s.owners[r]]);
            && (Finds(s, r) == RunsBlockOf(i) <==>
                  s.life.typeAlive && !f.collected && forall k :: i < k < |s.given| ==> s.given[k] != s.given[i])
            && (f.closure.Some? && !f.collected && s.life.typeAlive ==> Finds(s, r) == RunsBlockOf(i))
  {
    RunKeepsInv(Start<C>(), events);
    var s := Run(Start<C>(), events).value;
    OwnBlockExactly(s, r);
  }

  lemma OwnBlockExactly<C>(s: State<C>, r: nat)
    requires Inv(s) && r < |s.owners|
    ensures s.owners[r] < |s.life.fns| == |s.given|
    ensures var (i, f) := (s.owners[r], s.life.fns[s.owners[r]]);
            && (Finds(s, r) == RunsBlockOf(i) <==>
                  s.life.typeAlive && !f.collected && forall k :: i < k < |s.given| ==> s.given[k] != s.given[i])
            && (f.closure.Some? && !f.collected && s.life.typeAlive ==> Finds(s, r) == RunsBlockOf(i))
  {
    assert CallOk(s, r);
    var i := s.owners[r];
    InfoIsLast(s.given, s.closures[r], i);
    assert FromPool(s.life, s.given[i]) && KeepsGiven(s.life.fns, s.given, i);
    OwnInfo(s, r);
  }

  /** When it is another function's block, that function was created later with the same closure, which the
      called one had given back; and if the closure is handed out, it is to that other function. */
  lemma {:induction false} AnotherBlock<C(!new)>(events: seq<Event<C>>, r: nat, k: nat)
    requires Run(Start<C>(), events).Some? && r < |Run(Start<C>(), events).value.closures|
    requires Finds(Run(Start<C>(), events).value, r) == RunsBlockOf(k)
    requires r < |Run(Start<C>(), events).value.owners| && k != Run(Start<C>(), events).value.owners[r]
    ensures var s := Run(Start<C>(), events).value;
            && s.owners[r] < k < |s.life.fns| == |s.given| && s.given[k] == Some(s.closures[r]) == s.given[s.owners[r]]
            && !L.Holds(s.life.fns[s.owners[r]])
            && s.life.pool.Some?
            && (s.closures[r] in s.life.pool.value.live <==> L.Holds(s.life.fns[k]))
            && (s.closures[r] in s.life.pool.value.free <==> !L.Holds(s.life.fns[k]))
  {
    RunKeepsInv(Start<C>(), events);
    var s := Run(Start<C>(), events).value;
    var i, c := s.owners[r], s.closures[r];
    assert CallOk(s, r);
    InfoIsLast(s.given, c, i);
    assert Exclusive(s.life.fns, s.given, i, k) && KeepsGiven(s.life.fns, s.given, i);
    HandedOutToLast(s.life, s.given, c, k);
  }

  /** A closure is handed out exactly when the last function created with it holds it, and free otherwise. */
  lemma HandedOutToLast<C>(l: L.Life<C>, given: seq<Option<C>>, c: C, k: nat)
    requires FunctionsOk(l, given) && Info(given, c) == Some(k) && k < |given| && given[k] == Some(c)
    ensures l.pool.Some?
    ensures c in l.pool.value.live <==> L.Holds(l.fns[k])
    ensures c in l.pool.value.free <==> !L.Holds(l.fns[k])
  {
    assert FromPool(l, given[k]) && KeepsGiven(l.fns, given, k);
    if L.Holds(l.fns[k]) {
      assert L.HeldIsLive(l.fns, k, l.pool.value.live);
    }
    if c in l.pool.value.live {
      var i: nat :| HeldBy(l.fns, c, i);
      assert KeepsGiven(l.fns, given, i);
      InfoIsLast(given, c, i);
      assert i < k ==> Exclusive(l.fns, given, i, k);
    }
  }

  /** Freeing function i puts its closure where the next one is taken from. */
  lemma FreedIsNext<C>(l: L.Life<C>, i: nat, page: Option<L.Page<C>>)
    requires L.Inv(l) && L.Usable(l, i) && l.typeAlive && l.fns[i].closure.Some?
    ensures L.Step(l, L.Release(i)).Next?
    ensures var m := L.Step(l, L.Release(i)).life;
            && m.fns == l.fns[i := l.fns[i].(closure := None)] && m.typeAlive && L.Inv(m)
            && L.Step(m, L.NewCallback(page)).Next?
            && var n := L.Step(m, L.NewCallback(page)).life;
            && n.fns == m.fns + [L.Fn(l.fns[i].closure, true, false)] && n.typeAlive
            && m.cleanups == 0 && n.cleanups == 0
  {
    L.ReleaseStep(l, i);
  }

  lemma TakesOver<C>(s: State<C>, r: nat, i: nat, page: Option<L.Page<C>>)
    requires L.Inv(s.life) && |s.given| == |s.life.fns| && s.life.typeAlive && r < |s.closures|
    requires L.Usable(s.life, i) && s.life.fns[i].closure == Some(s.closures[r])
    requires Info(s.given, s.closures[r]) == Some(i)
    ensures var t := Step(s, Ruby(L.Release(i)));
            && t.Some? && t.value.closures == s.closures && Finds(t.value, r) == RunsBlockOf(i)
            && var u := Step(t.value, Ruby(L.NewCallback(page)));
            && u.Some? && u.value.closures == s.closures && Finds(u.value, r) == RunsBlockOf(|s.life.fns|)
  {
    FreedIsNext(s.life, i, page);
    var t := Step(s, Ruby(L.Release(i))).value;
    var u := Step(t, Ruby(L.NewCallback(page))).value;
    assert u.given == s.given + [Some(s.closures[r])];
  }

  /** Freeing the function alone does not redirect a waiting callback, but the next function to be created
      takes over the closure, and with it every callback that still waits on it. */
  lemma NextFunctionTakesOver<C>(s: State<C>, r: nat, page: Option<L.Page<C>>)
    requires Inv(s) && r < |s.owners| && s.life.typeAlive
    requires L.Usable(s.life, s.owners[r]) && s.life.fns[s.owners[r]].closure.Some?
    ensures var t := Step(s, Ruby(L.Release(s.owners[r])));
            && t.Some? && r < |t.value.closures| && Finds(t.value, r) == RunsBlockOf(s.owners[r])
            && var u := Step(t.value, Ruby(L.NewCallback(page)));
            && u.Some? && r < |u.value.closures| && Finds(u.value, r) == RunsBlockOf(|s.life.fns|)
  {
    OwnInfo(s, r);
    TakesOver(s, r, s.owners[r], page);
  }
}
