/** Lifetimes of the Functions of one FunctionType and of the closure pool they share, over every order in
    which Ruby code and the garbage collector may create, free and collect them. */
module LifetimeSpec {
  import opened Wrappers
  import opened PoolSpec

  /** A Function object. `closure` is None for a function made from a pointer, after an explicit free and
      when no closure could be allocated. `collected` is set once the garbage collector has freed it. */
  datatype Fn<C> = Fn(closure: Option<C>, autorelease: bool, collected: bool)

  /** `pool` is None until the first callback needs it. `cleanups` counts how often it was destroyed. */
  datatype Life<C> = Life(pool: Option<Pool<C>>, typeAlive: bool, fns: seq<Fn<C>>, cleanups: nat)

  function Start<C>(): Life<C> {
    Life(None, true, [], 0)
  }

  /** A page the system can provide, with the new closures that fit on it. */
  datatype Page<C> = Page(address: int, cells: seq<C>)

  datatype Op<C> =
    | NewCallback(page: Option<Page<C>>)        // Function.new with a proc; page is what a new page would be
    | NewFromPointer                            // Function.new with an address
    | Release(i: nat)                           // function.free
    | SetAutorelease(i: nat, autorelease: bool)
    | Collect(i: nat)                           // the collector frees function i
    | CollectType                               // the collector frees the FunctionType

  /** Raised: a Ruby exception. Impossible: Ruby cannot perform the operation in this state. Fault: a pool
      is used after its destruction, or a closure is given back that is not handed out. */
  datatype Outcome<C> = Next(life: Life<C>) | Raised(life: Life<C>) | Impossible | Fault

  predicate Usable<C>(l: Life<C>, i: nat) {
    i < |l.fns| && !l.fns[i].collected
  }

  function CountCleanup<C>(l: Life<C>, p: Pool<C>): Life<C> {
    l.(pool := Some(p), cleanups := l.cleanups + if p.refcnt == 0 then 1 else 0)
  }

  /** rbffi_Closure_Free on the closure of function i. */
  function FreeClosure<C(==)>(l: Life<C>, i: nat, f: Fn<C>): Outcome<C>
    requires i < |l.fns| && l.fns[i].closure.Some?
  {
    var c := l.fns[i].closure.value;
    if l.pool == None || l.pool.value.refcnt <= 0 || c !in l.pool.value.live then Fault
    else Next(CountCleanup(l.(fns := l.fns[i := f]), GiveBack(l.pool.value, c)))
  }

  ghost predicate NewPageFor<C>(p: Pool<C>, page: Page<C>) {
    && page.cells != [] && Distinct(page.cells) && page.address !in p.pages
    && forall c :: c in page.cells ==> c !in p.cells
  }

  ghost function Step<C>(l: Life<C>, op: Op<C>): Outcome<C> {
    match op
    case NewCallback(page) =>
      var p := if l.pool == None then New() else l.pool.value;
      if !l.typeAlive then Impossible
      else if p.refcnt <= 0 then Fault
      else if p.free != [] then
        Next(l.(pool := Some(Reuse(p)), fns := l.fns + [Fn(Some(p.free[0]), true, false)]))
      else if page == None then
        Raised(l.(pool := Some(p), fns := l.fns + [Fn(None, true, false)]))
      else if !NewPageFor(p, page.value) then Impossible
      else
        Next(l.(pool := Some(Grow(p, page.value.address, page.value.cells)),
                fns := l.fns + [Fn(Some(page.value.cells[0]), true, false)]))
    case NewFromPointer =>
      if !l.typeAlive then Impossible else Next(l.(fns := l.fns + [Fn(None, true, false)]))
    case Release(i) =>
      if !Usable(l, i) then Impossible
      else if l.fns[i].closure == None then Raised(l)
      else FreeClosure(l, i, l.fns[i].(closure := None))
    case SetAutorelease(i, autorelease) =>
      if !Usable(l, i) then Impossible else Next(l.(fns := l.fns[i := l.fns[i].(autorelease := autorelease)]))
    case Collect(i) =>
      if !Usable(l, i) then Impossible
      else if l.fns[i].closure.Some? && l.fns[i].autorelease
      then FreeClosure(l, i, l.fns[i].(collected := true))
      else Next(l.(fns := l.fns[i := l.fns[i].(collected := true)]))
    case CollectType =>
      if !l.typeAlive then Impossible
      else if l.pool == None then Next(l.(typeAlive := false))
      else if l.pool.value.refcnt <= 0 then Fault
      else Next(CountCleanup(l.(typeAlive := false), Disown(l.pool.value)))
  }

  /** Function i keeps a closure from being reused: it still has one, or it was collected with autorelease
      switched off and leaked it. */
  predicate Holds<C>(f: Fn<C>) {
    f.closure.Some? && !(f.collected && f.autorelease)
  }

  function Holders<C>(fns: seq<Fn<C>>): nat {
    if fns == [] then 0 else (if Holds(fns[0]) then 1 else 0) + Holders(fns[1..])
  }

  /** What function i holds, the pool has handed out. */
  ghost predicate HeldIsLive<C>(fns: seq<Fn<C>>, i: nat, live: set<C>)
    requires i < |fns|
  {
    Holds(fns[i]) ==> fns[i].closure.value in live
  }

  /** Functions i and j do not hold the same closure. */
  predicate HoldApart<C(==)>(fns: seq<Fn<C>>, i: nat, j: nat)
    requires i < |fns| && j < |fns|
  {
    Holds(fns[i]) && Holds(fns[j]) ==> fns[i].closure != fns[j].closure
  }

  ghost predicate Inv<C>(l: Life<C>) {
    match l.pool
    case None => l.cleanups == 0 && forall i :: 0 <= i < |l.fns| ==> l.fns[i].closure == None
    case Some(p) =>
      && PoolSpec.Valid(p)
      && (p.owned <==> l.typeAlive)
      && l.cleanups == (if p.refcnt == 0 then 1 else 0)
      && |p.live| == Holders(l.fns)
      && (forall i :: 0 <= i < |l.fns| ==> HeldIsLive(l.fns, i, p.live))
      && (forall i, j :: 0 <= i < j < |l.fns| ==> HoldApart(l.fns, i, j))
  }

  lemma {:induction false} HoldersAppend<C>(fns: seq<Fn<C>>, f: Fn<C>)
    ensures Holders(fns + [f]) == Holders(fns) + (if Holds(f) then 1 else 0)
    decreases |fns|
  {
    if fns == [] {
      assert fns + [f] == [f];
    } else {
      assert (fns + [f])[1..] == fns[1..] + [f];
      HoldersAppend(fns[1..], f);
    }
  }

  lemma {:induction false} HoldersUpdate<C>(fns: seq<Fn<C>>, i: nat, f: Fn<C>)
    requires i < |fns|
    ensures Holders(fns[i := f]) == Holders(fns) - (if Holds(fns[i]) then 1 else 0) + (if Holds(f) then 1 else 0)
    decreases i
  {
    if i > 0 {
      assert fns[i := f][1..] == fns[1..][i - 1 := f];
      HoldersUpdate(fns[1..], i - 1, f);
    }
  }

  lemma {:induction false} NoHolders<C>(fns: seq<Fn<C>>)
    ensures Holders(fns) == 0 <==> forall i :: 0 <= i < |fns| ==> !Holds(fns[i])
    decreases |fns|
  {
    if fns != [] {
      NoHolders(fns[1..]);
      if Holders(fns) == 0 {
        forall i | 0 <= i < |fns| ensures !Holds(fns[i]) {
          assert i > 0 ==> fns[i] == fns[1..][i - 1];
        }
      } else if !Holds(fns[0]) {
        var j :| 0 <= j < |fns[1..]| && Holds(fns[1..][j]);
        assert Holds(fns[j + 1]);
      }
    }
  }

  /** A new function that holds nothing, or a closure nobody held, keeps closures apart. */
  lemma AppendKeepsApart<C>(fns: seq<Fn<C>>, live: set<C>, f: Fn<C>)
    requires forall i :: 0 <= i < |fns| ==> HeldIsLive(fns, i, live)
    requires forall i, j :: 0 <= i < j < |fns| ==> HoldApart(fns, i, j)
    requires Holds(f) ==> f.closure.value !in live
    ensures var now := live + (if Holds(f) then {f.closure.value} else {});
            forall i :: 0 <= i < |fns| + 1 ==> HeldIsLive(fns + [f], i, now)
    ensures forall i, j :: 0 <= i < j < |fns| + 1 ==> HoldApart(fns + [f], i, j)
  {
    var now := live + (if Holds(f) then {f.closure.value} else {});
    forall i | 0 <= i < |fns| + 1 ensures HeldIsLive(fns + [f], i, now) {
      assert i < |fns| ==> HeldIsLive(fns, i, live);
    }
    forall i, j | 0 <= i < j < |fns| + 1 ensures HoldApart(fns + [f], i, j) {
      assert HeldIsLive(fns, i, live);
      assert j < |fns| ==> HoldApart(fns, i, j);
    }
  }

  lemma AppendKeepsInv<C>(l: Life<C>, p: Pool<C>, f: Fn<C>)
    requires l.pool.Some? ==> Inv(l)
    requires l.pool == None ==> Inv(l.(pool := Some(New())))
    requires l.typeAlive && PoolSpec.Valid(p) && p.owned && p.refcnt > 0 && l.cleanups == 0
    requires var q := if l.pool == None then New() else l.pool.value;
             && (Holds(f) ==> f.closure.value !in q.live && p.live == q.live + {f.closure.value})
             && (!Holds(f) ==> p.live == q.live)
    ensures Inv(l.(pool := Some(p), fns := l.fns + [f]))
  {
    var q := if l.pool == None then New() else l.pool.value;
    HoldersAppend(l.fns, f);
    AppendKeepsApart(l.fns, q.live, f);
    assert p.live == q.live + (if Holds(f) then {f.closure.value} else {});
  }

  lemma NewCallbackKeepsInv<C>(l: Life<C>, page: Option<Page<C>>)
    requires Inv(l)
    ensures var o := Step(l, NewCallback(page)); o != Fault && (o.Next? || o.Raised? ==> Inv(o.life))
  {
    var p := if l.pool == None then New() else l.pool.value;
    NoHolders(l.fns);
    if l.typeAlive {
      if p.free != [] {
        ReuseKeepsValid(p);
        AppendKeepsInv(l, Reuse(p), Fn(Some(p.free[0]), true, false));
      } else if page == None {
        AppendKeepsInv(l, p, Fn(None, true, false));
      } else if NewPageFor(p, page.value) {
        GrowKeepsValid(p, page.value.address, page.value.cells);
        AppendKeepsInv(l, Grow(p, page.value.address, page.value.cells), Fn(Some(page.value.cells[0]), true, false));
      }
    }
  }

  lemma FreeClosureKeepsInv<C>(l: Life<C>, i: nat, f: Fn<C>)
    requires Inv(l) && i < |l.fns| && Holds(l.fns[i]) && !Holds(f)
    ensures FreeClosure(l, i, f).Next? && Inv(FreeClosure(l, i, f).life)
  {
    var p := l.pool.value;
    var c := l.fns[i].closure.value;
    assert HeldIsLive(l.fns, i, p.live);
    GiveBackKeepsValid(p, c);
    HoldersUpdate(l.fns, i, f);
    assert |p.live - {c}| == |p.live| - 1;
    var fns := l.fns[i := f];
    forall k | 0 <= k < |fns| ensures HeldIsLive(fns, k, p.live - {c}) {
      assert HeldIsLive(l.fns, k, p.live);
      assert k < i ==> HoldApart(l.fns, k, i);
      assert i < k ==> HoldApart(l.fns, i, k);
    }
    forall k, j | 0 <= k < j < |fns| ensures HoldApart(fns, k, j) {
      assert HoldApart(l.fns, k, j);
    }
  }

  /** The state after function i has given its closure back and become f. */
  function AfterFree<C(==)>(l: Life<C>, i: nat, f: Fn<C>): Life<C>
    requires i < |l.fns| && l.fns[i].closure.Some? && l.pool.Some?
  {
    CountCleanup(l.(fns := l.fns[i := f]), GiveBack(l.pool.value, l.fns[i].closure.value))
  }

  lemma ReleaseStep<C>(l: Life<C>, i: nat)
    requires Inv(l) && Usable(l, i) && l.fns[i].closure.Some?
    ensures Step(l, Release(i)) == Next(AfterFree(l, i, l.fns[i].(closure := None)))
    ensures Inv(AfterFree(l, i, l.fns[i].(closure := None)))
  {
    FreeClosureKeepsInv(l, i, l.fns[i].(closure := None));
  }

  /** What the collector leaves of function i: the closure is given back unless autorelease is off. */
  function AfterCollect<C(==)>(l: Life<C>, i: nat): Life<C>
    requires i < |l.fns| && (l.fns[i].closure.Some? ==> l.pool.Some?)
  {
    var f := l.fns[i].(collected := true);
    if f.closure.Some? && f.autorelease then AfterFree(l, i, f) else l.(fns := l.fns[i := f])
  }

  lemma CollectStep<C>(l: Life<C>, i: nat)
    requires Inv(l) && Usable(l, i)
    ensures l.fns[i].closure.Some? ==> l.pool.Some?
    ensures Step(l, Collect(i)) == Next(AfterCollect(l, i)) && Inv(AfterCollect(l, i))
  {
    if l.fns[i].closure.Some? && l.fns[i].autorelease {
      FreeClosureKeepsInv(l, i, l.fns[i].(collected := true));
    } else {
      UpdateKeepsInv(l, i, l.fns[i].(collected := true));
    }
  }

  /** Changing a function without touching whether and what it holds. */
  lemma UpdateKeepsInv<C>(l: Life<C>, i: nat, f: Fn<C>)
    requires Inv(l) && i < |l.fns| && f.closure == l.fns[i].closure && Holds(f) == Holds(l.fns[i])
    ensures Inv(l.(fns := l.fns[i := f]))
  {
    HoldersUpdate(l.fns, i, f);
    var fns := l.fns[i := f];
    if l.pool.Some? {
      forall k | 0 <= k < |fns| ensures HeldIsLive(fns, k, l.pool.value.live) {
        assert HeldIsLive(l.fns, k, l.pool.value.live);
      }
      forall k, j | 0 <= k < j < |fns| ensures HoldApart(fns, k, j) {
        assert HoldApart(l.fns, k, j);
      }
    }
  }

  lemma StepKeepsInv<C>(l: Life<C>, op: Op<C>)
    requires Inv(l)
    ensures var o := Step(l, op); o != Fault && (o.Next? || o.Raised? ==> Inv(o.life))
  {
    match op
    case NewCallback(page) => NewCallbackKeepsInv(l, page);
    case NewFromPointer =>
      if l.typeAlive && l.pool.Some? {
        AppendKeepsInv(l, l.pool.value, Fn(None, true, false));
      }
    case Release(i) =>
      if Usable(l, i) && l.fns[i].closure.Some? {
        FreeClosureKeepsInv(l, i, l.fns[i].(closure := None));
      }
    case SetAutorelease(i, autorelease) =>
      if Usable(l, i) {
        UpdateKeepsInv(l, i, l.fns[i].(autorelease := autorelease));
      }
    case Collect(i) =>
      if Usable(l, i) {
        CollectStep(l, i);
      }
    case CollectType =>
      if l.typeAlive && l.pool.Some? {
        DisownKeepsValid(l.pool.value);
      }
  }

  /** A program: operations that Ruby performs one after the other, exceptions being rescued. */
  ghost function Run<C>(l: Life<C>, ops: seq<Op<C>>): Outcome<C>
    decreases |ops|
  {
    if ops == [] then Next(l)
    else
      match Step(l, ops[0])
      case Next(m) => Run(m, ops[1..])
      case Raised(m) => Run(m, ops[1..])
      case other => other
  }

  lemma {:induction false} RunKeepsInv<C>(l: Life<C>, ops: seq<Op<C>>)
    requires Inv(l)
    ensures Run(l, ops) != Fault && (Run(l, ops).Next? ==> Inv(Run(l, ops).life))
    ensures !Run(l, ops).Raised?
    decreases |ops|
  {
    if ops != [] {
      StepKeepsInv(l, ops[0]);
      match Step(l, ops[0])
      case Next(m) => RunKeepsInv(m, ops[1..]);
      case Raised(m) => RunKeepsInv(m, ops[1..]);
      case other =>
    }
  }

  /** In every program: no closure is given back twice, no destroyed pool is used, no two functions share
      a closure, and the pool is destroyed at most once, namely as soon as the FunctionType is gone and
      every function has given its closure back. */
  lemma PoolDestroyedExactlyOnce<C(!new)>(ops: seq<Op<C>>)
    requires Run(Start<C>(), ops).Next?
    ensures var l := Run(Start<C>(), ops).life;
            && l.cleanups <= 1
            && (l.cleanups == 1 <==>
                  l.pool.Some? && !l.typeAlive && forall i :: 0 <= i < |l.fns| ==> !Holds(l.fns[i]))
            && (l.pool.Some? ==> forall i, j :: 0 <= i < j < |l.fns| ==> HoldApart(l.fns, i, j))
  {
    RunKeepsInv(Start<C>(), ops);
    NoHolders(Run(Start<C>(), ops).life.fns);
  }

  lemma NoProgramFaults<C>(ops: seq<Op<C>>)
    ensures Run(Start<C>(), ops) != Fault
  {
    RunKeepsInv(Start<C>(), ops);
  }

  /** Once everything has been collected, in whatever order, nothing is left behind but the closures of
      functions whose autorelease was switched off. */
  lemma CollectedEverything<C(!new)>(ops: seq<Op<C>>)
    requires Run(Start<C>(), ops).Next?
    requires var l := Run(Start<C>(), ops).life;
             !l.typeAlive && forall i :: 0 <= i < |l.fns| ==> l.fns[i].collected
    ensures var l := Run(Start<C>(), ops).life;
            l.pool.Some? ==>
              (l.cleanups == 1 <==> forall i :: 0 <= i < |l.fns| && l.fns[i].closure.Some? ==> l.fns[i].autorelease)
  {
    PoolDestroyedExactlyOnce(ops);
  }

  // ---------------------------------------------------------------- what the operations alone decide

  /** The flag function i ends up with: the argument of the last operation that set it. */
  function LastSetting<C>(ops: seq<Op<C>>, i: nat, initial: bool): bool {
    if ops == [] then initial
    else
      var op := ops[|ops| - 1];
      if op.SetAutorelease? && op.i == i then op.autorelease else LastSetting(ops[..|ops| - 1], i, initial)
  }

  lemma {:induction false} SettingFromFront<C>(ops: seq<Op<C>>, i: nat, initial: bool)
    requires ops != []
    ensures LastSetting(ops, i, initial)
         == var op := ops[0];
            LastSetting(ops[1..], i, if op.SetAutorelease? && op.i == i then op.autorelease else initial)
    decreases |ops|
  {
    if |ops| > 1 {
      var front := ops[..|ops| - 1];
      SettingFromFront(front, i, initial);
      assert front[1..] == ops[1..][..|ops| - 2];
    }
  }

  predicate Performed<C>(o: Outcome<C>) {
    o.Next? || o.Raised?
  }

  /** What one operation does to a function that is there already: only its own free takes its closure, only
      autorelease= sets its flag, and only its collection collects it. */
  lemma StepRemembers<C>(l: Life<C>, op: Op<C>, i: nat)
    requires Performed(Step(l, op)) && i < |l.fns|
    ensures var (f, m) := (l.fns[i], Step(l, op).life);
            && i < |m.fns|
            && m.fns[i] == Fn(if op == Release(i) then None else f.closure,
                              if op.SetAutorelease? && op.i == i then op.autorelease else f.autorelease,
                              f.collected || op == Collect(i))
  {
  }

  /** Over every program that goes on from there. */
  lemma {:induction false} FunctionRemembers<C(!new)>(l: Life<C>, ops: seq<Op<C>>, i: nat)
    requires Run(l, ops).Next? && i < |l.fns|
    ensures var (f, m) := (l.fns[i], Run(l, ops).life);
            && i < |m.fns|
            && m.fns[i].closure == (if Release(i) in ops then None else f.closure)
            && m.fns[i].autorelease == LastSetting(ops, i, f.autorelease)
            && (m.fns[i].collected <==> f.collected || Collect(i) in ops)
    decreases |ops|
  {
    if ops != [] {
      assert ops == [ops[0]] + ops[1..];
      StepRemembers(l, ops[0], i);
      FunctionRemembers(Step(l, ops[0]).life, ops[1..], i);
      SettingFromFront(ops, i, l.fns[i].autorelease);
    }
  }

  /** An operation makes at most one function, which starts with autorelease on; and none can be named before
      it is made. */
  lemma StepMakes<C>(l: Life<C>, op: Op<C>)
    requires Performed(Step(l, op))
    ensures var m := Step(l, op).life;
            && |m.fns| == |l.fns| + (if op.NewCallback? || op.NewFromPointer? then 1 else 0)
            && (|m.fns| > |l.fns| ==> m.fns[|l.fns|].autorelease && !m.fns[|l.fns|].collected)
            && (op.SetAutorelease? || op.Release? || op.Collect? ==> op.i < |l.fns|)
            && (m.typeAlive <==> l.typeAlive && op != CollectType)
  {
  }

  /** Over every program from the start: a function's flag is the argument of the last autorelease= for it, or
      true if there was none, and it is collected exactly if a collection of it is among the operations. */
  lemma {:induction false} AutoreleaseIsLastSetting<C(!new)>(l: Life<C>, ops: seq<Op<C>>, i: nat)
    requires Run(l, ops).Next? && |l.fns| <= i < |Run(l, ops).life.fns|
    ensures var f := Run(l, ops).life.fns[i];
            && f.autorelease == LastSetting(ops, i, true)
            && (f.collected <==> Collect(i) in ops)
    decreases |ops|
  {
    if ops != [] {
      var m := Step(l, ops[0]).life;
      StepMakes(l, ops[0]);
      assert ops == [ops[0]] + ops[1..];
      SettingFromFront(ops, i, true);
      if i < |m.fns| {
        FunctionRemembers(m, ops[1..], i);
      } else {
        AutoreleaseIsLastSetting(m, ops[1..], i);
      }
    }
  }

  /** So a function that was given closure c, is never freed, and was collected when autorelease= had last been
      given false, leaves c handed out for good; and if it had last been given true, or never, holds it no
      more. */
  lemma {:induction false} CollectedLeaks<C(!new)>(before: seq<Op<C>>, after: seq<Op<C>>, i: nat, c: C)
    requires Run(Start<C>(), before).Next? && i < |Run(Start<C>(), before).life.fns|
    requires Run(Start<C>(), before).life.fns[i].closure == Some(c)
    requires Run(Run(Start<C>(), before).life, after).Next?
    requires Release(i) !in after && (Collect(i) in before || Collect(i) in after)
    ensures var l := Run(Run(Start<C>(), before).life, after).life;
            && i < |l.fns| && l.pool.Some?
            && (Holds(l.fns[i]) <==> !LastSetting(after, i, LastSetting(before, i, true)))
            && (Holds(l.fns[i]) ==> c in l.pool.value.live && c !in l.pool.value.free)
  {
    var l := Run(Start<C>(), before).life;
    var m := Run(l, after).life;
    RunKeepsInv(Start<C>(), before);
    RunKeepsInv(l, after);
    AutoreleaseIsLastSetting(Start<C>(), before, i);
    FunctionRemembers(l, after, i);
    assert m.pool.Some? ==> HeldIsLive(m.fns, i, m.pool.value.live);
  }

  /** An operation raises exactly when it frees a function that has no closure, or needs a page that cannot
      be had; the first changes nothing, the second leaves a function without a closure behind. */
  lemma WhenRaised<C>(l: Life<C>, op: Op<C>)
    requires Inv(l)
    ensures Step(l, op).Raised? <==>
              || (op.Release? && Usable(l, op.i) && l.fns[op.i].closure == None)
              || (op == NewCallback(None) && l.typeAlive && (l.pool == None || l.pool.value.free == []))
    ensures Step(l, op).Raised? ==>
              Step(l, op).life.fns == if op.Release? then l.fns else l.fns + [Fn(None, true, false)]
  {
    StepKeepsInv(l, op);
  }
}
