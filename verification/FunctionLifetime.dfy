/** Function and FunctionType objects over the real closure pool. Every operation is proved to be the step
    of LifetimeSpec it stands for, so what is proved there about all programs holds of these objects. */
module FunctionLifetime {
  import opened Wrappers
  import opened PoolSpec
  import opened ClosurePools
  import opened LifetimeSpec

  class Function {
    var closure: Closure?
    var autorelease: bool

    /** function_allocate */
    constructor ()
      ensures closure == null && autorelease
    {
      closure, autorelease := null, true;
    }
  }

  class FunctionType {
    var closurePool: ClosurePool?

    constructor ()
      ensures closurePool == null
    {
      closurePool := null;
    }
  }

  /** What Alloc does to the pool is what LifetimeSpec expects of a new callback. */
  lemma AllocIsStep<C>(l: Life<C>, p: Pool<C>, page: Option<Page<C>>, q: Pool<C>, c: Option<C>)
    requires l.typeAlive && p.refcnt > 0 && p == (if l.pool == None then New() else l.pool.value)
    requires p.free != [] ==> q == Reuse(p) && c == Some(p.free[0])
    requires p.free == [] && page.Some? ==>
               && NewPageFor(p, page.value) && q == Grow(p, page.value.address, page.value.cells)
               && c == Some(page.value.cells[0])
    requires p.free == [] && page == None ==> q == p && c == None
    ensures Step(l, NewCallback(page)) == WithNewFunction(l, q, c)
  {
  }

  /** The pool is now q and a function holding c has been appended; without a closure that is an exception. */
  function WithNewFunction<C>(l: Life<C>, q: Pool<C>, c: Option<C>): Outcome<C> {
    var m := l.(pool := Some(q), fns := l.fns + [Fn(c, true, false)]);
    if c.Some? then Next(m) else Raised(m)
  }

  /** One FunctionType, every Function ever made with it, and the system they run on. `pool` remembers the
      pool after the FunctionType is gone; `life` is the state in LifetimeSpec's terms. */
  class Runtime {
    const sys: System
    const closureSize: int
    var info: FunctionType
    var functions: seq<Function>
    ghost var pool: ClosurePool?
    ghost var life: Life<Closure>

    /** Function i is what `life` says it is. */
    ghost predicate Matches(i: nat)
      requires i < |functions| && |functions| == |life.fns|
      reads this`functions, this`life, functions
    {
      && functions[i].autorelease == life.fns[i].autorelease
      && life.fns[i].closure == (if functions[i].closure == null then None else Some(functions[i].closure))
    }

    ghost predicate FunctionsOk()
      reads this`functions, this`life, functions
    {
      && |functions| == |life.fns|
      && Distinct(functions)
      && (forall i :: 0 <= i < |functions| ==> Matches(i))
    }

    /** The FunctionType's pool looks like `view`, and is in working order unless it has been destroyed. */
    ghost predicate PoolIs(view: Pool<Closure>)
      reads this`info, this`pool, info, pool, sys
      reads if pool == null then [] else pool.nodes
      reads if pool == null then {} else pool.view.cells
      reads if pool == null then [] else pool.view.free
    {
      && pool != null && info.closurePool == pool && pool.view == view
      && (view.refcnt > 0 ==> pool.Valid(sys))
    }

    ghost predicate PoolOk()
      reads this`life, this`info, this`pool, info, pool, sys
      reads if pool == null then [] else pool.nodes
      reads if pool == null then {} else pool.view.cells
      reads if pool == null then [] else pool.view.free
    {
      PoolMatches(life.pool)
    }

    ghost predicate PoolMatches(p: Option<Pool<Closure>>)
      reads this`info, this`pool, info, pool, sys
      reads if pool == null then [] else pool.nodes
      reads if pool == null then {} else pool.view.cells
      reads if pool == null then [] else pool.view.free
    {
      match p
      case None => pool == null && info.closurePool == null
      case Some(view) => PoolIs(view)
    }

    ghost predicate Valid()
      reads this, info, pool, sys, functions
      reads if pool == null then [] else pool.nodes
      reads if pool == null then {} else pool.view.cells
      reads if pool == null then [] else pool.view.free
    {
      && 0 < closureSize && SlotSize(closureSize) <= sys.pageSize
      && LifeOk() && FunctionsOk() && PoolOk()
    }

    ghost predicate LifeOk()
      reads this`life
    {
      Inv(life)
    }

    /** Changes function i and what `life` says of it together. */
    method Update(i: nat, closure: Closure?, autorelease: bool, ghost next: Life<Closure>)
      requires FunctionsOk() && i < |functions| == |next.fns| && next.fns == life.fns[i := next.fns[i]]
      requires next.fns[i].autorelease == autorelease
      requires next.fns[i].closure == if closure == null then None else Some(closure)
      modifies functions[i], this`life
      ensures FunctionsOk() && life == next
    {
      functions[i].closure := closure;
      functions[i].autorelease := autorelease;
      life := next;
      DistinctPositions(functions);
      forall j | 0 <= j < |functions| ensures Matches(j) {
        assert old(Matches(j));
      }
    }

    constructor (sys: System, closureSize: int)
      requires 0 < closureSize && SlotSize(closureSize) <= sys.pageSize
      ensures Valid() && life == Start() && this.sys == sys
    {
      this.sys, this.closureSize := sys, closureSize;
      info := new FunctionType();
      functions, pool, life := [], null, Start();
    }

    /** The pool of the FunctionType, created if this is its first callback. */
    method EnsurePool()
      requires Valid() && life.typeAlive
      modifies this`pool, info, sys`pools
      ensures pool != null && info.closurePool == pool && pool.Valid(sys)
      ensures pool.view == if old(life).pool == None then New() else old(life).pool.value
      ensures old(pool) == null ==> fresh(pool)
      ensures old(pool) != null ==> pool == old(pool)
    {
      if info.closurePool == null {
        info.closurePool := new ClosurePool(closureSize, sys);
        pool := info.closurePool;
      }
    }

    /** Asks the pool for a closure; `page` is what a new page of the pool was. */
    method AllocClosure(env: Env) returns (c: Result<Closure, Error>, ghost page: Option<Page<Closure>>)
      requires Valid() && life.typeAlive
      requires env.page.Some? ==> env.page.value !in sys.pages
      modifies this`pool, info, sys, pool
      ensures pool != null && PoolIs(pool.view)
      ensures Step(old(life), NewCallback(page)) ==
                WithNewFunction(old(life), pool.view, if c.Ok? then Some(c.value) else None)
    {
      NewCallbackKeepsInv(life, None);
      EnsurePool();
      ghost var p := pool.view;
      c := info.closurePool.Alloc(sys, env);
      page := if c.Ok? && p.free == [] then Some(Page(env.page.value, pool.blocks.data)) else None;
      AllocIsStep(life, p, page, pool.view, if c.Ok? then Some(c.value) else None);
    }

    /** Adds a new function to the ones this runtime knows. */
    method Register(closure: Closure?, ghost view: Pool<Closure>) returns (fn: Function)
      requires FunctionsOk() && PoolMatches(Some(view))
      modifies this`functions, this`life
      ensures PoolMatches(Some(view))
      ensures fresh(fn) && FunctionsOk() && functions == old(functions) + [fn] && fn.closure == closure
      ensures life == WithNewFunction(old(life), view, if closure == null then None else Some(closure)).life
    {
      fn := new Function();
      fn.closure := closure;
      functions := functions + [fn];
      life := WithNewFunction(life, view, if closure == null then None else Some(closure)).life;
      DistinctPositions(old(functions));
      DistinctPositions(functions);
      forall j | 0 <= j < |functions| ensures Matches(j) {
        if j < |functions| - 1 {
          assert old(Matches(j));
          assert functions[j] in old(functions);
        }
      }
    }

    /** function_init with a proc: a new Function gets a closure from the pool, or none if that raises. */
    method Init(env: Env) returns (r: Result<Function, Error>, ghost page: Option<Page<Closure>>)
      requires Valid() && life.typeAlive
      requires env.page.Some? ==> env.page.value !in sys.pages
      modifies this`pool, this`functions, this`life, info, sys, pool
      ensures Valid()
      ensures Step(old(life), NewCallback(page)) == if r.Ok? then Next(life) else Raised(life)
      ensures r.Ok? ==> functions == old(functions) + [r.value] && r.value.closure != null
    {
      var c;
      c, page := AllocClosure(env);
      NewCallbackKeepsInv(life, page);
      var fn := Register(if c.Ok? then c.value else null, pool.view);
      r := if c.Ok? then Ok(fn) else Err(c.error);
    }

    /** function_init with an address: the new Function never has a closure. */
    method InitFromPointer() returns (fn: Function)
      requires Valid() && life.typeAlive
      modifies this`functions, this`life
      ensures Valid() && functions == old(functions) + [fn] && fn.closure == null
      ensures Step(old(life), NewFromPointer) == Next(life)
    {
      StepKeepsInv(life, NewFromPointer);
      fn := new Function();
      DistinctPositions(functions);
      functions := functions + [fn];
      life := Step(life, NewFromPointer).life;
      DistinctPositions(functions);
      forall j | 0 <= j < |functions| ensures Matches(j) {
        if j < |functions| - 1 {
          assert old(Matches(j));
        }
      }
    }

    /** Gives back the closure function i holds. */
    method FreeHeld(i: nat)
      requires Inv(life) && PoolOk() && i < |functions| == |life.fns| && Matches(i) && Holds(life.fns[i])
      modifies pool, sys, functions[i].closure`next
      ensures old(functions[i].closure) in old(pool.view).live && old(pool.view).refcnt > 0
      ensures PoolIs(GiveBack(old(pool.view), functions[i].closure))
    {
      assert HeldIsLive(life.fns, i, pool.view.live);
      ClosurePools.Free(functions[i].closure, sys);
    }

    /** The part of function.free for a function that has a closure. */
    method ReleaseHeld(i: nat)
      requires Valid() && Usable(life, i) && life.fns[i].closure.Some?
      modifies this`life, functions[i], sys, pool, functions[i].closure
      ensures LifeOk() && FunctionsOk() && PoolOk()
      ensures Step(old(life), LifetimeSpec.Release(i)) == Next(life)
    {
      assert Matches(i);
      ReleaseStep(life, i);
      FreeHeld(i);
      DropClosure(i, AfterFree(life, i, life.fns[i].(closure := None)));
    }

    /** Function i has no closure any more. */
    method DropClosure(i: nat, ghost next: Life<Closure>)
      requires FunctionsOk() && PoolMatches(next.pool)
      requires i < |functions| == |next.fns| && next.fns == life.fns[i := life.fns[i].(closure := None)]
      modifies functions[i], this`life
      ensures FunctionsOk() && PoolMatches(next.pool) && life == next
    {
      assert Matches(i);
      Update(i, null, functions[i].autorelease, next);
    }

    /** function.free */
    method Release(i: nat) returns (ok: bool)
      requires Valid() && Usable(life, i)
      modifies this`life, functions[i], sys, pool, functions[i].closure
      ensures Valid()
      ensures Step(old(life), LifetimeSpec.Release(i)) == if ok then Next(life) else Raised(life)
      ensures ok <==> old(functions[i].closure) != null
    {
      assert Matches(i);
      ok := functions[i].closure != null;
      if ok {
        ReleaseHeld(i);
      }
    }

    method SetAutorelease(i: nat, autorelease: bool)
      requires Valid() && Usable(life, i)
      modifies this`life, functions[i]
      ensures Valid()
      ensures Step(old(life), LifetimeSpec.SetAutorelease(i, autorelease)) == Next(life)
    {
      StepKeepsInv(life, LifetimeSpec.SetAutorelease(i, autorelease));
      assert Matches(i);
      Update(i, functions[i].closure, autorelease, Step(life, LifetimeSpec.SetAutorelease(i, autorelease)).life);
    }

    /** The state of the functions after function i has been collected. */
    method Forget(i: nat)
      requires FunctionsOk() && i < |functions| && (life.fns[i].closure.Some? ==> life.pool.Some?)
      requires PoolMatches(AfterCollect(life, i).pool)
      modifies this`life
      ensures FunctionsOk() && life == AfterCollect(old(life), i) && PoolMatches(life.pool)
    {
      life := AfterCollect(life, i);
      forall j | 0 <= j < |functions| ensures Matches(j) {
        assert old(Matches(j));
      }
    }

    /** Gives back the closure of function i if it is to be given back on collection. */
    method FreeOnCollect(i: nat)
      requires Inv(life) && PoolOk() && i < |functions| == |life.fns| && Matches(i) && Usable(life, i)
      modifies pool, sys, functions[i].closure
      ensures life.fns[i].closure.Some? ==> life.pool.Some?
      ensures PoolMatches(AfterCollect(life, i).pool)
    {
      CollectStep(life, i);
      if functions[i].closure != null && functions[i].autorelease {
        FreeHeld(i);
      }
    }

    /** function_free, called by the collector. */
    method Collect(i: nat)
      requires Valid() && Usable(life, i)
      modifies this`life, sys, pool, functions[i].closure
      ensures Valid()
      ensures Step(old(life), LifetimeSpec.Collect(i)) == Next(life)
    {
      assert Matches(i);
      CollectStep(life, i);
      FreeOnCollect(i);
      Forget(i);
    }

    /** fntype_free, called by the collector. */
    method CollectType()
      requires Valid() && life.typeAlive
      modifies this`life, sys, pool
      ensures Valid()
      ensures Step(old(life), LifetimeSpec.CollectType) == Next(life)
    {
      StepKeepsInv(life, LifetimeSpec.CollectType);
      ghost var next := Step(life, LifetimeSpec.CollectType).life;
      if info.closurePool != null {
        info.closurePool.Disown(sys);
      }
      life := next;
      forall j | 0 <= j < |functions| ensures Matches(j) {
        assert old(Matches(j));
      }
    }
  }
}
