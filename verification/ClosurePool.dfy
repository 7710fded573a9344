/** The page-backed closure allocator: closures threaded on an intrusive free list through their `next`
    fields, pages on a linked list of Memory nodes, and a reference count that releases everything. */
module ClosurePools {
  import opened Wrappers
  import opened PoolSpec

  /** The operating system's side. Mapped pages, tracked nodes and pools are recorded, so that releasing one
      of them twice, or using a pool after its release, is a verification error. */
  class System {
    const pageSize: int
    var pages: set<int>
    ghost var nodes: set<Memory>
    ghost var pools: set<ClosurePool>

    constructor (pageSize: int)
      ensures this.pageSize == pageSize && pages == {} && nodes == {} && pools == {}
    {
      this.pageSize := pageSize;
      pages, nodes, pools := {}, {}, {};
    }

    method FreePage(page: int)
      requires page in pages
      modifies this`pages
      ensures pages == old(pages) - {page}
    {
      pages := pages - {page};
    }

    /** free(node->data); free(node) */
    method FreeNode(node: Memory)
      requires node in nodes
      modifies this`nodes
      ensures nodes == old(nodes) - {node}
    {
      nodes := nodes - {node};
    }

    method FreePool(pool: ClosurePool)
      requires pool in pools
      modifies this`pools
      ensures pools == old(pools) - {pool}
    {
      pools := pools - {pool};
    }
  }

  class Closure {
    var code: int
    var pool: ClosurePool?
    var next: Closure?

    /** A zeroed cell, as calloc leaves it. */
    constructor ()
      ensures code == 0 && pool == null && next == null
    {
      code, pool, next := 0, null, null;
    }
  }

  /** A tracked page; `cells` is the ghost set of the cells of this page and of the pages tracked after it. */
  class Memory {
    var code: int
    var data: seq<Closure>
    var next: Memory?
    ghost var cells: set<Closure>

    constructor ()
      ensures code == 0 && data == [] && next == null
    {
      code, data, next := 0, [], null;
    }
  }

  ghost function CellsFrom(m: Memory?): set<Closure>
    reads m
  {
    if m == null then {} else m.cells
  }

  /** Node i of the block list tracks page i and points at the node after it. */
  ghost predicate Tracked(nodes: seq<Memory>, pages: seq<int>, i: nat)
    requires i < |nodes| == |pages|
    reads nodes
  {
    && nodes[i].code == pages[i]
    && nodes[i].next == (if i == |nodes| - 1 then null else nodes[i + 1])
    && nodes[i].cells == CellsFrom(if i == |nodes| - 1 then null else nodes[i + 1]) + Elements(nodes[i].data)
  }

  /** The block list starting at `head`: its nodes, their pages and their cells. */
  ghost predicate BlockList(head: Memory?, nodes: seq<Memory>, pages: seq<int>, cells: set<Closure>)
    reads nodes
  {
    && Distinct(nodes) && |nodes| == |pages|
    && head == (if nodes == [] then null else nodes[0])
    && cells == (if nodes == [] then {} else nodes[0].cells)
    && forall i :: 0 <= i < |nodes| ==> Tracked(nodes, pages, i)
  }

  /** Cell i of a free list points at the one after it. */
  ghost predicate Chained(free: seq<Closure>, i: nat)
    requires i < |free|
    reads free
  {
    free[i].next == (if i == |free| - 1 then null else free[i + 1])
  }

  /** The free list starting at `head`, as the `next` fields spell it. */
  ghost predicate FreeList(head: Closure?, free: seq<Closure>)
    reads free
  {
    && head == (if free == [] then null else free[0])
    && forall i :: 0 <= i < |free| ==> Chained(free, i)
  }

  datatype Error = OutOfPages | PrepFailed | ProtectFailed

  /** What the operating system and libffi answer while one block is being built. */
  datatype Env = Env(nodeOk: bool, listOk: bool, page: Option<int>, prepFailsAt: Option<nat>, protectOk: bool)

  /** calloc(n, sizeof(Closure)): n new zeroed cells. */
  method Calloc(n: nat) returns (list: seq<Closure>)
    ensures |list| == n && Distinct(list) && fresh(list)
  {
    list := [];
    while |list| < n
      invariant |list| <= n && Distinct(list) && fresh(list)
    {
      var c := new Closure();
      assert ([c] + list)[1..] == list;
      list := [c] + list;
    }
  }

  class ClosurePool {
    const closureSize: int
    var blocks: Memory?
    var list: Closure?
    var refcnt: int

    ghost var nodes: seq<Memory>
    ghost var view: Pool<Closure>

    ghost predicate Valid(sys: System)
      reads this, sys, nodes, view.cells, view.free
    {
      && 0 < closureSize && SlotSize(closureSize) <= sys.pageSize
      && refcnt == view.refcnt && refcnt > 0
      && PoolSpec.Valid(view)
      && FreeList(list, view.free)
      && BlockList(blocks, nodes, view.pages, view.cells)
      && Allocated(sys)
      && forall c :: c in view.cells ==> c.pool == this
    }

    /** Nothing the pool refers to has been released. */
    ghost predicate Allocated(sys: System)
      reads this, sys
    {
      && this in sys.pools
      && (forall m :: m in nodes ==> m in sys.nodes)
      && (forall p :: p in view.pages ==> p in sys.pages)
    }

    constructor (closureSize: int, sys: System)
      requires 0 < closureSize && SlotSize(closureSize) <= sys.pageSize
      modifies sys`pools
      ensures Valid(sys) && view == PoolSpec.New() && this.closureSize == closureSize
      ensures sys.pools == old(sys.pools) + {this}
    {
      this.closureSize := closureSize;
      blocks, list, refcnt := null, null, 1;
      nodes, view := [], PoolSpec.New();
      new;
      sys.pools := sys.pools + {this};
    }

    /** Fills in the cells of a new block, up to the first one libffi refuses to prepare. */
    method Prepare(cells: seq<Closure>, code: int, env: Env) returns (ok: bool)
      requires Distinct(cells) && 0 < closureSize
      modifies cells
      ensures ok <==> (env.prepFailsAt.Some? ==> env.prepFailsAt.value >= |cells|)
      ensures ok ==> forall k :: 0 <= k < |cells| ==> Chained(cells, k)
      ensures ok ==> forall c :: c in cells ==> c.pool == this
      ensures ok ==> Addressed(cells, code)
    {
      var slotSize := SlotSize(closureSize);
      DistinctPositions(cells);
      var i := 0;
      while i < |cells|
        invariant 0 <= i <= |cells|
        invariant forall k :: 0 <= k < i ==> FilledIn(cells, k, SlotAddress(code, slotSize, k))
        invariant env.prepFailsAt.Some? ==> i <= env.prepFailsAt.value
      {
        FillIn(cells, i, SlotAddress(code, slotSize, i));
        if env.prepFailsAt == Some(i) {
          return false;
        }
        i := i + 1;
      }
      forall k | 0 <= k < |cells|
        ensures Chained(cells, k) && cells[k].pool == this && cells[k].code == SlotAddress(code, slotSize, k)
      {
        assert FilledIn(cells, k, SlotAddress(code, slotSize, k));
      }
      return true;
    }

    /** Cell i of a new block. */
    method FillIn(cells: seq<Closure>, i: nat, address: int)
      requires i < |cells|
      modifies cells[i]
      ensures FilledIn(cells, i, address)
    {
      cells[i].next := if i == |cells| - 1 then null else cells[i + 1];
      cells[i].pool := this;
      cells[i].code := address;
    }

    ghost predicate FilledIn(cells: seq<Closure>, i: nat, address: int)
      requires i < |cells|
      reads cells[i]
    {
      && cells[i].next == (if i == |cells| - 1 then null else cells[i + 1])
      && cells[i].pool == this && cells[i].code == address
    }

    /** Every cell has the trampoline slot of its position in the page. */
    ghost predicate Addressed(cells: seq<Closure>, code: int)
      reads this, cells
    {
      forall k :: 0 <= k < |cells| ==> cells[k].code == SlotAddress(code, SlotSize(closureSize), k)
    }

    /** Puts a finished block at the head of the block list. */
    method TrackBlock(block: Memory, data: seq<Closure>, code: int)
      requires BlockList(blocks, nodes, view.pages, view.cells) && block !in nodes && code !in view.pages
      modifies this`blocks, this`nodes, block
      ensures nodes == [block] + old(nodes) && blocks == block && block.data == data
      ensures BlockList(blocks, nodes, [code] + view.pages, view.cells + Elements(data))
    {
      block.data := data;
      block.code := code;
      block.next := blocks;
      block.cells := view.cells + Elements(data);
      blocks := block;
      nodes := [block] + nodes;
      assert nodes[1..] == old(nodes);
      forall i | 0 <= i < |nodes| ensures Tracked(nodes, [code] + view.pages, i) {
        assert i > 0 ==> old(Tracked(nodes, view.pages, i - 1));
      }
    }

    /** Threads all cells of a block but the first onto the empty free list. */
    method ThreadCells(cells: seq<Closure>)
      requires list == null && cells != [] && Distinct(cells)
      requires forall k :: 0 <= k < |cells| ==> Chained(cells, k)
      modifies this`list, cells`next
      ensures FreeList(list, cells[1..])
    {
      DistinctPositions(cells);
      assert Chained(cells, 0);
      cells[|cells| - 1].next := list;
      list := cells[0].next;
      forall k | 0 <= k < |cells| - 1 ensures Chained(cells[1..], k) {
        assert old(Chained(cells, k + 1));
      }
    }

    /** Both, for a pool whose free list is empty. */
    method TrackAndThread(block: Memory, cells: seq<Closure>, code: int)
      requires BlockList(blocks, nodes, view.pages, view.cells) && block !in nodes && code !in view.pages
      requires list == null && cells != [] && Distinct(cells)
      requires forall k :: 0 <= k < |cells| ==> Chained(cells, k)
      modifies this`blocks, this`nodes, this`list, block, cells`next
      ensures nodes == [block] + old(nodes) && blocks == block && block.data == cells
      ensures BlockList(blocks, nodes, [code] + view.pages, view.cells + Elements(cells))
      ensures FreeList(list, cells[1..])
    {
      TrackBlock(block, cells, code);
      ThreadCells(cells);
    }

    /** Tracks a finished block and puts its cells to use. */
    method AddBlock(sys: System, block: Memory, cells: seq<Closure>, code: int)
      requires Valid(sys) && view.free == [] && cells != [] && Distinct(cells)
      requires forall c :: c in cells ==> c !in view.cells && c.pool == this
      requires forall k :: 0 <= k < |cells| ==> Chained(cells, k)
      requires block !in nodes && block in sys.nodes
      requires code in sys.pages && code !in view.pages
      modifies this, block, cells`next
      ensures Valid(sys)
      ensures view == Grow(old(view), code, cells) && blocks == block && block.data == cells
    {
      GrowKeepsValid(view, code, cells);
      TrackAndThread(block, cells, code);
      refcnt := refcnt + 1;
      view := Grow(view, code, cells);
    }

    /** The environment lets a whole block be built. */
    predicate Grants(env: Env, pageSize: int)
      requires closureSize > 0
    {
      && env.nodeOk && env.listOk && env.page.Some? && env.protectOk
      && (env.prepFailsAt.Some? ==> env.prepFailsAt.value >= SlotsPerPage(pageSize, SlotSize(closureSize)))
    }

    /** Maps and prepares one page. Unless everything succeeds, whatever was acquired is released again. */
    method Build(sys: System, env: Env) returns (r: Result<Memory, Error>, cells: seq<Closure>)
      requires 0 < closureSize && SlotSize(closureSize) <= sys.pageSize
      requires env.page.Some? ==> env.page.value !in sys.pages
      modifies sys`nodes, sys`pages
      ensures r.Ok? <==> Grants(env, sys.pageSize)
      ensures r.Err? ==> sys.nodes == old(sys.nodes) && sys.pages == old(sys.pages)
      ensures r.Ok? ==> && fresh(r.value) && r.value !in old(sys.nodes) && fresh(cells)
                        && sys.nodes == old(sys.nodes) + {r.value}
                        && sys.pages == old(sys.pages) + {env.page.value}
                        && |cells| == SlotsPerPage(sys.pageSize, SlotSize(closureSize)) > 0 && Distinct(cells)
                        && Addressed(cells, env.page.value)
                        && (forall k :: 0 <= k < |cells| ==> Chained(cells, k))
                        && (forall c :: c in cells ==> c.pool == this)
    {
      AtLeastOneSlot(sys.pageSize, SlotSize(closureSize));
      cells := [];
      var block: Memory? := null;
      if env.nodeOk {
        block := new Memory();
        sys.nodes := sys.nodes + {block};
      }
      if env.listOk {
        cells := Calloc(SlotsPerPage(sys.pageSize, SlotSize(closureSize)));
      }
      if env.page.Some? {
        sys.pages := sys.pages + {env.page.value};
      }
      var ok := block != null && env.listOk && env.page.Some?;
      var error := OutOfPages;
      if ok {
        ok := Prepare(cells, env.page.value, env);
        error := PrepFailed;
      }
      if ok && !env.protectOk {
        ok, error := false, ProtectFailed;
      }
      if ok {
        return Ok(block), cells;
      }
      if block != null {
        sys.FreeNode(block);
      }
      if env.page.Some? {
        sys.FreePage(env.page.value);
      }
      return Err(error), cells;
    }

    /** The pool has grown by one page: as many new cells as fit, each with its own trampoline slot. */
    twostate predicate NewPage(before: Pool<Closure>, env: Env, pageSize: int)
      requires closureSize > 0
      reads this, blocks, if blocks == null then [] else blocks.data
    {
      && blocks != null && env.page.Some?
      && |blocks.data| == SlotsPerPage(pageSize, SlotSize(closureSize)) > 0
      && fresh(blocks.data) && Distinct(blocks.data)
      && env.page.value !in before.pages && (forall c :: c in blocks.data ==> c !in before.cells)
      && view == Grow(before, env.page.value, blocks.data)
      && Addressed(blocks.data, env.page.value)
    }

    /** Hands out a closure: the head of the free list, or the first cell of a new page. When a page cannot
        be had, prepared or protected, nothing has changed. */
    method Alloc(sys: System, env: Env) returns (r: Result<Closure, Error>)
      requires Valid(sys)
      requires env.page.Some? ==> env.page.value !in sys.pages
      modifies this, sys`nodes, sys`pages
      ensures Valid(sys)
      ensures r.Ok? <==> old(view).free != [] || Grants(env, sys.pageSize)
      ensures r.Err? ==> view == old(view) && sys.pages == old(sys.pages) && sys.nodes == old(sys.nodes)
      ensures old(view).free != [] ==> r == Ok(old(view).free[0]) && view == Reuse(old(view))
      ensures old(view).free == [] && r.Ok? ==> NewPage(old(view), env, sys.pageSize) && r.value == blocks.data[0]
      ensures r.Ok? ==> && r.value !in old(view).live && view.live == old(view).live + {r.value}
                        && r.value.pool == this
    {
      if list != null {
        var closure := list;
        TakeHead();
        return Ok(closure);
      }
      r := AllocOnNewPage(sys, env);
    }

    /** The second half of it: a page is built and its first cell handed out. */
    method AllocOnNewPage(sys: System, env: Env) returns (r: Result<Closure, Error>)
      requires Valid(sys) && view.free == []
      requires env.page.Some? ==> env.page.value !in sys.pages
      modifies this, sys`nodes, sys`pages
      ensures Valid(sys)
      ensures r.Ok? <==> Grants(env, sys.pageSize)
      ensures r.Err? ==> view == old(view) && sys.pages == old(sys.pages) && sys.nodes == old(sys.nodes)
      ensures r.Ok? ==> && NewPage(old(view), env, sys.pageSize) && r.value == blocks.data[0]
                        && r.value !in old(view).live && view.live == old(view).live + {r.value}
                        && r.value.pool == this
    {
      var built, cells := Build(sys, env);
      if built.Err? {
        return Err(built.error);
      }
      AddBlock(sys, built.value, cells, env.page.value);
      return Ok(cells[0]);
    }

    method TakeHead()
      requires FreeList(list, view.free) && list != null && PoolSpec.Valid(view)
      modifies this`list, this`refcnt, this`view
      ensures FreeList(list, view.free) && refcnt == old(refcnt) + 1
      ensures view == Reuse(old(view)) && PoolSpec.Valid(view) && old(list) !in old(view).live
    {
      assert Chained(view.free, 0);
      list := list.next;
      refcnt := refcnt + 1;
      ReuseKeepsValid(view);
      view := Reuse(view);
      forall i | 0 <= i < |view.free| ensures Chained(view.free, i) {
        assert Chained(old(view).free, i + 1);
      }
    }

    /** cleanup_closure_pool: every page, every node and the pool itself are released, each of them once. */
    method Cleanup(sys: System)
      requires BlockList(blocks, nodes, view.pages, view.cells) && Distinct(view.pages) && Allocated(sys)
      modifies sys
      ensures Released(sys)
    {
      DistinctPositions(nodes);
      DistinctPositions(view.pages);
      var memory := blocks;
      ghost var k := 0;
      while memory != null
        invariant 0 <= k <= |nodes|
        invariant memory == (if k == |nodes| then null else nodes[k])
        invariant sys.pools == old(sys.pools)
        invariant sys.nodes == old(sys.nodes) - Elements(nodes[..k])
        invariant sys.pages == old(sys.pages) - Elements(view.pages[..k])
        decreases |nodes| - k
      {
        assert Tracked(nodes, view.pages, k);
        var next := memory.next;
        sys.FreePage(memory.code);
        sys.FreeNode(memory);
        assert nodes[..k + 1] == nodes[..k] + [memory];
        assert view.pages[..k + 1] == view.pages[..k] + [memory.code];
        memory := next;
        k := k + 1;
      }
      assert nodes[..k] == nodes && view.pages[..k] == view.pages;
      sys.FreePool(this);
    }

    /** Everything the pool held has been released, and nothing else. */
    twostate predicate Released(sys: System)
      reads this, sys
    {
      && sys.pools == old(sys.pools) - {this}
      && sys.nodes == old(sys.nodes) - Elements(old(nodes))
      && sys.pages == old(sys.pages) - Elements(old(view.pages))
    }

    /** rbffi_ClosurePool_Free: the owner lets go. */
    method Disown(sys: System)
      requires Valid(sys) && view.owned
      modifies this`refcnt, this`view, sys
      ensures view == PoolSpec.Disown(old(view))
      ensures if view.refcnt == 0 then Released(sys) else Valid(sys) && Untouched(sys)
    {
      refcnt := refcnt - 1;
      DisownKeepsValid(view);
      view := PoolSpec.Disown(view);
      if refcnt == 0 {
        Cleanup(sys);
      }
    }

    twostate predicate Untouched(sys: System)
      reads this, sys
    {
      sys.pools == old(sys.pools) && sys.nodes == old(sys.nodes) && sys.pages == old(sys.pages)
    }

    method PutHead(closure: Closure)
      requires FreeList(list, view.free) && PoolSpec.Valid(view) && closure in view.live
      modifies closure`next, this`list, this`refcnt, this`view
      ensures FreeList(list, view.free) && refcnt == old(refcnt) - 1
      ensures view == GiveBack(old(view), closure) && PoolSpec.Valid(view)
    {
      GiveBackKeepsValid(view, closure);
      closure.next := list;
      list := closure;
      refcnt := refcnt - 1;
      view := GiveBack(view, closure);
      forall i | 0 <= i < |view.free| ensures Chained(view.free, i) {
        assert i > 0 ==> old(Chained(view.free, i - 1));
      }
    }
  }

  /** rbffi_Closure_Free: finds the pool through the closure and pushes the closure on its free list. */
  method Free(closure: Closure, sys: System)
    requires closure.pool != null && closure.pool.Valid(sys) && closure in closure.pool.view.live
    modifies closure`next, closure.pool`list, closure.pool`refcnt, closure.pool`view, sys
    ensures closure.pool.view == GiveBack(old(closure.pool.view), closure)
    ensures if closure.pool.view.refcnt == 0 then closure.pool.Released(sys)
            else closure.pool.Valid(sys) && closure.pool.Untouched(sys)
  {
    var pool := closure.pool;
    pool.PutHead(closure);
    if pool.refcnt == 0 {
      pool.Cleanup(sys);
    }
  }
}
