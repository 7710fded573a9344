/** The closure pool as a value: which closures its pages hold, which of them are on the free list, which
    are handed out, and how many references keep it alive. */
module PoolSpec {

  /** `pages` are the mapped pages, newest first, and `cells` the closures they hold; `free` is the free
      list, head first. `owned` tells whether the FunctionType that created the pool still holds its reference. */
  datatype Pool<C> = Pool(pages: seq<int>, cells: set<C>, free: seq<C>, live: set<C>, refcnt: int, owned: bool)

  function New<C>(): Pool<C> {
    Pool([], {}, [], {}, 1, true)
  }

  function Elements<T(==)>(s: seq<T>): set<T> {
    set x | x in s
  }

  ghost predicate Distinct<T>(s: seq<T>)
    decreases |s|
  {
    s == [] || (s[0] !in s[1..] && Distinct(s[1..]))
  }

  /** What Distinct means: different positions hold different elements. */
  lemma {:induction false} DistinctPositions<T>(s: seq<T>)
    ensures Distinct(s) <==> forall i, j :: 0 <= i < j < |s| ==> s[i] != s[j]
    decreases |s|
  {
    if s != [] {
      DistinctPositions(s[1..]);
      if Distinct(s) {
        forall i, j | 0 <= i < j < |s| ensures s[i] != s[j] {
          assert s[j] == s[1..][j - 1];
          assert i > 0 ==> s[i] == s[1..][i - 1];
        }
      } else if s[0] in s[1..] {
        var j :| 0 <= j < |s[1..]| && s[1..][j] == s[0];
        assert s[0] == s[j + 1];
      } else {
        var i, j :| 0 <= i < j < |s[1..]| && s[1..][i] == s[1..][j];
        assert s[i + 1] == s[j + 1];
      }
    }
  }

  /** Taking the head of a non-empty free list. */
  function Reuse<C(==)>(p: Pool<C>): Pool<C>
    requires p.free != []
  {
    p.(free := p.free[1..], live := p.live + {p.free[0]}, refcnt := p.refcnt + 1)
  }

  /** Adding a page of new cells: the first is handed out, the others go on the free list. */
  function Grow<C(==)>(p: Pool<C>, page: int, cells: seq<C>): Pool<C>
    requires cells != []
  {
    p.(pages := [page] + p.pages, cells := p.cells + Elements(cells), free := cells[1..] + p.free,
       live := p.live + {cells[0]}, refcnt := p.refcnt + 1)
  }

  /** Giving a closure back: it goes to the head of the free list. */
  function GiveBack<C(==)>(p: Pool<C>, c: C): Pool<C> {
    p.(free := [c] + p.free, live := p.live - {c}, refcnt := p.refcnt - 1)
  }

  /** The owner letting go of the pool. */
  function Disown<C>(p: Pool<C>): Pool<C> {
    p.(refcnt := p.refcnt - 1, owned := false)
  }

  /** Free and handed-out closures partition the closures of all blocks, no closure is on the free list
      twice, and the reference count is the number of handed-out closures plus one for the owner. */
  ghost predicate Valid<C>(p: Pool<C>) {
    && Distinct(p.pages)
    && Distinct(p.free)
    && (forall c :: c in p.free ==> c in p.cells && c !in p.live)
    && (forall c :: c in p.live ==> c in p.cells)
    && (forall c :: c in p.cells ==> c in p.free || c in p.live)
    && p.refcnt == |p.live| + (if p.owned then 1 else 0)
  }

  lemma NewIsValid<C(!new)>()
    ensures Valid(New<C>())
  {
  }

  lemma ReuseKeepsValid<C>(p: Pool<C>)
    requires Valid(p) && p.free != []
    ensures Valid(Reuse(p)) && p.free[0] !in p.live && p.free[0] in p.cells
  {
    assert p.free == [p.free[0]] + p.free[1..];
  }

  lemma GrowKeepsValid<C>(p: Pool<C>, page: int, cells: seq<C>)
    requires Valid(p) && p.free == [] && cells != [] && Distinct(cells)
    requires page !in p.pages && forall c :: c in cells ==> c !in p.cells
    ensures Valid(Grow(p, page, cells)) && cells[0] !in p.live
    ensures Grow(p, page, cells).free == cells[1..]
  {
    var q := Grow(p, page, cells);
    var c0 := cells[0];
    assert q.free == cells[1..];
    assert q.pages[1..] == p.pages;
    assert forall c :: c in cells[1..] ==> c in cells;
    assert c0 in cells && c0 !in p.cells && c0 !in p.live;
    assert |q.live| == |p.live| + 1;
    forall c | c in q.cells ensures c in q.free || c in q.live {
      if c in cells {
        assert c == c0 || c in cells[1..];
      }
    }
  }

  lemma GiveBackKeepsValid<C>(p: Pool<C>, c: C)
    requires Valid(p) && c in p.live
    ensures Valid(GiveBack(p, c))
  {
    assert ([c] + p.free)[1..] == p.free;
  }

  lemma DisownKeepsValid<C>(p: Pool<C>)
    requires Valid(p) && p.owned
    ensures Valid(Disown(p))
  {
  }

  /** The count reaches zero exactly when the owner is gone and nothing is handed out, and no sooner. */
  lemma DeadExactlyWhenUnreferenced<C>(p: Pool<C>)
    requires Valid(p)
    ensures p.refcnt >= 0
    ensures p.refcnt == 0 <==> !p.owned && p.live == {}
  {
  }

  // ---------------------------------------------------------------- the geometry of a page

  /** C's roundup macro. */
  function RoundUp(x: int, y: int): int
    requires y > 0
  {
    ((x + (y - 1)) / y) * y
  }

  /** Distance between trampolines: the closure size rounded up to 8 bytes. */
  function SlotSize(closureSize: int): int {
    RoundUp(closureSize, 8)
  }

  /** How many slots of this size fit on a page. */
  function SlotsPerPage(pageSize: int, size: int): int
    requires size > 0
  {
    pageSize / size
  }

  function SlotAddress(page: int, size: int, i: nat): int {
    page + i * size
  }

  /** A slot is a multiple of 8 bytes that holds a closure, with less than 8 to spare. */
  lemma SlotHoldsClosure(closureSize: int)
    requires 0 < closureSize
    ensures closureSize <= SlotSize(closureSize) < closureSize + 8 && SlotSize(closureSize) % 8 == 0
  {
  }

  /** Each slot that fits is inside the page, and 8-aligned because the page is. */
  lemma SlotIsInside(page: int, pageSize: int, size: int, i: nat)
    requires page % 8 == 0 && 0 < size && size % 8 == 0 && i < SlotsPerPage(pageSize, size)
    ensures SlotAddress(page, size, i) % 8 == 0
    ensures page <= SlotAddress(page, size, i) && SlotAddress(page, size, i) + size <= page + pageSize
  {
    SlotStart(i, size);
    SlotEnd(i, pageSize, size);
    AlignedSum(page, i * size);
  }

  /** Slots do not overlap. */
  lemma SlotsAreApart(page: int, size: int, i: nat, j: nat)
    requires 0 < size && i < j
    ensures SlotAddress(page, size, i) + size <= SlotAddress(page, size, j)
  {
    MulMonotone(i + 1, j, size);
    assert (i + 1) * size == i * size + size;
  }

  lemma AtLeastOneSlot(pageSize: int, size: int)
    requires 0 < size <= pageSize
    ensures SlotsPerPage(pageSize, size) >= 1
  {
    if pageSize / size <= 0 {
      MulMonotone(pageSize / size, 0, size);
    }
  }

  lemma AlignedSum(x: int, y: int)
    requires x % 8 == 0 && y % 8 == 0
    ensures (x + y) % 8 == 0
  {
  }

  /** Slot i ends inside the page when it is one of those that fit. */
  lemma SlotEnd(i: nat, pageSize: int, size: int)
    requires size > 0 && i < pageSize / size
    ensures (i + 1) * size <= pageSize
  {
    var n := pageSize / size;
    MulMonotone(i + 1, n, size);
    assert pageSize == n * size + pageSize % size;
  }

  lemma SlotStart(i: nat, size: int)
    requires size % 8 == 0 && size >= 0
    ensures i * size >= 0 && (i * size) % 8 == 0 && (i + 1) * size == i * size + size
  {
    var k := size / 8;
    assert size == 8 * k;
    assert i * size == 8 * (i * k);
  }

  lemma MulMonotone(a: int, b: int, m: int)
    requires a <= b && 0 <= m
    ensures a * m <= b * m
  {
    assert (b - a) * m >= 0;
  }
}
