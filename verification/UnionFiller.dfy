/** The repeated filler type that stands in for the members of a union passed by value. */
module UnionFiller {
  import opened Wrappers
  import opened Bits
  import L = StructLayout

  /** A primitive type, by identity; its alignment is its size. */
  datatype Prim = Prim(id: nat, size: nat, isFloat: bool)

  datatype FfiType = Leaf(p: Prim) | Aggregate(elements: seq<FfiType>)

  const INT_TYPES: seq<Prim> := [Prim(0, 1, false), Prim(1, 2, false), Prim(2, 4, false), Prim(3, 8, false)]
  const FLOAT_TYPES: seq<Prim> := [Prim(4, 4, true), Prim(5, 8, true), Prim(6, 16, true)]

  // ---------------------------------------------------------------- the common leaf type

  /** find_homogeneous_leaf_type: a mismatch forgets the type found so far, and the next element starts over. */
  function Common(t: FfiType): Option<Prim>
    decreases t, 1
  {
    match t
    case Leaf(p) => Some(p)
    case Aggregate(es) => CommonOf(t, |es|)
  }

  /** The running result after the first n elements of an aggregate. */
  function CommonOf(t: FfiType, n: nat): Option<Prim>
    requires t.Aggregate? && n <= |t.elements|
    decreases t, 0, n
  {
    if n == 0 then None
    else
      var (r, e) := (CommonOf(t, n - 1), Common(t.elements[n - 1]));
      if r.None? then e else if e.None? || r != e then None else r
  }

  /** Every leaf is p. */
  predicate Uniform(t: FfiType, p: Prim) {
    match t
    case Leaf(q) => q == p
    case Aggregate(es) => forall i :: 0 <= i < |es| ==> Uniform(es[i], p)
  }

  predicate AllFloat(t: FfiType) {
    match t
    case Leaf(p) => p.isFloat
    case Aggregate(es) => forall i :: 0 <= i < |es| ==> AllFloat(es[i])
  }

  /** No aggregate is empty. */
  predicate Solid(t: FfiType) {
    match t
    case Leaf(_) => true
    case Aggregate(es) => es != [] && forall i :: 0 <= i < |es| ==> Solid(es[i])
  }

  /** Every leaf satisfies the size bound a union of this alignment puts on it. */
  ghost predicate LeavesFit(t: FfiType, align: int) {
    match t
    case Leaf(p) => IsPow2(p.size) && p.size <= align
    case Aggregate(es) => forall i :: 0 <= i < |es| ==> LeavesFit(es[i], align)
  }

  /** If all leaves are one type, the search finds it. */
  lemma {:induction false} UniformIsFound(t: FfiType, p: Prim)
    requires Uniform(t, p) && Solid(t)
    ensures Common(t) == Some(p)
    decreases t, 1
  {
    if t.Aggregate? {
      UniformSoFar(t, p, |t.elements|);
    }
  }

  lemma {:induction false} UniformSoFar(t: FfiType, p: Prim, n: nat)
    requires t.Aggregate? && Uniform(t, p) && Solid(t) && n <= |t.elements|
    ensures CommonOf(t, n) == if n == 0 then None else Some(p)
    decreases t, 0, n
  {
    if n > 0 {
      UniformSoFar(t, p, n - 1);
      UniformIsFound(t.elements[n - 1], p);
    }
  }

  /** A type that is found is one of the leaves, so it fits the union. */
  lemma {:induction false} FoundFits(t: FfiType, align: int)
    requires LeavesFit(t, align) && Common(t).Some?
    ensures IsPow2(Common(t).value.size) && Common(t).value.size <= align
    decreases t, 1
  {
    if t.Aggregate? {
      FoundSoFarFits(t, align, |t.elements|);
    }
  }

  lemma {:induction false} FoundSoFarFits(t: FfiType, align: int, n: nat)
    requires t.Aggregate? && LeavesFit(t, align) && n <= |t.elements| && CommonOf(t, n).Some?
    ensures IsPow2(CommonOf(t, n).value.size) && CommonOf(t, n).value.size <= align
    decreases t, 0, n
  {
    if CommonOf(t, n - 1).Some? {
      FoundSoFarFits(t, align, n - 1);
    } else {
      FoundFits(t.elements[n - 1], align);
    }
  }

  // ---------------------------------------------------------------- when mixed leaves are taken for one type

  /** Every leaf is of one type. */
  ghost predicate OneType(t: FfiType) {
    exists p :: Uniform(t, p)
  }

  /** What the comment on the function promises: the type if all leaves are of one, nothing otherwise. */
  ghost predicate AsCommented(t: FfiType) {
    if OneType(t) then Common(t).Some? && Uniform(t, Common(t).value) else Common(t) == None
  }

  /** The last leaf of a type. */
  function LastLeaf(t: FfiType): Prim
    requires Solid(t)
  {
    match t
    case Leaf(p) => p
    case Aggregate(es) => LastLeaf(es[|es| - 1])
  }

  /** How many mismatches in a row end at element n - 1. An element matches the one before it when both have
      an even tail and the same last leaf; one without an even tail starts the count anew. */
  function Tail(t: FfiType, n: nat): nat
    requires t.Aggregate? && Solid(t) && 0 < n <= |t.elements|
    decreases t, 0, n
  {
    if n == 1 then 0
    else
      var (p, q) := (t.elements[n - 2], t.elements[n - 1]);
      if !EvenTail(p) || (EvenTail(q) && LastLeaf(p) == LastLeaf(q)) then 0 else Tail(t, n - 1) + 1
  }

  /** The tail is even, in the aggregate and in its last element all the way down. */
  predicate EvenTail(t: FfiType)
    requires Solid(t)
    decreases t, 1
  {
    match t
    case Leaf(_) => true
    case Aggregate(es) => Tail(t, |es|) % 2 == 0 && EvenTail(es[|es| - 1])
  }

  /** The search yields the last leaf when the tail is even, since mismatches forget and start over in turn,
      and nothing when it is odd. */
  lemma {:induction false} LastLeafIsFound(t: FfiType)
    requires Solid(t)
    ensures Common(t) == if EvenTail(t) then Some(LastLeaf(t)) else None
    decreases t, 1
  {
    if t.Aggregate? {
      CommonIsByTail(t, |t.elements|);
    }
  }

  lemma {:induction false} CommonIsByTail(t: FfiType, n: nat)
    requires t.Aggregate? && Solid(t) && 0 < n <= |t.elements|
    ensures CommonOf(t, n) == if Tail(t, n) % 2 == 0 && EvenTail(t.elements[n - 1])
                              then Some(LastLeaf(t.elements[n - 1])) else None
    decreases t, 0, n
  {
    LastLeafIsFound(t.elements[n - 1]);
    if n > 1 {
      CommonIsByTail(t, n - 1);
      LastLeafIsFound(t.elements[n - 2]);
    } else {
      assert CommonOf(t, 0) == None;
    }
  }

  /** The comment is right about a type exactly when its leaves are of one type or its tail is not even: of
      the mixed types, those with an even tail are taken for the type of their last leaf. */
  lemma {:induction false} CommentIsRightExactly(t: FfiType)
    requires Solid(t)
    ensures AsCommented(t) <==> OneType(t) || !EvenTail(t)
  {
    LastLeafIsFound(t);
    if OneType(t) {
      var p :| Uniform(t, p);
      UniformIsFound(t, p);
    }
  }

  /** A struct of leaves only. */
  function Flat(ps: seq<Prim>): FfiType {
    Aggregate(seq(|ps|, i requires 0 <= i < |ps| => Leaf(ps[i])))
  }

  /** The alternating tail of a struct of leaves: how often in a row, up to the end, a leaf differs from the
      one before it. */
  function Changes(ps: seq<Prim>): nat {
    if |ps| <= 1 || ps[|ps| - 2] == ps[|ps| - 1] then 0 else Changes(ps[..|ps| - 1]) + 1
  }

  lemma {:induction false} TailOfLeaves(ps: seq<Prim>, n: nat)
    requires 0 < n <= |ps|
    ensures Tail(Flat(ps), n) == Changes(ps[..n])
    decreases n
  {
    var t := Flat(ps);
    assert t.elements[n - 1] == Leaf(ps[n - 1]);
    if n > 1 {
      assert t.elements[n - 2] == Leaf(ps[n - 2]);
      assert ps[..n][..n - 1] == ps[..n - 1];
      TailOfLeaves(ps, n - 1);
    }
  }

  /** For a struct of leaves: the type of its last leaf comes out exactly when the leaves change an even
      number of times in a row at the end. */
  lemma {:induction false} LeavesAreByChanges(ps: seq<Prim>)
    requires ps != []
    ensures Common(Flat(ps)) == if Changes(ps) % 2 == 0 then Some(ps[|ps| - 1]) else None
  {
    var n := |ps|;
    assert ps[..n] == ps && Flat(ps).elements[n - 1] == Leaf(ps[n - 1]);
    TailOfLeaves(ps, n);
    CommonIsByTail(Flat(ps), n);
  }

  /** {float, double, float} and {float, double, double} are mixed and yield a type all the same;
      {float, float, double} does not. */
  lemma {:induction false} MixedStructs(f: Prim, d: Prim)
    requires f != d
    ensures Common(Flat([f, d, f])) == Some(f) && !OneType(Flat([f, d, f]))
    ensures Common(Flat([f, d, d])) == Some(d) && !OneType(Flat([f, d, d]))
    ensures Common(Flat([f, f, d])) == None
  {
    NotOneType([f, d, f]);
    NotOneType([f, d, d]);
    assert [f, d, f][..2] == [f, d] && [f, f, d][..2] == [f, f] && [f, d][..1] == [f];
    assert Changes([f]) == 0 && Changes([f, d]) == 1 && Changes([f, f]) == 0;
    LeavesAreByChanges([f, d, f]);
    LeavesAreByChanges([f, d, d]);
    LeavesAreByChanges([f, f, d]);
  }

  lemma {:induction false} NotOneType(ps: seq<Prim>)
    requires |ps| >= 2 && ps[0] != ps[1]
    ensures !OneType(Flat(ps))
  {
    var t := Flat(ps);
    forall p ensures !Uniform(t, p) {
      assert t.elements[0] == Leaf(ps[0]) && t.elements[1] == Leaf(ps[1]);
    }
  }

  /** The comment is right about all structs of n leaves exactly when n is at most 2. */
  lemma {:induction false} CommentIsRightUpToTwoLeaves(n: nat)
    ensures (forall ps: seq<Prim> :: |ps| == n && n > 0 ==> AsCommented(Flat(ps))) <==> n <= 2
  {
    if n <= 2 {
      forall ps: seq<Prim> | |ps| == n && n > 0 ensures AsCommented(Flat(ps)) {
        LeavesAreByChanges(ps);
        if n == 1 || ps[0] == ps[1] {
          assert Uniform(Flat(ps), ps[0]);
        } else {
          assert ps[..1] == [ps[0]];
          NotOneType(ps);
        }
        if OneType(Flat(ps)) {
          UniformIsFound(Flat(ps), ps[0]);
        }
      }
    } else {
      var f, d := Prim(4, 4, true), Prim(5, 8, true);
      var ps := [f] + seq(n - 1, _ => d);
      NotOneType(ps);
      LeavesAreByChanges(ps);
      assert !AsCommented(Flat(ps));
    }
  }

  /** The recursive search as it runs, clearing the caller's flag at the first leaf that is not a float. */
  method FindLeafType(t: FfiType, floatOnly: bool) returns (r: Option<Prim>, stillFloat: bool)
    ensures r == Common(t) && stillFloat == (floatOnly && AllFloat(t))
    decreases t
  {
    stillFloat := floatOnly;
    match t
    case Leaf(p) =>
      if !p.isFloat {
        stillFloat := false;
      }
      r := Some(p);
    case Aggregate(es) =>
      r := None;
      for i := 0 to |es|
        invariant r == CommonOf(t, i)
        invariant stillFloat == (floatOnly && forall j :: 0 <= j < i ==> AllFloat(es[j]))
      {
        var elem: Option<Prim>;
        elem, stillFloat := FindLeafType(es[i], stillFloat);
        if r.None? {
          r := elem;
        } else if elem.None? || r != elem {
          r := None;
        }
      }
  }

  // ---------------------------------------------------------------- the filler

  function FindByAlignment(types: seq<Prim>, align: int): Option<Prim> {
    if types == [] then None
    else if types[0].size == align then Some(types[0])
    else FindByAlignment(types[1..], align)
  }

  /** The cast to a 16-bit unsigned short, which is how an alignment is passed to the search. */
  function ToUShort(x: int): nat {
    x % 0x1_0000
  }

  /** The type __union! repeats; `sysv` says whether floats of different sizes still go in float registers. */
  function Filler(t: FfiType, align: int, sysv: bool): Option<Prim> {
    var float := if Common(t).Some? && AllFloat(t) then Common(t)
                 else if sysv && AllFloat(t) then FindByAlignment(FLOAT_TYPES, ToUShort(align))
                 else None;
    if float.Some? then float else FindByAlignment(INT_TYPES, ToUShort(align))
  }

  /** A type found by its alignment has a power of two as its size that divides that alignment. */
  lemma {:induction false} FoundByAlignment(types: seq<Prim>, align: int)
    requires types == INT_TYPES || types == FLOAT_TYPES
    requires FindByAlignment(types, ToUShort(align)).Some?
    ensures var f := FindByAlignment(types, ToUShort(align)).value.size;
            IsPow2(f) && f > 0 && align % f == 0
  {
    FoundHasAlignment(types, ToUShort(align));
    var f := FindByAlignment(types, ToUShort(align)).value.size;
    assert f == 1 || f == 2 || f == 4 || f == 8 || f == 16;
    assert Pow2(0) == 1 && Pow2(1) == 2 && Pow2(2) == 4 && Pow2(3) == 8 && Pow2(4) == 16;
    ShortKeepsFactors(align, f);
  }

  lemma ShortKeepsFactors(align: int, f: int)
    requires f == 1 || f == 2 || f == 4 || f == 8 || f == 16
    requires align % 0x1_0000 == f
    ensures align % f == 0
  {
  }

  lemma {:induction false} FoundHasAlignment(types: seq<Prim>, align: int)
    ensures FindByAlignment(types, align).Some? ==>
              FindByAlignment(types, align).value in types && FindByAlignment(types, align).value.size == align
    decreases |types|
  {
    if types != [] && types[0].size != align {
      FoundHasAlignment(types[1..], align);
    }
  }

  /** Which type has an alignment, by the tables of the C types. */
  lemma {:induction false} TypesByAlignment(a: int)
    ensures FindByAlignment(INT_TYPES, a).Some? <==> a == 1 || a == 2 || a == 4 || a == 8
    ensures FindByAlignment(FLOAT_TYPES, a).Some? <==> a == 4 || a == 8 || a == 16
    ensures FindByAlignment(INT_TYPES, a).Some? ==>
              !FindByAlignment(INT_TYPES, a).value.isFloat && FindByAlignment(INT_TYPES, a).value.size == a
    ensures FindByAlignment(FLOAT_TYPES, a).Some? ==>
              FindByAlignment(FLOAT_TYPES, a).value.isFloat && FindByAlignment(FLOAT_TYPES, a).value.size == a
  {
    FoundHasAlignment(INT_TYPES, a);
    FoundHasAlignment(FLOAT_TYPES, a);
    assert INT_TYPES[1..] == [Prim(1, 2, false), Prim(2, 4, false), Prim(3, 8, false)];
    assert INT_TYPES[1..][1..] == [Prim(2, 4, false), Prim(3, 8, false)];
    assert INT_TYPES[1..][1..][1..] == [Prim(3, 8, false)];
    assert FLOAT_TYPES[1..] == [Prim(5, 8, true), Prim(6, 16, true)];
    assert FLOAT_TYPES[1..][1..] == [Prim(6, 16, true)];
  }

  /** The strategy of the comment on __union!, case by case: the common leaf type if all leaves are floats and
      one was found; else, on System V, a float of the union's alignment if all leaves are floats; else an
      integer of that alignment, if there is one. The alignment counts modulo 2**16. */
  lemma {:induction false} FillerAnswers(t: FfiType, align: int, sysv: bool)
    ensures AllFloat(t) && Common(t).Some? ==> Filler(t, align, sysv) == Common(t)
    ensures var a := align % 0x1_0000;
            AllFloat(t) && Common(t).None? && sysv && a in {4, 8, 16} ==>
              var f := Filler(t, align, sysv); f.Some? && f.value.isFloat && f.value.size == a
    ensures var a := align % 0x1_0000;
            !AllFloat(t) || (Common(t).None? && !(sysv && a in {4, 8, 16})) ==>
              var f := Filler(t, align, sysv);
              (f.Some? <==> a in {1, 2, 4, 8}) && (f.Some? ==> !f.value.isFloat && f.value.size == a)
  {
    TypesByAlignment(ToUShort(align));
  }

  /** So a float fills a union only if all its leaves are floats. */
  lemma {:induction false} FloatsFillFloats(t: FfiType, align: int, sysv: bool)
    requires Filler(t, align, sysv).Some? && Filler(t, align, sysv).value.isFloat
    ensures AllFloat(t)
  {
    FillerAnswers(t, align, sysv);
  }

  /** Every leaf takes up some bytes. */
  predicate LeavesHaveSize(t: FfiType) {
    match t
    case Leaf(p) => p.size > 0
    case Aggregate(es) => forall i :: 0 <= i < |es| ==> LeavesHaveSize(es[i])
  }

  lemma {:induction false} FoundHasSize(t: FfiType)
    requires LeavesHaveSize(t)
    ensures Common(t).Some? ==> Common(t).value.size > 0
    decreases t, 1
  {
    if t.Aggregate? {
      FoundSoFarHasSize(t, |t.elements|);
    }
  }

  lemma {:induction false} FoundSoFarHasSize(t: FfiType, n: nat)
    requires t.Aggregate? && LeavesHaveSize(t) && n <= |t.elements|
    ensures CommonOf(t, n).Some? ==> CommonOf(t, n).value.size > 0
    decreases t, 0, n
  {
    if n > 0 {
      FoundSoFarHasSize(t, n - 1);
      FoundHasSize(t.elements[n - 1]);
    }
  }

  /** Every power of two that divides the alignment divides the size. */
  ghost predicate KeepsFactors(size: int, align: int) {
    forall k: nat :: align % Pow2(k) == 0 ==> size % Pow2(k) == 0
  }

  /** The filler takes up some bytes, and if it was found by its alignment whole copies of it make up a size
      that has the alignment's factors. */
  lemma {:induction false} FillerHasSize(t: FfiType, align: int, sysv: bool)
    requires LeavesHaveSize(t) && Filler(t, align, sysv).Some?
    ensures Filler(t, align, sysv).value.size > 0
    ensures Common(t).None? || !AllFloat(t) ==>
              IsPow2(Filler(t, align, sysv).value.size) && align % Filler(t, align, sysv).value.size == 0
  {
    if Common(t).Some? && AllFloat(t) {
      FoundHasSize(t);
    } else if sysv && AllFloat(t) && FindByAlignment(FLOAT_TYPES, ToUShort(align)).Some? {
      FoundByAlignment(FLOAT_TYPES, align);
    } else {
      FoundByAlignment(INT_TYPES, align);
    }
  }

  /** Whole copies of the filler make up exactly the union's size, unless the filler is a float type found
      among the leaves whose size does not divide it. */
  lemma {:induction false} FillerCoversExactly(t: FfiType, size: int, align: int, sysv: bool)
    requires KeepsFactors(size, align) && LeavesHaveSize(t) && Filler(t, align, sysv).Some?
    ensures Filler(t, align, sysv).value.size > 0
    ensures size / Filler(t, align, sysv).value.size * Filler(t, align, sysv).value.size == size
       <==> Common(t).None? || !AllFloat(t) || size % Common(t).value.size == 0
  {
    var f := Filler(t, align, sysv).value.size;
    FillerHasSize(t, align, sysv);
    QuotientIsExact(size, f);
    if Common(t).None? || !AllFloat(t) {
      var k: nat :| f == Pow2(k);
      assert size % Pow2(k) == 0;
    }
  }

  lemma QuotientIsExact(c: int, f: int)
    requires f > 0
    ensures c / f * f == c <==> c % f == 0
  {
    assert c == c / f * f + c % f;
  }

  /** A packed member can be such a case: of a union whose only member is a packed {double, float, double},
      laid out in 20 bytes at alignment 1, the filler makes two doubles. */
  lemma {:induction false} PackedMemberIsNotCovered(f: Prim, d: Prim, sysv: bool)
    requires f != d && f.isFloat && d.isFloat && d.size == 8
    ensures var l := L.LayoutOf(L.Settings(true, None, None, None), [L.FieldSpec("a", L.FieldType(20, 1), None)]);
            && l.Ok? && l.value.size == 20 && l.value.align == 1
            && Filler(Aggregate([Flat([d, f, d])]), l.value.align, sysv) == Some(d)
            && l.value.size / d.size * d.size == 16
  {
    UnionOfOne("a", 20);
    MixedIsFiller(f, d, 1, sysv);
  }

  lemma {:induction false} MixedIsFiller(f: Prim, d: Prim, align: int, sysv: bool)
    requires f != d && f.isFloat && d.isFloat
    ensures Filler(Aggregate([Flat([d, f, d])]), align, sysv) == Some(d)
  {
    var inner := Flat([d, f, d]);
    var t := Aggregate([inner]);
    MixedStructs(d, f);
    assert forall i :: 0 <= i < 3 ==> AllFloat(inner.elements[i]);
    assert AllFloat(inner) && CommonOf(t, 0) == None;
    assert CommonOf(t, 1) == Some(d);
  }

  /** A union of one member with alignment 1 has that member's size. */
  lemma {:induction false} UnionOfOne(name: string, size: nat)
    requires 0 < size < TWO_31
    ensures var l := L.LayoutOf(L.Settings(true, None, None, None), [L.FieldSpec(name, L.FieldType(size, 1), None)]);
            l.Ok? && l.value.size == size && l.value.align == 1
  {
    var f := L.FieldSpec(name, L.FieldType(size, 1), None);
    var b := L.Prepared(L.Settings(true, None, None, None));
    assert [f][..0] == [] && L.AddAll(b, []) == Ok(b) && L.AddAll(b, [f]) == L.Add(b, f);
    var c := L.Add(b, f).value;
    assert c.size == size && c.alignment == 1;
    assert Pow2(0) == 1;
    L.AlignNeverGoesDown(size, 1);
    L.FinalSize(c);
  }

  /** Where no leaf is larger than the union's alignment, whole copies of whatever filler is chosen make up
      exactly the union's size. */
  lemma {:induction false} FillerCovers(t: FfiType, size: int, align: int, sysv: bool)
    requires IsPow2(align) && size % align == 0 && LeavesFit(t, align) && Filler(t, align, sysv).Some?
    ensures var f := Filler(t, align, sysv).value.size; f > 0 && size / f * f == size
  {
    var f := Filler(t, align, sysv).value.size;
    FitsHaveSize(t, align);
    FillerHasSize(t, align, sysv);
    var k: nat :| align == Pow2(k);
    if Common(t).Some? && AllFloat(t) {
      FoundFits(t, align);
      L.Pow2DividesLarger(f, align);
    }
    DividesThrough(f, align, size);
  }

  lemma {:induction false} FitsHaveSize(t: FfiType, align: int)
    requires LeavesFit(t, align)
    ensures LeavesHaveSize(t)
    decreases t
  {
    match t
    case Leaf(p) =>
      var k: nat :| p.size == Pow2(k);
    case Aggregate(es) =>
      forall i | 0 <= i < |es| ensures LeavesHaveSize(es[i]) {
        FitsHaveSize(es[i], align);
      }
  }

  lemma DividesThrough(a: int, b: int, c: int)
    requires a > 0 && b > 0 && b % a == 0 && c % b == 0
    ensures c % a == 0 && c / a * a == c
  {
    L.DividesAlong(a, b, c);
    QuotientIsExact(c, a);
  }

  /** For every unpacked union the builder lays out, the filler elements total exactly the layout's size. */
  lemma {:induction false} UnionFillerCovers(s: L.Settings, specs: seq<L.FieldSpec>, ts: seq<FfiType>, sysv: bool)
    requires L.Sensible(s) && s.union && s.packed.None? && L.PowersOfTwo(specs) && L.AllImplicit(specs)
    requires L.LayoutOf(s, specs).Ok? && L.LayoutOf(s, specs).value.size >= 0
    requires |ts| == |specs| && forall i :: 0 <= i < |ts| ==> LeavesFit(ts[i], specs[i].ty.align)
    requires Filler(Aggregate(ts), L.LayoutOf(s, specs).value.align, sysv).Some?
    ensures var l := L.LayoutOf(s, specs).value;
            var f := Filler(Aggregate(ts), l.align, sysv).value.size;
            f > 0 && l.size / f * f == l.size
  {
    var l := L.LayoutOf(s, specs).value;
    L.LayoutIsBuilt(s, specs);
    L.FilledIsSound(s, specs);
    L.FieldsKeepTypes(L.Prepared(s), specs);
    forall i | 0 <= i < |ts| ensures LeavesFit(ts[i], l.align) {
      assert L.EffectiveAlign(L.Filled(s, specs), l.fields[i].ty) <= l.align;
      LargerUnionFits(ts[i], specs[i].ty.align, l.align);
    }
    FillerCovers(Aggregate(ts), l.size, l.align, sysv);
  }

  /** For every union, whatever its settings and members, packed ones say, the same holds exactly when the
      found float type, if there is one, divides the size. */
  lemma {:induction false} UnionFillerCoversExactly(s: L.Settings, specs: seq<L.FieldSpec>, t: FfiType, sysv: bool)
    requires s.union && L.LayoutOf(s, specs).Ok? && L.LayoutOf(s, specs).value.size >= 0
    requires LeavesHaveSize(t) && Filler(t, L.LayoutOf(s, specs).value.align, sysv).Some?
    ensures var (l, f) := (L.LayoutOf(s, specs).value, Filler(t, L.LayoutOf(s, specs).value.align, sysv).value.size);
            && f > 0
            && (l.size / f * f == l.size <==> Common(t).None? || !AllFloat(t) || l.size % Common(t).value.size == 0)
  {
    var l := L.LayoutOf(s, specs).value;
    forall k: nat | l.align % Pow2(k) == 0 ensures l.size % Pow2(k) == 0 {
      L.LayoutKeepsFactors(s, specs, k);
    }
    FillerCoversExactly(t, l.size, l.align, sysv);
  }

  lemma {:induction false} LargerUnionFits(t: FfiType, a: int, b: int)
    requires LeavesFit(t, a) && a <= b
    ensures LeavesFit(t, b)
    decreases t
  {
    if t.Aggregate? {
      forall i | 0 <= i < |t.elements| ensures LeavesFit(t.elements[i], b) {
        LargerUnionFits(t.elements[i], a, b);
      }
    }
  }

  method FindFiller(t: FfiType, align: int, sysv: bool) returns (filler: Option<Prim>)
    ensures filler == Filler(t, align, sysv)
  {
    var common, floatOnly := FindLeafType(t, true);
    filler := None;
    if common.Some? && floatOnly {
      filler := common;
    } else if sysv && floatOnly {
      filler := FindByAlignment(FLOAT_TYPES, ToUShort(align));
    }
    if filler.None? {
      filler := FindByAlignment(INT_TYPES, ToUShort(align));
    }
  }

  /** __union! itself: as many copies of the filler as fit in the size, or nothing when no type has the
      union's alignment. They total the size exactly when the filler's size divides it. */
  method Fill(t: FfiType, size: nat, align: int, sysv: bool) returns (types: Option<array<Prim>>)
    requires LeavesHaveSize(t)
    ensures types.Some? <==> Filler(t, align, sysv).Some?
    ensures types.Some? ==>
              var (a, f) := (types.value, Filler(t, align, sysv).value);
              && fresh(a) && f.size > 0 && a[..] == Copies(f, size)
              && (a.Length * f.size == size <==> size % f.size == 0)
  {
    var filler := FindFiller(t, align, sysv);
    if filler.None? {
      return None;
    }
    FillerHasSize(t, align, sysv);
    QuotientIsExact(size, filler.value.size);
    var count := size / filler.value.size;
    var a := new Prim[count](_ => Prim(0, 0, false));
    for i := 0 to count
      invariant forall j :: 0 <= j < i ==> a[j] == filler.value
    {
      a[i] := filler.value;
    }
    types := Some(a);
  }

  /** As many copies of p as fit in the size. */
  function Copies(p: Prim, size: nat): (ps: seq<Prim>)
    requires p.size > 0
  {
    seq(size / p.size, _ => p)
  }
}
