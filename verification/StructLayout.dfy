/** Struct layout: the builder that places fields (Ruby) and the layout object that fixes the size (C). */
module StructLayout {
  import opened Wrappers
  import opened Bits

  // ---------------------------------------------------------------- the two alignment tricks

  /** StructLayoutBuilder#align, on unbounded integers. */
  function RubyAlign(offset: int, align: int): int {
    align + And(offset - 1, Not(align - 1))
  }

  /** The FFI_ALIGN macro, on 64-bit size_t. */
  function CAlign(v: int, align: int): int {
    (Or((v - 1) % TWO_64, (align - 1) % TWO_64) + 1) % TWO_64
  }

  /** The cast to a 32-bit int. */
  function ToInt32(x: int): int {
    (x + TWO_31) % TWO_32 - TWO_31
  }

  /** r is the least multiple of a that is at least lo. */
  ghost predicate LeastMultiple(r: int, a: int, lo: int)
    requires a > 0
  {
    r % a == 0 && lo <= r && forall x :: lo <= x < r ==> x % a != 0
  }

  lemma MultiplesAreApart(x: int, y: int, a: int)
    requires a > 0 && x % a == 0 && y % a == 0 && x < y
    ensures x + a <= y
  {
    var d := y / a - x / a;
    assert d * a == y - x by {
      assert y / a * a == y && x / a * a == x;
    }
    if d <= 0 {
      MulNonPositive(d, a);
    } else {
      MulGe(d, a);
    }
  }

  lemma MulNonPositive(d: int, a: int)
    requires d <= 0 && a > 0
    ensures d * a <= 0
  {
  }

  /** A multiple less than a above lo is the least one. */
  lemma CloseMultipleIsLeast(r: int, a: int, lo: int)
    requires a > 0 && r % a == 0 && lo <= r < lo + a
    ensures LeastMultiple(r, a, lo)
  {
    forall x | lo <= x < r ensures x % a != 0 {
      if x % a == 0 {
        MultiplesAreApart(x, r, a);
      }
    }
  }

  lemma LeastMultipleUnique(r: int, s: int, a: int, lo: int)
    requires a > 0 && LeastMultiple(r, a, lo) && LeastMultiple(s, a, lo)
    ensures r == s
  {
  }

  lemma RubyAlignValue(offset: int, k: nat)
    ensures var m := Pow2(k);
            RubyAlign(offset, m) == m + (offset - 1) - (offset - 1) % m
  {
    AndHighMask(offset - 1, k);
  }

  lemma RoundUpValue(o: int, m: int)
    requires m > 0
    ensures var r := m + (o - 1) - (o - 1) % m; r % m == 0 && o <= r < o + m
  {
    var q := (o - 1) / m;
    assert (q + 1) * m == m + (o - 1) - (o - 1) % m;
    ModOfMultiple(q + 1, m);
  }

  /** For a power of two, Ruby's align is rounding up, for every offset including 0. */
  lemma RubyAlignRoundsUp(offset: int, k: nat)
    ensures LeastMultiple(RubyAlign(offset, Pow2(k)), Pow2(k), offset)
    ensures RubyAlign(offset, Pow2(k)) < offset + Pow2(k)
  {
    RubyAlignValue(offset, k);
    RoundUpValue(offset, Pow2(k));
    CloseMultipleIsLeast(RubyAlign(offset, Pow2(k)), Pow2(k), offset);
  }

  /** Minus one and 2**64 - 1 have the same low bits. */
  lemma MinusOneMod(m: int, w: int)
    requires m > 0 && w % m == 0
    ensures (w - 1) % m == m - 1 && (-1) % m == m - 1
  {
    var q := w / m;
    assert w == q * m;
    assert (q - 1) * m + (m - 1) == w - 1;
    ModUnique(w - 1, m, q - 1, m - 1);
    ModUnique(-1, m, -1, m - 1);
  }

  lemma WrappedRoundUp(v: int, m: int, w: int)
    requires 0 < m <= TWO_32 && w == TWO_64 && w % m == 0
    requires 0 <= v < TWO_32
    ensures var x := (v - 1) % w; (x - x % m + m) % w == m + (v - 1) - (v - 1) % m
  {
    if v == 0 {
      MinusOneMod(m, w);
      assert (v - 1) % w == w - 1;
    } else {
      assert (v - 1) % w == v - 1;
      assert 0 <= (v - 1) % m <= v - 1 by { ModAtMost(v - 1, m); }
    }
  }

  lemma ModAtMost(x: int, m: int)
    requires x >= 0 && m > 0
    ensures 0 <= x % m <= x
  {
    if x < m {
      ModUnique(x, m, 0, x);
    }
  }

  lemma CAlignValue(v: int, k: nat)
    requires Pow2(k) <= TWO_32
    ensures var m, x := Pow2(k), (v - 1) % TWO_64;
            CAlign(v, m) == (x - x % m + m) % TWO_64
  {
    var m, x := Pow2(k), (v - 1) % TWO_64;
    ModUnique(m - 1, TWO_64, 0, m - 1);
    OrLowMask(x, k);
  }

  /** C's macro computes the same number as Ruby's, as long as its operands fit in 32 bits. */
  lemma CAlignIsRubyAlign(v: int, k: nat)
    requires 0 <= v < TWO_32 && k <= 32
    ensures CAlign(v, Pow2(k)) == RubyAlign(v, Pow2(k))
  {
    Pow2DividesWord(k);
    CAlignValue(v, k);
    RubyAlignValue(v, k);
    WrappedRoundUp(v, Pow2(k), TWO_64);
  }

  lemma Pow2DividesWord(k: nat)
    requires k <= 32
    ensures Pow2(k) <= TWO_32 && TWO_64 % Pow2(k) == 0
  {
    WordSizes();
    Pow2Monotone(k, 32);
    Pow2Divides(k, 64);
  }

  /** Aligning what is already aligned changes nothing, in either language. */
  lemma AlignIsIdempotent(v: int, k: nat)
    requires 0 <= v && k <= 32 && RubyAlign(v, Pow2(k)) < TWO_32
    ensures var r := RubyAlign(v, Pow2(k));
            RubyAlign(r, Pow2(k)) == r && CAlign(r, Pow2(k)) == r
  {
    RubyAlignRoundsUp(v, k);
    var r := RubyAlign(v, Pow2(k));
    RubyAlignRoundsUp(r, k);
    CloseMultipleIsLeast(r, Pow2(k), r);
    CAlignIsRubyAlign(r, k);
  }

  /** The bit trick needs a power of two: for any other alignment some offset is not rounded up to a
      multiple. */
  lemma AlignWorksExactlyForPowersOfTwo(a: int)
    requires a > 0
    ensures (forall o: nat :: LeastMultiple(RubyAlign(o, a), a, o)) <==> IsPow2(a)
  {
    if IsPow2(a) {
      var k: nat :| a == Pow2(k);
      forall o: nat ensures LeastMultiple(RubyAlign(o, a), a, o) {
        RubyAlignRoundsUp(o, k);
      }
    } else {
      var j := ZeroBitBelowTop(a - 1);
      var o: nat := Pow2(j) + 1;
      AndOneBit(Not(a - 1), j);
      BitNot(a - 1, j);
      assert RubyAlign(o, a) == a + Pow2(j);
      ModUnique(a + Pow2(j), a, 1, Pow2(j));
      assert !LeastMultiple(RubyAlign(o, a), a, o);
    }
  }

  /** A number that is not 2**k - 1 has a zero bit below its top bit. */
  lemma {:induction false} ZeroBitBelowTop(m: int) returns (j: nat)
    requires m >= 0 && !IsPow2(m + 1)
    ensures Pow2(j) < m && !Bit(m, j)
    decreases m
  {
    assert Pow2(0) == 1 && Pow2(1) == 2;
    assert m != 0 && m != 1;
    if m % 2 == 0 {
      j := 0;
    } else {
      if IsPow2(m / 2 + 1) {
        var k: nat :| m / 2 + 1 == Pow2(k);
        assert m + 1 == Pow2(k + 1);
      }
      var i := ZeroBitBelowTop(m / 2);
      j := i + 1;
    }
  }

  /** For a positive alignment, power of two or not, Ruby's trick never goes down. */
  lemma AlignNeverGoesDown(o: int, a: int)
    requires a > 0
    ensures o <= RubyAlign(o, a) < o + a
  {
    AndNot(o - 1, a - 1);
    AndBetween(o - 1, a - 1);
  }

  /** Nor does C's, unless the result no longer fits an int. */
  lemma CAlignNeverGoesDown(v: int, a: int)
    requires 0 <= v < TWO_31 && 0 < a < TWO_31
    ensures ToInt32(CAlign(v, a)) < 0 || v <= ToInt32(CAlign(v, a))
  {
    if v > 0 {
      OrAtLeast(v - 1, a - 1);
      CAlignIsOr(v, a);
      ToInt32Value(Or(v - 1, a - 1) + 1);
    }
  }

  lemma CAlignIsOr(v: int, a: int)
    requires 0 < v < TWO_31 && 0 < a < TWO_31 && 0 <= Or(v - 1, a - 1) < TWO_32
    ensures CAlign(v, a) == Or(v - 1, a - 1) + 1
  {
    assert (v - 1) % TWO_64 == v - 1 && (a - 1) % TWO_64 == a - 1;
    SmallMod(Or(v - 1, a - 1) + 1);
  }

  lemma SmallMod(x: int)
    requires 0 <= x < TWO_64
    ensures x % TWO_64 == x
  {
  }

  /** And for an alignment that is none, C's result is no positive int. */
  lemma CAlignOfNone(v: int, a: int)
    requires -TWO_31 <= a <= 0
    ensures ToInt32(CAlign(v, a)) <= 0
  {
    var x, y := (v - 1) % TWO_64, (a - 1) % TWO_64;
    assert y == TWO_64 + a - 1;
    OrAtLeast(x, y);
    WordSizes();
    OrBelow(x, y, 64);
    ToInt32NearTop(Or(x, y) + 1);
  }

  lemma ToInt32NearTop(r: int)
    requires TWO_64 - TWO_31 <= r <= TWO_64
    ensures ToInt32(r % TWO_64) <= 0
  {
    if r < TWO_64 {
      assert ToInt32(r) == r - TWO_64;
    }
  }

  // ---------------------------------------------------------------- the builder's state, as a value

  datatype FieldType = FieldType(size: nat, align: nat)

  datatype Field = Field(name: string, offset: nat, ty: FieldType)

  datatype Error = RangeError | TypeError | RuntimeError

  /** What a field is added with: no offset means "place it". */
  datatype FieldSpec = FieldSpec(name: string, ty: FieldType, offset: Option<int>)

  datatype Builder = Builder(size: int, alignment: int, minAlignment: int, packed: Option<int>, union: bool,
                             fields: seq<Field>)

  /** The checks on a field's offset: it must be a fixnum, and NUM2UINT refuses values below -2**31 or above
      2**32 - 1 and wraps the other negative ones. */
  function ToUInt(x: int): Result<nat, Error> {
    if x < -TWO_62 || TWO_62 <= x then Err(TypeError)
    else if x < -TWO_31 || TWO_32 <= x then Err(RangeError)
    else Ok(x % TWO_32)
  }

  function Max(x: int, y: int): int {
    if x < y then y else x
  }

  function Min(x: int, y: int): int {
    if x < y then x else y
  }

  function EffectiveAlign(b: Builder, ty: FieldType): int {
    match b.packed
    case Some(n) => Min(n, ty.align)
    case None => Max(b.minAlignment, ty.align)
  }

  predicate Implicit(s: FieldSpec) {
    s.offset.None? || s.offset.value == -1
  }

  function ChosenOffset(b: Builder, s: FieldSpec): int {
    if Implicit(s) then
      if b.union then 0 else RubyAlign(b.size, EffectiveAlign(b, s.ty))
    else s.offset.value
  }

  function Add(b: Builder, s: FieldSpec): Result<Builder, Error> {
    match ToUInt(ChosenOffset(b, s))
    case Err(e) => Err(e)
    case Ok(offset) =>
      Ok(b.(fields := b.fields + [Field(s.name, offset, s.ty)],
            alignment := if b.packed.Some? then b.alignment else Max(b.alignment, s.ty.align),
            size := Max(b.size, s.ty.size + if b.union then 0 else offset)))
  }

  /** Adding the fields of a list in order, stopping at the first that is refused. */
  function AddAll(b: Builder, specs: seq<FieldSpec>): Result<Builder, Error>
    decreases |specs|
  {
    if specs == [] then Ok(b)
    else
      match AddAll(b, specs[..|specs| - 1])
      case Err(e) => Err(e)
      case Ok(c) => Add(c, specs[|specs| - 1])
  }

  datatype Layout = Layout(fields: seq<Field>, fieldMap: map<string, Field>, size: int, align: int)

  /** StructLayout#initialize files each field under its name; a repeated name keeps the last. */
  function FieldMap(fields: seq<Field>): map<string, Field> {
    if fields == [] then map[]
    else
      var f := fields[|fields| - 1];
      FieldMap(fields[..|fields| - 1])[f.name := f]
  }

  predicate FitsInt(x: int) {
    -TWO_31 <= x < TWO_31
  }

  predicate ZeroSizedInside(fields: seq<Field>) {
    exists i :: 0 <= i < |fields| - 1 && fields[i].ty.size == 0
  }

  function Initialized(fields: seq<Field>, size: int, align: int): Result<Layout, Error> {
    if !FitsInt(size) || !FitsInt(align) then Err(RangeError)
    else if ZeroSizedInside(fields) then Err(TypeError)
    else if ToInt32(CAlign(size, align)) == 0 then Err(RuntimeError)
    else Ok(Layout(fields, FieldMap(fields), ToInt32(CAlign(size, align)), align))
  }

  function Build(b: Builder): Result<Layout, Error> {
    Initialized(b.fields, if b.packed.Some? then b.size else RubyAlign(b.size, b.alignment), b.alignment)
  }

  // ---------------------------------------------------------------- where fields land

  /** What the setters leave behind when every alignment asked for is a power of two. */
  ghost predicate Ready(b: Builder) {
    && 0 <= b.size
    && IsPow2(b.alignment)
    && match b.packed
       case Some(n) => IsPow2(n) && n <= b.alignment
       case None => IsPow2(b.minAlignment) && b.minAlignment <= b.alignment
  }

  ghost predicate PowersOfTwo(specs: seq<FieldSpec>) {
    forall i :: 0 <= i < |specs| ==> IsPow2(specs[i].ty.align)
  }

  predicate AllImplicit(specs: seq<FieldSpec>) {
    forall i :: 0 <= i < |specs| ==> Implicit(specs[i])
  }

  function End(f: Field): nat {
    f.offset + f.ty.size
  }

  /** Where the first i fields end, in a struct that starts at `start`. */
  function EndOf(start: int, fields: seq<Field>, i: nat): int
    requires i <= |fields|
  {
    if i == 0 then start else End(fields[i - 1])
  }

  /** Field i is the i-th one asked for, at the least offset that is aligned for it and past field i - 1. */
  ghost predicate PlacedAt(b: Builder, specs: seq<FieldSpec>, fields: seq<Field>, i: int)
    requires 0 <= i < |specs| == |fields|
  {
    var f := fields[i];
    && f.name == specs[i].name && f.ty == specs[i].ty
    && EffectiveAlign(b, f.ty) > 0
    && LeastMultiple(f.offset, EffectiveAlign(b, f.ty), EndOf(b.size, fields, i))
  }

  lemma EffectiveIsPow2(b: Builder, ty: FieldType)
    requires Ready(b) && IsPow2(ty.align)
    ensures IsPow2(EffectiveAlign(b, ty)) && EffectiveAlign(b, ty) > 0
  {
    var k: nat :| EffectiveAlign(b, ty) == Pow2(k);
  }

  lemma AlignRoundsUp(o: int, a: int)
    requires IsPow2(a)
    ensures a > 0 && LeastMultiple(RubyAlign(o, a), a, o) && RubyAlign(o, a) < o + a
  {
    var k: nat :| a == Pow2(k);
    RubyAlignRoundsUp(o, k);
  }

  lemma ToUIntValue(x: int)
    requires 0 <= x
    ensures if x < TWO_32 then ToUInt(x) == Ok(x) else ToUInt(x).Err?
  {
  }

  /** Placing one field: refused exactly when the least aligned offset does not fit an unsigned int. */
  lemma AddPlaces(b: Builder, s: FieldSpec)
    requires IsPow2(EffectiveAlign(b, s.ty)) && 0 <= b.size && Implicit(s) && !b.union
    ensures var e := EffectiveAlign(b, s.ty);
            var o := RubyAlign(b.size, e);
            && e > 0 && LeastMultiple(o, e, b.size)
            && (o >= TWO_32 ==> Add(b, s).Err?)
            && (o < TWO_32 ==>
                  && Add(b, s).Ok?
                  && Add(b, s).value.fields == b.fields + [Field(s.name, o, s.ty)]
                  && Add(b, s).value.size == o + s.ty.size)
  {
    var e := EffectiveAlign(b, s.ty);
    AlignRoundsUp(b.size, e);
    var o := ChosenOffset(b, s);
    assert o == RubyAlign(b.size, e);
    ToUIntValue(o);
  }

  lemma AddKeepsReady(b: Builder, s: FieldSpec)
    requires Ready(b) && IsPow2(s.ty.align) && Add(b, s).Ok?
    ensures Ready(Add(b, s).value)
    ensures EffectiveAlign(Add(b, s).value, s.ty) == EffectiveAlign(b, s.ty)
  {
  }

  lemma {:induction false} AddAllKeepsReady(b: Builder, specs: seq<FieldSpec>)
    requires Ready(b) && PowersOfTwo(specs) && AddAll(b, specs).Ok?
    ensures var c := AddAll(b, specs).value;
            && Ready(c)
            && c.packed == b.packed && c.minAlignment == b.minAlignment && c.union == b.union
            && |c.fields| == |b.fields| + |specs|
    decreases |specs|
  {
    if specs != [] {
      var front := specs[..|specs| - 1];
      AddAllKeepsReady(b, front);
      assert IsPow2(specs[|specs| - 1].ty.align);
      AddKeepsReady(AddAll(b, front).value, specs[|specs| - 1]);
    }
  }

  /** Every field's effective alignment is a power of two. */
  ghost predicate EffectivePowers(b: Builder, specs: seq<FieldSpec>) {
    forall i :: 0 <= i < |specs| ==> IsPow2(EffectiveAlign(b, specs[i].ty))
  }

  lemma {:induction false} AddAllKeepsSettings(b: Builder, specs: seq<FieldSpec>)
    requires AddAll(b, specs).Ok?
    ensures var c := AddAll(b, specs).value;
            && c.packed == b.packed && c.minAlignment == b.minAlignment && c.union == b.union
            && |c.fields| == |b.fields| + |specs| && c.size >= b.size
    decreases |specs|
  {
    if specs != [] {
      AddAllKeepsSettings(b, specs[..|specs| - 1]);
    }
  }

  /** Any list of fields without explicit offsets whose effective alignments are powers of two, plain, with
      a minimum alignment or packed: each is placed at the least aligned offset past the one before. */
  lemma {:induction false} FieldsArePacked(b: Builder, specs: seq<FieldSpec>)
    requires 0 <= b.size && !b.union && b.fields == [] && EffectivePowers(b, specs) && AllImplicit(specs)
    requires AddAll(b, specs).Ok?
    ensures var fields := AddAll(b, specs).value.fields;
            && |fields| == |specs|
            && (forall i :: 0 <= i < |specs| ==> PlacedAt(b, specs, fields, i))
            && AddAll(b, specs).value.size == EndOf(b.size, fields, |specs|)
    decreases |specs|
  {
    if specs != [] {
      var n := |specs| - 1;
      var front := specs[..n];
      FieldsArePacked(b, front);
      AddAllKeepsSettings(b, front);
      var c := AddAll(b, front).value;
      assert IsPow2(EffectiveAlign(b, specs[n].ty));
      AddPlaces(c, specs[n]);
      var fields := AddAll(b, specs).value.fields;
      assert fields[..n] == c.fields;
      forall i | 0 <= i < |specs| ensures PlacedAt(b, specs, fields, i) {
        if i < n {
          PlacedInPrefix(b, specs, fields, n, i);
        }
      }
    }
  }

  lemma {:induction false} EffectiveAllPow2(b: Builder, specs: seq<FieldSpec>)
    requires Ready(b) && PowersOfTwo(specs)
    ensures EffectivePowers(b, specs)
  {
    forall i | 0 <= i < |specs| ensures IsPow2(EffectiveAlign(b, specs[i].ty)) {
      EffectiveIsPow2(b, specs[i].ty);
    }
  }

  // ---------------------------------------------------------------- which packings work

  /** A builder with nothing but its packing set, by packed = n. */
  function Packed(n: int): Builder {
    Builder(0, n, 1, Some(n), false, [])
  }

  /** The lists a packing has to place: without explicit offsets, of alignments that are powers of two up
      to a bound. */
  ghost predicate Ordinary(specs: seq<FieldSpec>, bound: int) {
    AllImplicit(specs) && PowersOfTwo(specs) && forall i :: 0 <= i < |specs| ==> specs[i].ty.align <= bound
  }

  /** Every field of the list is at the least offset that is aligned for it and past the one before. */
  ghost predicate AllPlaced(b: Builder, specs: seq<FieldSpec>) {
    AddAll(b, specs).Ok? ==>
      var fields := AddAll(b, specs).value.fields;
      |fields| == |specs| && forall i :: 0 <= i < |specs| ==> PlacedAt(b, specs, fields, i)
  }

  /** Two fields that an effective alignment which is no power of two misplaces: the first ends at an offset
      that the bit trick does not round up for it. */
  function Misplaced(o: nat, bound: nat): seq<FieldSpec> {
    [FieldSpec("a", FieldType(o, 1), None), FieldSpec("b", FieldType(1, bound), None)]
  }

  lemma {:induction false} MisplacedOffsets(b: Builder, n: int, o: nat, bound: nat)
    requires Fresh(b) && EffectiveAlign(b, FieldType(1, bound)) == n && 0 <= RubyAlign(o, n) < TWO_32
    ensures AddAll(b, Misplaced(o, bound)).Ok?
    ensures var fields := AddAll(b, Misplaced(o, bound)).value.fields;
            |fields| == 2 && fields[0].offset == 0 && fields[1].offset == RubyAlign(o, n)
  {
    var specs := Misplaced(o, bound);
    ZeroIsAligned(EffectiveAlign(b, specs[0].ty));
    ToUIntValue(0);
    var c := Add(b, specs[0]).value;
    TwoAdded(b, specs[0], specs[1]);
    assert c.size == o && EffectiveAlign(c, specs[1].ty) == n;
    ToUIntValue(RubyAlign(o, n));
  }

  /** At the start of a struct every alignment, also one that is none, gives offset 0. */
  lemma {:induction false} ZeroIsAligned(a: int)
    ensures RubyAlign(0, a) == 0
  {
    assert And(-1, Not(a - 1)) == Not(a - 1) by {
      AndUnfold(-1, Not(a - 1));
      AllOnesAnd(Not(a - 1));
    }
  }

  lemma {:induction false} AllOnesAnd(y: int)
    ensures And(-1, y) == y
  {
  }

  /** An offset and an alignment that is no power of two for which the bit trick does not round up. */
  lemma {:induction false} BadOffset(n: int) returns (o: nat)
    requires n > 0 && !IsPow2(n)
    ensures n > 1 && 0 <= RubyAlign(o, n) < 2 * n && !LeastMultiple(RubyAlign(o, n), n, o)
  {
    assert Pow2(0) == 1;
    var j := ZeroBitBelowTop(n - 1);
    o := Pow2(j) + 1;
    AndOneBit(Not(n - 1), j);
    BitNot(n - 1, j);
    assert RubyAlign(o, n) == n + Pow2(j);
    ModUnique(n + Pow2(j), n, 1, Pow2(j));
  }

  /** A packing n places all ordinary lists with alignments up to 2**a exactly when n is a power of two or
      is not less than any of those alignments, in which case it never takes effect. */
  lemma {:induction false} PackingPlacesExactly(n: int, a: nat)
    requires a <= 31
    ensures (forall specs :: Ordinary(specs, Pow2(a)) ==> AllPlaced(Packed(n), specs)) <==> IsPow2(n) || n >= Pow2(a)
  {
    if IsPow2(n) || n >= Pow2(a) {
      forall specs | Ordinary(specs, Pow2(a)) ensures AllPlaced(Packed(n), specs) {
        OrdinaryIsPlaced(n, Pow2(a), specs);
      }
    } else if n > 0 {
      var specs := SomeIsMisplaced(n, a);
    } else {
      var s := FieldSpec("a", FieldType(1, 1), None);
      NothingIsPlaced(n, s);
      assert Pow2(0) == 1 && Ordinary([s], Pow2(a)) by {
        Pow2Monotone(0, a);
      }
    }
  }

  lemma {:induction false} OrdinaryIsPlaced(n: int, bound: int, specs: seq<FieldSpec>)
    requires IsPow2(n) || n >= bound
    requires Ordinary(specs, bound)
    ensures AllPlaced(Packed(n), specs)
  {
    if AddAll(Packed(n), specs).Ok? {
      assert EffectivePowers(Packed(n), specs);
      FieldsArePacked(Packed(n), specs);
    }
  }

  lemma {:induction false} SomeIsMisplaced(n: int, a: nat) returns (specs: seq<FieldSpec>)
    requires a <= 31 && 0 < n < Pow2(a) && !IsPow2(n)
    ensures Ordinary(specs, Pow2(a)) && !AllPlaced(Packed(n), specs)
  {
    var o := BadOffset(n);
    specs := Misplaced(o, Pow2(a));
    assert 2 * n < TWO_32 by {
      Pow2Monotone(a, 31);
      WordSizes();
    }
    MisplacedOffsets(Packed(n), n, o, Pow2(a));
    assert Pow2(0) == 1 && Ordinary(specs, Pow2(a));
    assert !PlacedAt(Packed(n), specs, AddAll(Packed(n), specs).value.fields, 1);
  }

  /** A builder with nothing but its minimum alignment set, by alignment = m. */
  function Minimum(m: int): Builder {
    Builder(0, Max(1, m), m, None, false, [])
  }

  /** A minimum alignment below 2**31 places all lists of power-of-two alignments exactly when it is a power
      of two itself, or none at all. */
  lemma {:induction false} MinimumPlacesExactly(m: int)
    requires m < TWO_31
    ensures (forall specs :: AllImplicit(specs) && PowersOfTwo(specs) ==> AllPlaced(Minimum(m), specs))
       <==> IsPow2(m) || m <= 0
  {
    if IsPow2(m) || m <= 0 {
      forall specs | AllImplicit(specs) && PowersOfTwo(specs) ensures AllPlaced(Minimum(m), specs) {
        MinimumIsPlaced(m, specs);
      }
    } else {
      var o := BadOffset(m);
      MisplacedOffsets(Minimum(m), m, o, 1);
      var specs := Misplaced(o, 1);
      assert Pow2(0) == 1 && AllImplicit(specs) && PowersOfTwo(specs);
      assert !PlacedAt(Minimum(m), specs, AddAll(Minimum(m), specs).value.fields, 1);
    }
  }

  lemma {:induction false} MinimumIsPlaced(m: int, specs: seq<FieldSpec>)
    requires IsPow2(m) || m <= 0
    requires AllImplicit(specs) && PowersOfTwo(specs)
    ensures AllPlaced(Minimum(m), specs)
  {
    if AddAll(Minimum(m), specs).Ok? {
      assert EffectivePowers(Minimum(m), specs);
      FieldsArePacked(Minimum(m), specs);
    }
  }

  lemma {:induction false} NothingIsPlaced(n: int, s: FieldSpec)
    requires n <= 0 && Implicit(s)
    ensures !AllPlaced(Packed(n), [s])
  {
    var b := Packed(n);
    assert [s][..0] == [] && AddAll(b, []) == Ok(b);
    ZeroIsAligned(EffectiveAlign(b, s.ty));
    ToUIntValue(0);
    assert AddAll(b, [s]) == Add(b, s) && Add(b, s).Ok?;
    assert !PlacedAt(b, [s], AddAll(b, [s]).value.fields, 0);
  }

  /** A negative packing counts back from the start of the address range: the second of two one-byte fields
      is refused or lands near 2**32. */
  lemma {:induction false} NegativePackingWraps(n: int, s: FieldSpec)
    requires n < 0 && Implicit(s) && s.ty.align > 0
    ensures var r := Add(Packed(n).(size := 1), s);
            if n < -TWO_31 then r.Err? else r.Ok? && r.value.fields[0].offset == TWO_32 + n
  {
    assert And(0, Not(n - 1)) == 0 && ChosenOffset(Packed(n).(size := 1), s) == n;
  }

  /** packed = false stores 0, which counts as packed: then every field without an explicit offset is at 0. */
  lemma {:induction false} PackedFalsePlacesAtZero(b: Builder, specs: seq<FieldSpec>)
    requires b.packed == Some(0) && !b.union && b.fields == [] && AllImplicit(specs)
    ensures AddAll(b, specs).Ok?
    ensures var fields := AddAll(b, specs).value.fields;
            |fields| == |specs| && forall i :: 0 <= i < |specs| ==> fields[i].offset == 0
    decreases |specs|
  {
    if specs != [] {
      var n := |specs| - 1;
      PackedFalsePlacesAtZero(b, specs[..n]);
      AddAllKeepsSettings(b, specs[..n]);
      var c := AddAll(b, specs[..n]).value;
      assert Implicit(specs[n]);
      AlignZero(c.size);
      ToUIntValue(0);
      assert ChosenOffset(c, specs[n]) == 0;
    }
  }

  lemma {:induction false} AlignZero(o: int)
    ensures RubyAlign(o, 0) == 0
  {
    assert Not(-1) == 0 && And(o - 1, 0) == 0;
  }

  /** So any two of them that are not empty overlap. */
  lemma {:induction false} PackedFalseOverlaps(b: Builder, specs: seq<FieldSpec>, i: nat, j: nat)
    requires b.packed == Some(0) && !b.union && b.fields == [] && AllImplicit(specs)
    requires i < j < |specs| && specs[i].ty.size > 0 && specs[j].ty.size > 0
    ensures AddAll(b, specs).Ok?
    ensures var fields := AddAll(b, specs).value.fields;
            |fields| == |specs| && fields[i].offset < End(fields[j]) && fields[j].offset < End(fields[i])
  {
    PackedFalsePlacesAtZero(b, specs);
    FieldsKeepTypes(b, specs);
    var fields := AddAll(b, specs).value.fields;
    assert fields[i].offset == 0 && fields[j].offset == 0;
  }

  // ---------------------------------------------------------------- which packings keep fields apart

  ghost predicate PositiveAlignments(specs: seq<FieldSpec>) {
    forall i :: 0 <= i < |specs| ==> specs[i].ty.align > 0
  }

  /** A builder that has nothing in it yet. */
  predicate Fresh(b: Builder) {
    b.size == 0 && b.fields == [] && !b.union
  }

  predicate Apart(fields: seq<Field>) {
    forall i, j :: 0 <= i < j < |fields| ==> End(fields[i]) <= fields[j].offset
  }

  ghost predicate KeepsApart(b: Builder, specs: seq<FieldSpec>) {
    AddAll(b, specs).Ok? ==> Apart(AddAll(b, specs).value.fields)
  }

  /** No packing, or a positive one. */
  predicate PositivePacking(b: Builder) {
    b.packed.Some? ==> b.packed.value > 0
  }

  lemma {:induction false} PositiveKeepsApart(b: Builder, specs: seq<FieldSpec>)
    requires Fresh(b) && PositivePacking(b) && AllImplicit(specs) && PositiveAlignments(specs)
    requires AddAll(b, specs).Ok?
    ensures Apart(AddAll(b, specs).value.fields) && Covers(AddAll(b, specs).value)
    decreases |specs|
  {
    if specs != [] {
      var n := |specs| - 1;
      PositiveKeepsApart(b, specs[..n]);
      AddAllKeepsSettings(b, specs[..n]);
      AddedIsApart(AddAll(b, specs[..n]).value, specs[n]);
    }
  }

  lemma {:induction false} AddedIsApart(c: Builder, s: FieldSpec)
    requires Covers(c) && Apart(c.fields) && 0 <= c.size && !c.union && PositivePacking(c)
    requires Implicit(s) && s.ty.align > 0 && Add(c, s).Ok?
    ensures Apart(Add(c, s).value.fields) && Covers(Add(c, s).value)
  {
    var e := EffectiveAlign(c, s.ty);
    AlignNeverGoesDown(c.size, e);
    ToUIntValue(RubyAlign(c.size, e));
    var d := Add(c, s).value;
    assert d.fields == c.fields + [Field(s.name, RubyAlign(c.size, e), s.ty)];
    forall i, j | 0 <= i < j < |d.fields| ensures End(d.fields[i]) <= d.fields[j].offset {
      assert End(c.fields[i]) <= c.size;
    }
  }

  /** Whatever the minimum alignment: a struct's settings keep all its fields without explicit offsets apart
      exactly when it is not packed, or packed by a positive number. */
  lemma {:induction false} KeepsApartExactly(b: Builder)
    requires Fresh(b)
    ensures (forall specs :: AllImplicit(specs) && PositiveAlignments(specs) ==> KeepsApart(b, specs))
       <==> PositivePacking(b)
  {
    if PositivePacking(b) {
      forall specs | AllImplicit(specs) && PositiveAlignments(specs) ensures KeepsApart(b, specs) {
        if AddAll(b, specs).Ok? {
          PositiveKeepsApart(b, specs);
        }
      }
    } else {
      SecondAtZero(b, b.packed.value);
      assert !KeepsApart(b, Colliding(b.packed.value));
    }
  }

  /** A field of 1 - n bytes and one of a single byte. */
  function Colliding(n: int): seq<FieldSpec>
    requires n <= 0
  {
    [FieldSpec("a", FieldType(1 - n, 1), None), FieldSpec("b", FieldType(1, 1), None)]
  }

  /** With a packing n that is not positive, both land at 0. */
  lemma {:induction false} SecondAtZero(b: Builder, n: int)
    requires Fresh(b) && b.packed == Some(n) && n <= 0
    ensures AllImplicit(Colliding(n)) && PositiveAlignments(Colliding(n))
    ensures AddAll(b, Colliding(n)).Ok?
    ensures var fields := AddAll(b, Colliding(n)).value.fields;
            && |fields| == 2 && fields[0].offset == 0 && fields[1].offset == 0
            && End(fields[0]) > 0 && End(fields[1]) > 0
  {
    var specs := Colliding(n);
    TwoAdded(b, specs[0], specs[1]);
    ZeroIsAligned(n);
    AddedAtZero(b, specs[0]);
    BackToZero(n);
    AddedAtZero(Add(b, specs[0]).value, specs[1]);
  }

  lemma {:induction false} BackToZero(n: int)
    requires n <= 0
    ensures RubyAlign(1 - n, n) == 0
  {
    AndSelf(-n);
  }

  lemma AddedAtZero(b: Builder, s: FieldSpec)
    requires ChosenOffset(b, s) == 0 && b.packed.Some? && !b.union
    ensures Add(b, s) == Ok(b.(fields := b.fields + [Field(s.name, 0, s.ty)], size := Max(b.size, s.ty.size)))
  {
  }

  lemma {:induction false} TwoAdded(b: Builder, s: FieldSpec, t: FieldSpec)
    requires Add(b, s).Ok?
    ensures AddAll(b, [s, t]) == Add(Add(b, s).value, t)
  {
    assert [s, t][..1] == [s] && [s][..0] == [];
    assert AddAll(b, []) == Ok(b) && AddAll(b, [s]) == Add(b, s);
  }

  lemma {:induction false} AndSelf(x: int)
    ensures And(x, x) == x
    decreases Abs(x)
  {
    AndUnfold(x, x);
    if x != 0 && x != -1 {
      AndSelf(x / 2);
    }
  }

  lemma PlacedInPrefix(b: Builder, specs: seq<FieldSpec>, fields: seq<Field>, n: nat, i: nat)
    requires i < n <= |specs| == |fields| && PlacedAt(b, specs[..n], fields[..n], i)
    ensures PlacedAt(b, specs, fields, i)
  {
    assert EndOf(b.size, fields[..n], i) == EndOf(b.size, fields, i);
  }

  /** Such fields never overlap and keep the order they were declared in. */
  lemma {:induction false} FieldsAreDisjoint(b: Builder, specs: seq<FieldSpec>, fields: seq<Field>, i: nat, j: nat)
    requires |specs| == |fields| && forall k :: 0 <= k < |specs| ==> PlacedAt(b, specs, fields, k)
    requires i < j < |fields|
    ensures End(fields[i]) <= fields[j].offset
    decreases j
  {
    assert PlacedAt(b, specs, fields, j);
    if i < j - 1 {
      FieldsAreDisjoint(b, specs, fields, i, j - 1);
    }
  }

  /** Fields keep the names and types they were added with, in order. */
  lemma {:induction false} FieldsKeepTypes(b: Builder, specs: seq<FieldSpec>)
    requires b.fields == [] && AddAll(b, specs).Ok?
    ensures var fields := AddAll(b, specs).value.fields;
            |fields| == |specs|
            && forall i :: 0 <= i < |specs| ==> fields[i].name == specs[i].name && fields[i].ty == specs[i].ty
    decreases |specs|
  {
    if specs != [] {
      FieldsKeepTypes(b, specs[..|specs| - 1]);
    }
  }

  // ---------------------------------------------------------------- the finished layout

  /** Every byte of every field is inside the builder's size. */
  predicate Covers(b: Builder) {
    forall i :: 0 <= i < |b.fields| ==>
                  b.fields[i].ty.size + (if b.union then 0 else b.fields[i].offset) <= b.size
  }

  lemma {:induction false} AddAllCovers(b: Builder, specs: seq<FieldSpec>)
    requires Covers(b) && AddAll(b, specs).Ok?
    ensures Covers(AddAll(b, specs).value) && AddAll(b, specs).value.size >= b.size
    ensures AddAll(b, specs).value.union == b.union
    decreases |specs|
  {
    if specs != [] {
      AddAllCovers(b, specs[..|specs| - 1]);
    }
  }

  lemma Pow2Below(k: nat, n: nat)
    requires Pow2(k) < Pow2(n)
    ensures k < n
  {
    if n <= k {
      Pow2Monotone(n, k);
    }
  }

  lemma SmallPow2(a: int)
    requires IsPow2(a) && a < TWO_32
    ensures exists k: nat :: k <= 32 && a == Pow2(k)
  {
    var k: nat :| a == Pow2(k);
    WordSizes();
    Pow2Below(k, 32);
  }

  lemma ToInt32Value(x: int)
    requires 0 <= x < TWO_32
    ensures ToInt32(x) == if x < TWO_31 then x else x - TWO_32
  {
  }

  /** The padding C adds, reduced to an int. */
  lemma CPadding(v: int, a: int)
    requires IsPow2(a) && a < TWO_31 && 0 < v < TWO_31
    ensures var r := RubyAlign(v, a);
            && 0 < r < TWO_32
            && ToInt32(CAlign(v, a)) == if r < TWO_31 then r else r - TWO_32
  {
    SmallPow2(a);
    var k: nat :| k <= 32 && a == Pow2(k);
    RubyAlignRoundsUp(v, k);
    CAlignIsRubyAlign(v, k);
    ToInt32Value(RubyAlign(v, a));
  }

  /** Padding a second time, in the other language, changes nothing. */
  lemma PaddedTwice(v: int, a: int)
    requires IsPow2(a) && a < TWO_31 && 0 < v && RubyAlign(v, a) < TWO_31
    ensures ToInt32(CAlign(RubyAlign(v, a), a)) == RubyAlign(v, a) > 0
  {
    var r := RubyAlign(v, a);
    AlignRoundsUp(v, a);
    AlignRoundsUp(r, a);
    CloseMultipleIsLeast(r, a, r);
    LeastMultipleUnique(r, RubyAlign(r, a), a, r);
    CPadding(r, a);
  }

  /** The C padding after the Ruby padding changes nothing: the layout's size is the least multiple of the
      struct's alignment that covers the fields, as long as that fits an int. When it does not, building an
      unpacked layout is refused; a packed one is refused if the size itself or the alignment does not fit,
      and gets a negative size otherwise. */
  lemma FinalSize(b: Builder)
    requires IsPow2(b.alignment) && b.size > 0 && !ZeroSizedInside(b.fields)
    ensures b.alignment > 0 && LeastMultiple(RubyAlign(b.size, b.alignment), b.alignment, b.size)
    ensures var r := RubyAlign(b.size, b.alignment);
            if r < TWO_31 then Build(b) == Ok(Layout(b.fields, FieldMap(b.fields), r, b.alignment))
            else if b.packed.None? || b.size >= TWO_31 || b.alignment >= TWO_31 then Build(b) == Err(RangeError)
            else Build(b).Ok? && Build(b).value.size < 0
  {
    AlignRoundsUp(b.size, b.alignment);
    var r := RubyAlign(b.size, b.alignment);
    SizeAtLeastAlignment(r, b.alignment);
    if b.size < TWO_31 && b.alignment < TWO_31 {
      if b.packed.Some? {
        CPadding(b.size, b.alignment);
      } else if r < TWO_31 {
        PaddedTwice(b.size, b.alignment);
      }
    }
  }

  lemma SizeAtLeastAlignment(r: int, a: int)
    requires a > 0 && r > 0 && r % a == 0
    ensures r >= a
  {
    if r < a {
      ModUnique(r, a, 0, r);
    }
  }

  lemma Pow2DividesLarger(a: int, b: int)
    requires IsPow2(a) && IsPow2(b) && a <= b
    ensures a > 0 && b % a == 0
  {
    var i: nat :| a == Pow2(i);
    var j: nat :| b == Pow2(j);
    if j < i {
      Pow2Half(i);
      Pow2Monotone(j, i - 1);
    } else {
      Pow2Divides(i, j);
    }
  }

  /** The alignment a finished struct has covers that of each of its fields. */
  ghost predicate AlignmentCovers(b: Builder) {
    forall i :: 0 <= i < |b.fields| ==>
                  && IsPow2(b.fields[i].ty.align)
                  && EffectiveAlign(b, b.fields[i].ty) <= b.alignment
  }

  lemma {:induction false} AddAllAlignment(b: Builder, specs: seq<FieldSpec>)
    requires Ready(b) && PowersOfTwo(specs) && AddAll(b, specs).Ok? && AlignmentCovers(b)
    ensures AlignmentCovers(AddAll(b, specs).value)
    decreases |specs|
  {
    if specs != [] {
      var n := |specs| - 1;
      AddAllAlignment(b, specs[..n]);
      AddAllKeepsReady(b, specs[..n]);
      var c, d := AddAll(b, specs[..n]).value, AddAll(b, specs).value;
      assert IsPow2(specs[n].ty.align);
      forall i | 0 <= i < |d.fields|
        ensures IsPow2(d.fields[i].ty.align) && EffectiveAlign(d, d.fields[i].ty) <= d.alignment
      {
        if i < |c.fields| {
          assert d.fields[i] == c.fields[i];
          assert EffectiveAlign(c, c.fields[i].ty) <= c.alignment;
        }
      }
    }
  }

  lemma ElementAligned(n: nat, size: int, offset: int, whole: int, part: int)
    requires 0 < part && 0 < whole && whole % part == 0 && size % whole == 0 && offset % part == 0
    ensures (n * size + offset) % part == 0
  {
    var u, v, w := whole / part, size / whole, offset / part;
    assert whole == u * part && size == v * whole && offset == w * part;
    assert n * size + offset == ((n * v) * u + w) * part by {
      assert n * (v * (u * part)) == ((n * v) * u) * part;
    }
    ModOfMultiple((n * v) * u + w, part);
  }

  // ---------------------------------------------------------------- Struct.layout from end to end

  /** What packed= was given. */
  datatype PackedArg = PackedInt(n: int) | PackedFlag(on: bool)

  function Initial(): Builder {
    Builder(0, 1, 1, None, false, [])
  }

  function WithPacked(b: Builder, p: PackedArg): Builder {
    match p
    case PackedInt(n) => b.(alignment := n, packed := Some(n))
    case PackedFlag(on) => b.(packed := Some(if on then 1 else 0))
  }

  function WithAlignment(b: Builder, a: int): Builder {
    b.(alignment := Max(b.alignment, a), minAlignment := a)
  }

  function WithSize(b: Builder, size: int): Builder {
    b.(size := Max(b.size, size))
  }

  /** Asked for again, a minimum alignment replaces the one before, also when it is smaller: fields added from
      then on are aligned to it alone, while the alignment of the whole only grows. */
  lemma LastMinimumHolds(b: Builder, a: int, c: int, x: int)
    requires b.packed.None? && IsPow2(c)
    ensures var d := WithAlignment(WithAlignment(b, a), c);
            && d.alignment >= b.alignment && d.alignment >= a && d.alignment >= c
            && (x % EffectiveAlign(d, FieldType(1, 1)) == 0 <==> x % c == 0)
  {
    assert Pow2(0) == 1;
    MultipleOfBoth(x, c, 1);
  }

  /** The class-level settings of a struct: its union flag, packing, minimum alignment and size. */
  datatype Settings = Settings(union: bool, packed: Option<PackedArg>, min: Option<int>, size: Option<int>)

  function Prepared(s: Settings): Builder {
    var b := Initial().(union := s.union);
    var c := if s.packed.Some? then WithPacked(b, s.packed.value) else b;
    if s.min.Some? then WithAlignment(c, s.min.value) else c
  }

  function LayoutOf(s: Settings, specs: seq<FieldSpec>): Result<Layout, Error> {
    match AddAll(Prepared(s), specs)
    case Err(e) => Err(e)
    case Ok(b) => Build(if s.size.Some? then WithSize(b, s.size.value) else b)
  }

  ghost predicate Sensible(s: Settings) {
    && (s.packed.Some? ==> match s.packed.value
                           case PackedInt(n) => IsPow2(n)
                           case PackedFlag(on) => on)
    && (s.min.Some? ==> IsPow2(s.min.value))
  }

  lemma PreparedIsReady(s: Settings)
    requires Sensible(s)
    ensures Ready(Prepared(s)) && AlignmentCovers(Prepared(s)) && Covers(Prepared(s))
  {
    assert Pow2(0) == 1;
    if s.min.Some? {
      var k: nat :| s.min.value == Pow2(k);
    }
  }

  /** A builder whose layout was built has a positive size that fits an int, and the C padding is the
      only one left to account for. */
  lemma BuiltSize(b: Builder)
    requires 0 <= b.size && IsPow2(b.alignment) && Build(b).Ok? && Build(b).value.size >= 0
    ensures 0 < b.size && b.alignment > 0
    ensures Build(b).value.fields == b.fields && Build(b).value.fieldMap == FieldMap(b.fields)
    ensures Build(b).value.align == b.alignment
    ensures Build(b).value.size == RubyAlign(b.size, b.alignment)
    ensures LeastMultiple(Build(b).value.size, b.alignment, b.size)
  {
    AlignRoundsUp(b.size, b.alignment);
    if b.size == 0 {
      CloseMultipleIsLeast(0, b.alignment, 0);
      LeastMultipleUnique(0, RubyAlign(0, b.alignment), b.alignment, 0);
      SmallPow2(b.alignment);
      var k: nat :| k <= 32 && b.alignment == Pow2(k);
      CAlignIsRubyAlign(0, k);
      ToInt32Value(0);
    } else {
      FinalSize(b);
    }
  }

  lemma BuiltSizeFitsInt(s: Settings, specs: seq<FieldSpec>)
    requires LayoutOf(s, specs).Ok?
    ensures FitsInt(LayoutOf(s, specs).value.size)
  {
  }

  /** A struct with packed = 2 and one inline array of 2**31 - 1 bytes gets a negative size. */
  lemma {:induction false} PackedSizeTurnsNegative()
    ensures var s := Settings(false, Some(PackedInt(2)), None, None);
            var l := LayoutOf(s, [FieldSpec("a", FieldType(TWO_31 - 1, 1), None)]);
            l.Ok? && l.value.size < 0
  {
    var b, f := Packed(2), FieldSpec("a", FieldType(TWO_31 - 1, 1), None);
    assert Prepared(Settings(false, Some(PackedInt(2)), None, None)) == b;
    ZeroIsAligned(1);
    AddedAtZero(b, f);
    var c := Add(b, f).value;
    assert [f][..0] == [] && AddAll(b, []) == Ok(b) && AddAll(b, [f]) == Ok(c);
    assert Pow2(0) == 1 && Pow2(1) == 2;
    FinalSize(c);
    MultipleAbove(RubyAlign(c.size, 2));
  }

  lemma MultipleAbove(r: int)
    requires r >= TWO_31 - 1 && r % 2 == 0
    ensures r >= TWO_31
  {
  }

  /** Where the last field of a struct ends, or the size it was given if that is more. */
  function Extent(s: Settings, fields: seq<Field>): int {
    var end := EndOf(0, fields, |fields|);
    if s.size.Some? then Max(end, s.size.value) else end
  }

  /** The builder a finished layout came from. */
  function Filled(s: Settings, specs: seq<FieldSpec>): Builder
    requires AddAll(Prepared(s), specs).Ok?
  {
    var b := AddAll(Prepared(s), specs).value;
    if s.size.Some? then WithSize(b, s.size.value) else b
  }

  /** A layout that was built has a positive alignment and never a size less than the builder's. */
  lemma BuiltIsLarger(b: Builder)
    requires 0 <= b.size && Build(b).Ok? && Build(b).value.size >= 0
    ensures b.alignment > 0 && b.size <= Build(b).value.size
    ensures Build(b).value.fields == b.fields && Build(b).value.fieldMap == FieldMap(b.fields)
    ensures Build(b).value.align == b.alignment
  {
    var size := if b.packed.Some? then b.size else RubyAlign(b.size, b.alignment);
    if b.alignment <= 0 {
      CAlignOfNone(size, b.alignment);
    } else {
      AlignNeverGoesDown(b.size, b.alignment);
      CAlignNeverGoesDown(size, b.alignment);
    }
  }

  /** C's padding makes every power of two that divides the alignment divide the size. */
  lemma CAlignKeepsFactors(v: int, a: int, k: nat)
    requires 0 < a < TWO_31 && a % Pow2(k) == 0
    ensures ToInt32(CAlign(v, a)) % Pow2(k) == 0
  {
    var m := Pow2(k);
    FactorIsSmall(a, k);
    assert (a - 1) % TWO_64 == a - 1;
    MinusOneMod(m, a);
    NotMod(a - 1, m);
    var x := And(Not((v - 1) % TWO_64), Not(a - 1));
    AndMultiple(Not((v - 1) % TWO_64), Not(a - 1), k);
    NotMod(x, m);
    OneMore(Not(x), m);
    ModThrough(Not(x) + 1, m, TWO_64);
    Int32KeepsFactor(CAlign(v, a), m);
  }

  lemma FactorIsSmall(a: int, k: nat)
    requires 0 < a < TWO_31 && a % Pow2(k) == 0
    ensures TWO_32 % Pow2(k) == 0 && TWO_64 % Pow2(k) == 0
  {
    SizeAtLeastAlignment(a, Pow2(k));
    WordSizes();
    Pow2Below(k, 31);
    Pow2Divides(k, 32);
    Pow2Divides(k, 64);
  }

  lemma OneMore(x: int, m: int)
    requires m > 0 && x % m == m - 1
    ensures (x + 1) % m == 0
  {
    assert x + 1 == (x / m + 1) * m;
    ModOfMultiple(x / m + 1, m);
  }

  /** Reduction modulo a multiple of m keeps divisibility by m. */
  lemma ModThrough(x: int, m: int, w: int)
    requires m > 0 && w > 0 && w % m == 0 && x % m == 0
    ensures (x % w) % m == 0
  {
    var p, q := x / m, w / m;
    assert x == p * m && w == q * m && x == x / w * w + x % w;
    assert x % w == (p - x / w * q) * m by {
      assert x / w * (q * m) == (x / w * q) * m;
    }
    ModOfMultiple(p - x / w * q, m);
  }

  lemma Int32KeepsFactor(x: int, m: int)
    requires m > 0 && TWO_32 % m == 0 && x % m == 0
    ensures ToInt32(x) % m == 0
  {
    var q := (x + TWO_31) / TWO_32;
    assert ToInt32(x) == x - q * TWO_32;
    var p, w := x / m, TWO_32 / m;
    assert x == p * m && TWO_32 == w * m;
    assert x - q * TWO_32 == (p - q * w) * m by {
      assert q * (w * m) == (q * w) * m;
    }
    ModOfMultiple(p - q * w, m);
  }

  /** So whatever the settings, a layout's size has every power of two as a factor that its alignment has. */
  lemma {:induction false} LayoutKeepsFactors(s: Settings, specs: seq<FieldSpec>, k: nat)
    requires LayoutOf(s, specs).Ok? && LayoutOf(s, specs).value.size >= 0
    requires LayoutOf(s, specs).value.align % Pow2(k) == 0
    ensures LayoutOf(s, specs).value.size % Pow2(k) == 0
  {
    LayoutIsBuilt(s, specs);
    var b := Filled(s, specs);
    CAlignKeepsFactors(if b.packed.Some? then b.size else RubyAlign(b.size, b.alignment), b.alignment, k);
  }

  /** What holds of every finished layout, whatever its settings and the offsets asked for. */
  lemma {:induction false} LayoutIsBuilt(s: Settings, specs: seq<FieldSpec>)
    requires LayoutOf(s, specs).Ok? && LayoutOf(s, specs).value.size >= 0
    ensures AddAll(Prepared(s), specs).Ok?
    ensures var (b, l) := (Filled(s, specs), LayoutOf(s, specs).value);
            && l.fields == b.fields && |l.fields| == |specs| && l.fieldMap == FieldMap(l.fields)
            && l.align == b.alignment && l.align > 0 && 0 <= b.size <= l.size
            && Covers(b) && b.union == s.union
            && (IsPow2(l.align) ==> b.size > 0 && LeastMultiple(l.size, l.align, b.size))
  {
    var b := Prepared(s);
    AddAllCovers(b, specs);
    AddAllKeepsSettings(b, specs);
    var c := Filled(s, specs);
    BuiltIsLarger(c);
    if IsPow2(c.alignment) {
      BuiltSize(c);
    }
  }

  /** With settings and alignments that are powers of two the layout's alignment is one, and covers each
      field's. */
  lemma {:induction false} FilledIsSound(s: Settings, specs: seq<FieldSpec>)
    requires Sensible(s) && PowersOfTwo(specs) && AddAll(Prepared(s), specs).Ok?
    ensures var b := Filled(s, specs);
            && IsPow2(b.alignment) && AlignmentCovers(b)
            && b.packed == Prepared(s).packed && b.minAlignment == Prepared(s).minAlignment
  {
    var b := Prepared(s);
    PreparedIsReady(s);
    AddAllKeepsReady(b, specs);
    AddAllAlignment(b, specs);
  }

  /** The packing that was asked for, if any, is true or a positive number. */
  predicate Positive(s: Settings) {
    s.packed.Some? ==> match s.packed.value
                       case PackedInt(n) => n > 0
                       case PackedFlag(on) => on
  }

  /** A struct laid out without explicit offsets: no two fields overlap, and all are inside the size. When
      the effective alignments are powers of two each field is at the least aligned offset past the previous
      one, and when the struct's own is, the size is the least multiple of it that holds the fields. */
  lemma {:induction false} StructLayoutIsSound(s: Settings, specs: seq<FieldSpec>)
    requires !s.union && AllImplicit(specs) && Positive(s) && PositiveAlignments(specs)
    requires LayoutOf(s, specs).Ok? && LayoutOf(s, specs).value.size >= 0
    ensures var l := LayoutOf(s, specs).value;
            && |l.fields| == |specs| && l.fieldMap == FieldMap(l.fields)
            && (forall i :: 0 <= i < |specs| ==> l.fields[i].name == specs[i].name && l.fields[i].ty == specs[i].ty)
            && Apart(l.fields)
            && (forall i :: 0 <= i < |l.fields| ==> End(l.fields[i]) <= l.size)
            && l.align > 0
    ensures var l := LayoutOf(s, specs).value;
            EffectivePowers(Prepared(s), specs) ==>
              && (forall i :: 0 <= i < |specs| ==> PlacedAt(Prepared(s), specs, l.fields, i))
              && (IsPow2(l.align) ==> LeastMultiple(l.size, l.align, Extent(s, l.fields)))
  {
    FieldsKeepTypes(Prepared(s), specs);
    PositiveKeepsApart(Prepared(s), specs);
    FieldsStayInside(s, specs);
    LayoutIsBuilt(s, specs);
    if EffectivePowers(Prepared(s), specs) {
      FieldsArePacked(Prepared(s), specs);
    }
  }

  /** Settings and alignments that are powers of two are all it takes. */
  lemma {:induction false} SensibleIsEnough(s: Settings, specs: seq<FieldSpec>)
    requires Sensible(s) && PowersOfTwo(specs)
    ensures Positive(s) && PositiveAlignments(specs) && EffectivePowers(Prepared(s), specs)
    ensures LayoutOf(s, specs).Ok? ==> IsPow2(LayoutOf(s, specs).value.align)
  {
    PreparedIsReady(s);
    EffectiveAllPow2(Prepared(s), specs);
    forall i | 0 <= i < |specs| ensures specs[i].ty.align > 0 {
      var k: nat :| specs[i].ty.align == Pow2(k);
    }
    if LayoutOf(s, specs).Ok? {
      AddAllKeepsReady(Prepared(s), specs);
    }
  }

  /** So a struct class keeps its fields without explicit offsets apart, whatever its minimum alignment,
      exactly when its packing, if it has one, is true or a positive number. */
  lemma {:induction false} SettingsKeepApartExactly(s: Settings)
    requires !s.union
    ensures (forall specs :: AllImplicit(specs) && PositiveAlignments(specs) ==> KeepsApart(Prepared(s), specs))
       <==> Positive(s)
  {
    KeepsApartExactly(Prepared(s));
  }

  /** In an array of structs every field of every element is aligned. */
  lemma {:induction false} ArrayElementsAreAligned(s: Settings, specs: seq<FieldSpec>, n: nat, i: nat)
    requires Sensible(s) && !s.union && PowersOfTwo(specs) && AllImplicit(specs)
    requires LayoutOf(s, specs).Ok? && LayoutOf(s, specs).value.size >= 0 && i < |specs|
    ensures var l := LayoutOf(s, specs).value;
            i < |l.fields| && AlignedIn(n, l, i, EffectiveAlign(Prepared(s), l.fields[i].ty))
  {
    var b := Prepared(s);
    var l := LayoutOf(s, specs).value;
    PreparedIsReady(s);
    EffectiveAllPow2(b, specs);
    FieldsArePacked(b, specs);
    LayoutIsBuilt(s, specs);
    FilledIsSound(s, specs);
    var c := Filled(s, specs);
    assert PlacedAt(b, specs, l.fields, i);
    EffectiveIsPow2(b, l.fields[i].ty);
    assert EffectiveAlign(c, c.fields[i].ty) <= c.alignment;
    ElementIsAligned(n, l, i, EffectiveAlign(b, l.fields[i].ty));
  }

  // ---------------------------------------------------------------- placement from the settings alone

  /** Where a field may be placed. Unpacked: at multiples of its type's alignment and of the minimum
      alignment. Packed by n: at multiples of either n or its type's alignment. Packed by true: anywhere. */
  predicate AlignedFor(s: Settings, ty: FieldType, x: int) {
    match s.packed
    case None =>
      && (ty.align > 0 ==> x % ty.align == 0)
      && (s.min.Some? && s.min.value > 0 ==> x % s.min.value == 0)
    case Some(PackedInt(n)) => (n > 0 && x % n == 0) || (ty.align > 0 && x % ty.align == 0)
    case Some(PackedFlag(_)) => true
  }

  /** x is the first such offset from lo on. */
  ghost predicate FirstFor(s: Settings, ty: FieldType, lo: int, x: int) {
    lo <= x && AlignedFor(s, ty, x) && forall y :: lo <= y < x ==> !AlignedFor(s, ty, y)
  }

  /** A packing that is true or a power of two; unpacked, a minimum alignment that is none or a power of two. */
  ghost predicate Workable(s: Settings) {
    match s.packed
    case None => s.min.Some? ==> IsPow2(s.min.value) || s.min.value <= 0
    case Some(PackedInt(n)) => IsPow2(n)
    case Some(PackedFlag(on)) => on
  }

  lemma MultipleOfBoth(x: int, a: int, b: int)
    requires IsPow2(a) && IsPow2(b)
    ensures a > 0 && b > 0
    ensures x % Max(a, b) == 0 <==> x % a == 0 && x % b == 0
    ensures x % Min(a, b) == 0 <==> x % a == 0 || x % b == 0
  {
    var i: nat, j: nat :| a == Pow2(i) && b == Pow2(j);
    if a <= b {
      Pow2DividesLarger(a, b);
      if x % b == 0 {
        DividesAlong(a, b, x);
      }
    } else {
      Pow2DividesLarger(b, a);
      if x % a == 0 {
        DividesAlong(b, a, x);
      }
    }
  }

  lemma DividesAlong(a: int, b: int, c: int)
    requires a > 0 && b > 0 && b % a == 0 && c % b == 0
    ensures c % a == 0
  {
    var p, q := b / a, c / b;
    assert b == p * a && c == q * b;
    assert c == (q * p) * a by {
      assert q * (p * a) == (q * p) * a;
    }
    ModOfMultiple(q * p, a);
  }

  /** So they are the multiples of one power of two. */
  lemma AlignedForIsMultiple(s: Settings, ty: FieldType, x: int)
    requires Workable(s) && IsPow2(ty.align)
    ensures var e := EffectiveAlign(Prepared(s), ty);
            IsPow2(e) && e > 0 && (AlignedFor(s, ty, x) <==> x % e == 0)
  {
    assert Pow2(0) == 1 && IsPow2(1);
    match s.packed
    case None =>
      MultipleOfBoth(x, 1, ty.align);
      if s.min.Some? && s.min.value > 0 {
        MultipleOfBoth(x, s.min.value, ty.align);
      }
    case Some(PackedInt(n)) => MultipleOfBoth(x, n, ty.align);
    case Some(PackedFlag(_)) => MultipleOfBoth(x, 1, ty.align);
  }

  lemma FirstIsLeastMultiple(s: Settings, ty: FieldType, lo: int, x: int)
    requires Workable(s) && IsPow2(ty.align)
    requires EffectiveAlign(Prepared(s), ty) > 0 && LeastMultiple(x, EffectiveAlign(Prepared(s), ty), lo)
    ensures FirstFor(s, ty, lo, x)
  {
    AlignedForIsMultiple(s, ty, x);
    forall y | lo <= y < x ensures !AlignedFor(s, ty, y) {
      AlignedForIsMultiple(s, ty, y);
    }
  }

  /** How far the fields reach. */
  function Furthest(fields: seq<Field>): nat {
    if fields == [] then 0 else Max(Furthest(fields[..|fields| - 1]), End(fields[|fields| - 1]))
  }

  lemma {:induction false} SizeIsFurthest(b: Builder, specs: seq<FieldSpec>)
    requires Fresh(b) && AddAll(b, specs).Ok?
    ensures AddAll(b, specs).value.size == Furthest(AddAll(b, specs).value.fields)
    decreases |specs|
  {
    if specs != [] {
      var n := |specs| - 1;
      SizeIsFurthest(b, specs[..n]);
      AddAllKeepsSettings(b, specs[..n]);
      var c, fields := AddAll(b, specs[..n]).value, AddAll(b, specs).value.fields;
      assert fields[..|fields| - 1] == c.fields;
    }
  }

  /** The fields of a list and of its beginnings are the same. */
  lemma {:induction false} FieldsOfPrefix(b: Builder, specs: seq<FieldSpec>, n: nat)
    requires b.fields == [] && AddAll(b, specs).Ok? && n <= |specs|
    ensures AddAll(b, specs[..n]).Ok? && |AddAll(b, specs).value.fields| == |specs|
    ensures AddAll(b, specs).value.fields[..n] == AddAll(b, specs[..n]).value.fields
    decreases |specs|
  {
    AddAllKeepsSettings(b, specs);
    if n == |specs| {
      assert specs[..n] == specs;
    } else {
      var front := specs[..|specs| - 1];
      FieldsOfPrefix(b, front, n);
      assert front[..n] == specs[..n];
      assert AddAll(b, specs).value.fields[..n] == AddAll(b, front).value.fields[..n];
    }
  }

  /** Where field i of a list of its own belongs, given the fields before it. */
  ghost predicate Belongs(s: Settings, spec: FieldSpec, before: seq<Field>, f: Field) {
    && f.name == spec.name && f.ty == spec.ty
    && (if !Implicit(spec) then f.offset == spec.offset.value + if spec.offset.value < 0 then TWO_32 else 0
        else if s.union then f.offset == 0
        else FirstFor(s, spec.ty, Furthest(before), f.offset))
  }

  lemma {:induction false} AddBelongs(s: Settings, c: Builder, spec: FieldSpec)
    requires Workable(s) && IsPow2(spec.ty.align) && Add(c, spec).Ok?
    requires c.packed == Prepared(s).packed && c.minAlignment == Prepared(s).minAlignment && c.union == s.union
    requires !c.union ==> c.size == Furthest(c.fields)
    ensures |Add(c, spec).value.fields| == |c.fields| + 1
    ensures Belongs(s, spec, c.fields, Add(c, spec).value.fields[|c.fields|])
  {
    if Implicit(spec) && !s.union {
      var e := EffectiveAlign(c, spec.ty);
      AlignedForIsMultiple(s, spec.ty, 0);
      AlignRoundsUp(c.size, e);
      ToUIntValue(RubyAlign(c.size, e));
      FirstIsLeastMultiple(s, spec.ty, c.size, RubyAlign(c.size, e));
    }
  }

  /** From the settings and the list alone: a field with an explicit offset is there, wrapped if it is
      negative; in a union any other is at 0, and in a struct at the first offset past all fields before it
      that is aligned for it. */
  lemma {:induction false} FieldsBelong(s: Settings, specs: seq<FieldSpec>, i: nat)
    requires Workable(s) && PowersOfTwo(specs) && AddAll(Prepared(s), specs).Ok? && i < |specs|
    ensures var fields := AddAll(Prepared(s), specs).value.fields;
            |fields| == |specs| && Belongs(s, specs[i], fields[..i], fields[i])
  {
    var b := Prepared(s);
    FieldsOfPrefix(b, specs, i);
    FieldsOfPrefix(b, specs, i + 1);
    var c := AddAll(b, specs[..i]).value;
    assert specs[..i + 1][..i] == specs[..i] && specs[..i + 1][i] == specs[i];
    assert AddAll(b, specs[..i + 1]) == Add(c, specs[i]);
    AddAllKeepsSettings(b, specs[..i]);
    if !s.union {
      SizeIsFurthest(b, specs[..i]);
    }
    AddBelongs(s, c, specs[i]);
    assert AddAll(b, specs).value.fields[..i + 1][i] == AddAll(b, specs).value.fields[i];
  }

  /** An explicit offset is refused exactly when it does not fit 32 bits, as no fixnum or as out of range. */
  lemma ExplicitOffsets(b: Builder, s: FieldSpec)
    requires !Implicit(s)
    ensures var o := s.offset.value;
            && (Add(b, s).Ok? <==> -TWO_31 <= o < TWO_32)
            && (Add(b, s) == Err(TypeError) <==> o < -TWO_62 || TWO_62 <= o)
            && (Add(b, s).Err? ==> Add(b, s).error == TypeError || Add(b, s).error == RangeError)
  {
  }

  /** What the alignment of a struct or union starts from: its packing if that is a number, and the minimum. */
  function BaseAlign(s: Settings): int {
    var start := if s.packed.Some? && s.packed.value.PackedInt? then s.packed.value.n else 1;
    if s.min.Some? then Max(start, s.min.value) else start
  }

  /** A packed struct or union has that alignment; an unpacked one the largest of it and its fields'. */
  lemma {:induction false} AlignmentIsLargest(s: Settings, specs: seq<FieldSpec>)
    requires AddAll(Prepared(s), specs).Ok?
    ensures var a := AddAll(Prepared(s), specs).value.alignment;
            && BaseAlign(s) <= a
            && (s.packed.Some? ==> a == BaseAlign(s))
            && (s.packed.None? ==> forall i :: 0 <= i < |specs| ==> specs[i].ty.align <= a)
            && (a == BaseAlign(s) || exists i :: 0 <= i < |specs| && specs[i].ty.align == a)
    ensures LayoutOf(s, specs).Ok? ==> LayoutOf(s, specs).value.align == AddAll(Prepared(s), specs).value.alignment
    decreases |specs|
  {
    if specs != [] {
      var n := |specs| - 1;
      var front := specs[..n];
      AlignmentIsLargest(s, front);
      AddAllKeepsSettings(Prepared(s), front);
      var a, c := AddAll(Prepared(s), specs).value.alignment, AddAll(Prepared(s), front).value.alignment;
      if s.packed.None? {
        forall i | 0 <= i < |specs| ensures specs[i].ty.align <= a {
          assert i < n ==> front[i] == specs[i];
        }
      }
      if a == c && c != BaseAlign(s) {
        var i :| 0 <= i < n && front[i].ty.align == c;
        assert specs[i].ty.align == a;
      }
    }
  }

  /** In an array of structs every field of every element is where it may be placed: unpacked, at a multiple
      of its own type's alignment. */
  lemma {:induction false} ArrayElementsBelong(s: Settings, specs: seq<FieldSpec>, n: nat, i: nat)
    requires Sensible(s) && !s.union && PowersOfTwo(specs) && AllImplicit(specs)
    requires LayoutOf(s, specs).Ok? && LayoutOf(s, specs).value.size >= 0 && i < |specs|
    ensures var l := LayoutOf(s, specs).value;
            && i < |l.fields| && l.fields[i].ty == specs[i].ty
            && AlignedFor(s, specs[i].ty, n * l.size + l.fields[i].offset)
  {
    var l := LayoutOf(s, specs).value;
    ArrayElementsAreAligned(s, specs, n, i);
    FieldsKeepTypes(Prepared(s), specs);
    AlignedForIsMultiple(s, specs[i].ty, n * l.size + l.fields[i].offset);
  }

  lemma ElementIsAligned(n: nat, l: Layout, i: nat, e: int)
    requires i < |l.fields| && IsPow2(e) && IsPow2(l.align) && 0 < e <= l.align
    requires l.size % l.align == 0 && l.fields[i].offset % e == 0
    ensures AlignedIn(n, l, i, e)
  {
    Pow2DividesLarger(e, l.align);
    ElementAligned(n, l.size, l.fields[i].offset, l.align, e);
  }

  /** Field i of element n of an array of structs is aligned to e. */
  predicate AlignedIn(n: nat, l: Layout, i: int, e: int)
    requires 0 <= i < |l.fields|
  {
    e > 0 && (n * l.size + l.fields[i].offset) % e == 0
  }

  /** The largest of these members, or the given size if that is larger. */
  function Largest(start: int, specs: seq<FieldSpec>): int {
    if specs == [] then start else Max(Largest(start, specs[..|specs| - 1]), specs[|specs| - 1].ty.size)
  }

  lemma {:induction false} LargestIsLargest(start: int, specs: seq<FieldSpec>)
    ensures Largest(start, specs) >= start
    ensures forall i :: 0 <= i < |specs| ==> specs[i].ty.size <= Largest(start, specs)
    ensures Largest(start, specs) == start || exists i :: 0 <= i < |specs| && specs[i].ty.size == Largest(start, specs)
    decreases |specs|
  {
    if specs != [] {
      var front := specs[..|specs| - 1];
      LargestIsLargest(start, front);
      forall i | 0 <= i < |specs| ensures specs[i].ty.size <= Largest(start, specs) {
        assert i < |specs| - 1 ==> front[i] == specs[i];
      }
      if Largest(start, specs) != start && Largest(start, specs) != specs[|specs| - 1].ty.size {
        var i :| 0 <= i < |front| && front[i].ty.size == Largest(start, front);
        assert specs[i].ty.size == Largest(start, specs);
      }
    }
  }

  /** A union without explicit offsets, whatever its settings: every member at offset 0 and inside the size,
      which is the least multiple of the alignment that holds the largest member and any size that was given
      when that alignment is a power of two. */
  lemma {:induction false} UnionLayoutIsSound(s: Settings, specs: seq<FieldSpec>)
    requires s.union && AllImplicit(specs)
    requires LayoutOf(s, specs).Ok? && LayoutOf(s, specs).value.size >= 0
    ensures var l := LayoutOf(s, specs).value;
            && |l.fields| == |specs| && l.align > 0
            && (forall i :: 0 <= i < |specs| ==> l.fields[i] == Field(specs[i].name, 0, specs[i].ty))
            && (forall i :: 0 <= i < |specs| ==> specs[i].ty.size <= l.size)
            && (IsPow2(l.align) ==>
                  LeastMultiple(l.size, l.align, Largest(if s.size.Some? then Max(0, s.size.value) else 0, specs)))
  {
    LayoutIsBuilt(s, specs);
    UnionIsFilled(s, specs);
  }

  lemma {:induction false} UnionIsFilled(s: Settings, specs: seq<FieldSpec>)
    requires s.union && AllImplicit(specs) && AddAll(Prepared(s), specs).Ok?
    ensures var b := Filled(s, specs);
            && |b.fields| == |specs|
            && (forall i :: 0 <= i < |specs| ==> b.fields[i] == Field(specs[i].name, 0, specs[i].ty))
            && (forall i :: 0 <= i < |specs| ==> specs[i].ty.size <= b.size)
            && b.size == Largest(if s.size.Some? then Max(0, s.size.value) else 0, specs)
  {
    UnionMembers(Prepared(s), specs);
    LargestStart(0, if s.size.Some? then Max(0, s.size.value) else 0, specs);
    LargestIsLargest(0, specs);
  }

  lemma {:induction false} LargestStart(a: int, b: int, specs: seq<FieldSpec>)
    requires a <= b
    ensures Largest(b, specs) == Max(Largest(a, specs), b)
    decreases |specs|
  {
    if specs != [] {
      LargestStart(a, b, specs[..|specs| - 1]);
    }
  }

  lemma {:induction false} UnionMembers(b: Builder, specs: seq<FieldSpec>)
    requires b.union && b.fields == [] && AllImplicit(specs) && AddAll(b, specs).Ok?
    ensures var c := AddAll(b, specs).value;
            && c.union && |c.fields| == |specs|
            && (forall i :: 0 <= i < |specs| ==> c.fields[i] == Field(specs[i].name, 0, specs[i].ty))
            && c.size == Largest(b.size, specs)
    decreases |specs|
  {
    if specs != [] {
      UnionMembers(b, specs[..|specs| - 1]);
    }
  }

  /** Whatever a struct's settings and whatever explicit offsets it asks for, every field it ends up with
      lies inside it. */
  lemma {:induction false} FieldsStayInside(s: Settings, specs: seq<FieldSpec>)
    requires !s.union && LayoutOf(s, specs).Ok? && LayoutOf(s, specs).value.size >= 0
    ensures var l := LayoutOf(s, specs).value;
            forall i :: 0 <= i < |l.fields| ==> End(l.fields[i]) <= l.size
  {
    LayoutIsBuilt(s, specs);
    var b := Filled(s, specs);
    forall i | 0 <= i < |b.fields| ensures End(b.fields[i]) <= LayoutOf(s, specs).value.size {
      assert b.fields[i].ty.size + b.fields[i].offset <= b.size;
    }
  }

  /** The field map leads from a name to the last field of that name. */
  lemma {:induction false} FieldMapFinds(fields: seq<Field>, i: nat)
    requires i < |fields|
    requires forall k :: i < k < |fields| ==> fields[k].name != fields[i].name
    ensures fields[i].name in FieldMap(fields) && FieldMap(fields)[fields[i].name] == fields[i]
    decreases |fields|
  {
    if i < |fields| - 1 {
      FieldMapFinds(fields[..|fields| - 1], i);
    }
  }

  /** And from no other name. */
  lemma {:induction false} FieldMapHasOnly(fields: seq<Field>, name: string)
    requires name in FieldMap(fields)
    ensures exists i :: 0 <= i < |fields| && fields[i].name == name
    decreases |fields|
  {
    var n := |fields| - 1;
    if fields[n].name != name {
      FieldMapHasOnly(fields[..n], name);
      var i :| 0 <= i < n && fields[..n][i].name == name;
      assert fields[i].name == name;
    }
  }

  /** A struct that fits is refused exactly when it is empty or a field other than the last has no size. */
  lemma {:induction false} BuildRefuses(b: Builder)
    requires IsPow2(b.alignment) && 0 <= b.size && RubyAlign(b.size, b.alignment) < TWO_31 && b.alignment < TWO_31
    ensures Build(b) == Err(TypeError) <==> exists i :: 0 <= i < |b.fields| - 1 && b.fields[i].ty.size == 0
    ensures Build(b) == Err(RuntimeError) <==>
              b.size == 0 && forall i :: 0 <= i < |b.fields| - 1 ==> b.fields[i].ty.size > 0
    ensures Build(b) != Err(RangeError)
  {
    AlignRoundsUp(b.size, b.alignment);
    if b.size == 0 {
      SmallPow2(b.alignment);
      var k: nat :| k <= 32 && b.alignment == Pow2(k);
      CloseMultipleIsLeast(0, b.alignment, 0);
      LeastMultipleUnique(0, RubyAlign(0, b.alignment), b.alignment, 0);
      CAlignIsRubyAlign(0, k);
      ToInt32Value(0);
    } else if !ZeroSizedInside(b.fields) {
      FinalSize(b);
    }
  }
}
