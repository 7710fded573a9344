/** Reading and writing the fields of a struct: the layout's promises put to work on its memory. */
module StructAccess {
  import opened Wrappers
  import opened Bits
  import opened Bytes
  import L = StructLayout
  import opened Memory

  // ---------------------------------------------------------------- the members of a struct

  /** A number, or an inline array of `count` numbers; an array of one-byte numbers is a char array. */
  datatype CType = CType(k: Kind, count: nat, isArray: bool)

  predicate IsCType(c: CType) {
    IsKind(c.k) && c.count > 0 && (!c.isArray ==> c.count == 1)
  }

  function TypeOf(c: CType): L.FieldType {
    L.FieldType(Span(c.count, c.k.bytes), c.k.bytes)
  }

  datatype Member = Member(name: string, ctype: CType)

  function Specs(ms: seq<Member>): (specs: seq<L.FieldSpec>)
    ensures |specs| == |ms|
    ensures forall i :: 0 <= i < |ms| ==> specs[i] == L.FieldSpec(ms[i].name, TypeOf(ms[i].ctype), None)
  {
    if ms == [] then []
    else Specs(ms[..|ms| - 1]) + [L.FieldSpec(ms[|ms| - 1].name, TypeOf(ms[|ms| - 1].ctype), None)]
  }

  predicate Members(ms: seq<Member>) {
    forall i :: 0 <= i < |ms| ==> IsCType(ms[i].ctype)
  }

  /** What the layout promises about the fields of a struct with these members. */
  ghost predicate LaidOut(l: L.Layout, ms: seq<Member>) {
    && |l.fields| == |ms| && 0 <= l.size < TWO_31
    && (forall i :: 0 <= i < |ms| ==> l.fields[i].ty == TypeOf(ms[i].ctype))
    && (forall i, j :: 0 <= i < j < |ms| ==> L.End(l.fields[i]) <= l.fields[j].offset)
    && (forall i :: 0 <= i < |ms| ==> L.End(l.fields[i]) <= l.size)
  }

  /** Every layout built for such members keeps the promise, whatever the minimum alignment and for every
      packing that is true or positive. */
  lemma {:induction false} BuiltIsLaidOut(s: L.Settings, ms: seq<Member>)
    requires L.Positive(s) && !s.union && Members(ms)
    requires L.LayoutOf(s, Specs(ms)).Ok? && L.LayoutOf(s, Specs(ms)).value.size >= 0
    ensures LaidOut(L.LayoutOf(s, Specs(ms)).value, ms)
  {
    var specs := Specs(ms);
    var l := L.LayoutOf(s, specs).value;
    SpecsArePositive(ms);
    L.StructLayoutIsSound(s, specs);
    L.BuiltSizeFitsInt(s, specs);
    assert forall i :: 0 <= i < |ms| ==> l.fields[i].ty == specs[i].ty == TypeOf(ms[i].ctype);
  }

  lemma {:induction false} SpecsArePositive(ms: seq<Member>)
    requires Members(ms)
    ensures L.PositiveAlignments(Specs(ms)) && L.AllImplicit(Specs(ms))
  {
    forall i | 0 <= i < |ms| ensures Specs(ms)[i].ty.align > 0 {
      assert IsCType(ms[i].ctype);
    }
  }

  // ---------------------------------------------------------------- accesses

  /** A struct's memory: the storage it lives in and the window its layout's size selects. */
  ghost predicate Holds(m: Storage, v: View, l: L.Layout) {
    ValidView(m, v) && v.size == l.size && v.readable && v.writable
  }

  /** Where cell j of a member starts; the offset of an array element is computed in 32-bit arithmetic. */
  function CellOffset(f: L.Field, c: CType, j: int): Result<int, Error> {
    if !c.isArray then Ok(f.offset)
    else if !L.FitsInt(j) then Err(RangeError)
    else if j < 0 || (j >= c.count && c.count > 0) then Err(IndexError)
    else Ok(L.ToInt32(f.offset + j * c.k.bytes))
  }

  datatype Write = SetCell(i: nat, j: int, x: int) | SetString(i: nat, str: seq<Byte>)

  predicate Names(ms: seq<Member>, w: Write) {
    && w.i < |ms|
    && (w.SetString? ==> ms[w.i].ctype.isArray && ms[w.i].ctype.k.bytes == 1)
    && (w.SetCell? ==> ms[w.i].ctype.isArray || w.j == 0)
  }

  function Written(m: Storage, v: View, l: L.Layout, ms: seq<Member>, w: Write): Result<Storage, Error>
    requires ValidView(m, v) && Members(ms) && Names(ms, w) && |l.fields| == |ms|
  {
    var f, c := l.fields[w.i], ms[w.i].ctype;
    match w
    case SetString(_, str) => PutCharArray(m, v, f.offset, c.count, str)
    case SetCell(_, j, x) =>
      match CellOffset(f, c, j)
      case Err(e) => Err(e)
      case Ok(off) => Put(m, v, c.k, off, x)
  }

  function ReadCell(m: Storage, v: View, l: L.Layout, ms: seq<Member>, i: nat, j: int): Result<int, Error>
    requires ValidView(m, v) && Members(ms) && i < |ms| == |l.fields|
  {
    match CellOffset(l.fields[i], ms[i].ctype, j)
    case Err(e) => Err(e)
    case Ok(off) => Get(m, v, ms[i].ctype.k, off)
  }

  function ReadString(m: Storage, v: View, l: L.Layout, ms: seq<Member>, i: nat): Result<seq<Byte>, Error>
    requires ValidView(m, v) && i < |ms| == |l.fields|
  {
    GetString(m, v, l.fields[i].offset, ms[i].ctype.count)
  }

  // ---------------------------------------------------------------- every access is in bounds

  lemma {:induction false} SpanCell(j: nat, count: nat, size: nat)
    requires j < count
    ensures Span(j, size) + size <= Span(count, size)
    decreases count
  {
    if j < count - 1 {
      SpanCell(j, count - 1, size);
    }
  }

  /** A cell of a member lies inside that member, so inside the struct, and 32 bits suffice to find it. */
  lemma CellIsInside(l: L.Layout, ms: seq<Member>, i: nat, j: int)
    requires LaidOut(l, ms) && Members(ms) && i < |ms| && 0 <= j < ms[i].ctype.count
    ensures var off := l.fields[i].offset + Span(j, ms[i].ctype.k.bytes);
            && CellOffset(l.fields[i], ms[i].ctype, j) == Ok(off)
            && l.fields[i].offset <= off && off + ms[i].ctype.k.bytes <= L.End(l.fields[i]) <= l.size
  {
    var c := ms[i].ctype;
    assert IsCType(c) && l.fields[i].ty == TypeOf(c);
    SpanIsProduct(j, c.k.bytes);
    SpanCell(j, c.count, c.k.bytes);
    SpanAtLeast(c.count, c.k.bytes);
    L.ToInt32Value(l.fields[i].offset + Span(j, c.k.bytes));
  }

  lemma {:induction false} SpanAtLeast(count: nat, size: nat)
    requires size > 0
    ensures Span(count, size) >= count
    decreases count
  {
    if count > 0 {
      SpanAtLeast(count - 1, size);
    }
  }

  lemma CellInRange(m: Storage, v: View, l: L.Layout, ms: seq<Member>, i: nat, j: int)
    requires LaidOut(l, ms) && Members(ms) && Holds(m, v, l) && i < |ms| && 0 <= j < ms[i].ctype.count
    ensures var (off, b) := (l.fields[i].offset + Span(j, ms[i].ctype.k.bytes), ms[i].ctype.k.bytes);
            && CellOffset(l.fields[i], ms[i].ctype, j) == Ok(off)
            && InRange(v.size, off, b) && FitsLong(off)
            && l.fields[i].offset <= off && off + b <= L.End(l.fields[i])
  {
    CellIsInside(l, ms, i, j);
  }

  /** A write names an existing cell: an index inside the array, or a string that fits. */
  predicate Acceptable(ms: seq<Member>, w: Write)
    requires Names(ms, w)
  {
    match w
    case SetCell(i, j, x) => 0 <= j < ms[i].ctype.count && Convertible(ms[i].ctype.k, x)
    case SetString(i, str) => |str| <= ms[i].ctype.count
  }

  /** No field access of a struct ever leaves its memory: a write fails only for an index outside its array,
      a value that does not convert or a string that is too long, and a cell can always be read. */
  lemma AccessesStayInBounds(m: Storage, v: View, l: L.Layout, ms: seq<Member>, w: Write)
    requires LaidOut(l, ms) && Members(ms) && Holds(m, v, l) && Names(ms, w)
    ensures Written(m, v, l, ms, w).Ok? <==> Acceptable(ms, w)
    ensures w.SetCell? && 0 <= w.j < ms[w.i].ctype.count ==> ReadCell(m, v, l, ms, w.i, w.j).Ok?
  {
    var c := ms[w.i].ctype;
    assert IsCType(c) && l.fields[w.i].ty == TypeOf(c);
    match w
    case SetCell(i, j, x) =>
      if 0 <= j < c.count {
        CellInRange(m, v, l, ms, i, j);
      }
    case SetString(i, str) =>
      SpanAtLeast(c.count, 1);
      assert L.End(l.fields[i]) <= l.size;
      CharArrayTakes(m, v, l.fields[i].offset, c.count, str);
  }

  /** A cell of an inline array can be read exactly if its index is inside. */
  lemma CellsThatCanBeRead(m: Storage, v: View, l: L.Layout, ms: seq<Member>, i: nat, j: int)
    requires LaidOut(l, ms) && Members(ms) && Holds(m, v, l) && i < |ms| && ms[i].ctype.isArray && L.FitsInt(j)
    ensures ReadCell(m, v, l, ms, i, j).Ok? <==> 0 <= j < ms[i].ctype.count
    ensures ReadCell(m, v, l, ms, i, j).Err? ==> ReadCell(m, v, l, ms, i, j) == Err(IndexError)
  {
    assert IsCType(ms[i].ctype);
    if 0 <= j < ms[i].ctype.count {
      CellInRange(m, v, l, ms, i, j);
    }
  }

  /** A write changes no byte outside the member it names. */
  lemma WriteStaysInField(m: Storage, v: View, l: L.Layout, ms: seq<Member>, w: Write)
    requires LaidOut(l, ms) && Members(ms) && Holds(m, v, l) && Names(ms, w)
    requires Written(m, v, l, ms, w).Ok?
    ensures var (f, n) := (l.fields[w.i], Written(m, v, l, ms, w).value);
            SameOutside(m, n, v.address + f.offset, v.address + L.End(f))
  {
    AccessesStayInBounds(m, v, l, ms, w);
    match w
    case SetCell(i, j, x) => CellWriteStays(m, v, l, ms, i, j, x);
    case SetString(i, str) =>
      CharArrayEnds(l, ms, i);
      CharArrayRoundTrip(m, v, l.fields[i].offset, ms[i].ctype.count, str, Written(m, v, l, ms, w).value);
  }

  lemma CellWriteStays(m: Storage, v: View, l: L.Layout, ms: seq<Member>, i: nat, j: nat, x: int)
    requires LaidOut(l, ms) && Members(ms) && Holds(m, v, l) && i < |ms| && j < ms[i].ctype.count
    requires Names(ms, SetCell(i, j, x)) && Written(m, v, l, ms, SetCell(i, j, x)).Ok?
    ensures var (f, n) := (l.fields[i], Written(m, v, l, ms, SetCell(i, j, x)).value);
            SameOutside(m, n, v.address + f.offset, v.address + L.End(f))
  {
    var c, f, n := ms[i].ctype, l.fields[i], Written(m, v, l, ms, SetCell(i, j, x)).value;
    CellInRange(m, v, l, ms, i, j);
    var off := f.offset + Span(j, c.k.bytes);
    PutThenGet(m, v, c.k, off, x);
    WiderOutside(m, n, v.address + off, v.address + off + c.k.bytes, v.address + f.offset, v.address + L.End(f));
  }

  // ---------------------------------------------------------------- runs of writes

  /** A write that is refused raises and leaves the memory as it was. */
  function After(m: Storage, v: View, l: L.Layout, ms: seq<Member>, w: Write): Storage
    requires ValidView(m, v) && Members(ms) && Names(ms, w) && |l.fields| == |ms|
  {
    match Written(m, v, l, ms, w) case Ok(n) => n case Err(_) => m
  }

  predicate AllName(ms: seq<Member>, ws: seq<Write>) {
    forall i :: 0 <= i < |ws| ==> Names(ms, ws[i])
  }

  lemma AfterKeepsLength(m: Storage, v: View, l: L.Layout, ms: seq<Member>, w: Write)
    requires ValidView(m, v) && Members(ms) && Names(ms, w) && |l.fields| == |ms|
    ensures |After(m, v, l, ms, w)| == |m|
  {
  }

  function Run(m: Storage, v: View, l: L.Layout, ms: seq<Member>, ws: seq<Write>): (n: Storage)
    requires ValidView(m, v) && Members(ms) && AllName(ms, ws) && |l.fields| == |ms|
    ensures |n| == |m|
    decreases |ws|
  {
    if ws == [] then m
    else
      assert Names(ms, ws[0]);
      AfterKeepsLength(m, v, l, ms, ws[0]);
      Run(After(m, v, l, ms, ws[0]), v, l, ms, ws[1..])
  }

  /** A write that leaves cell j of member i alone: it is to another member or to another cell. */
  predicate Spares(w: Write, i: nat, j: int) {
    w.i != i || (w.SetCell? && w.j != j)
  }

  /** A write to another member keeps the bytes of this one. */
  lemma {:induction false} OtherFieldIsKept(m: Storage, v: View, l: L.Layout, ms: seq<Member>, w: Write,
                                            i: nat, p: int, q: int)
    requires LaidOut(l, ms) && Members(ms) && Holds(m, v, l) && Names(ms, w)
    requires Written(m, v, l, ms, w).Ok? && i < |ms| && w.i != i
    requires l.fields[i].offset <= p <= q <= L.End(l.fields[i]) <= l.size
    ensures |Written(m, v, l, ms, w).value| == |m|
    ensures Written(m, v, l, ms, w).value[v.address + p..v.address + q] == m[v.address + p..v.address + q]
  {
    var n, f := Written(m, v, l, ms, w).value, l.fields[w.i];
    WriteStaysInField(m, v, l, ms, w);
    FieldsApart(l, ms, w.i, i);
    OutsideIsKept(m, n, v.address + f.offset, v.address + L.End(f), v.address + p, v.address + q);
  }

  lemma SameBytesRead(m: Storage, n: Storage, v: View, k: Kind, off: int)
    requires ValidView(m, v) && IsKind(k) && |n| == |m| && InRange(v.size, off, k.bytes)
    requires n[v.address + off..v.address + off + k.bytes] == m[v.address + off..v.address + off + k.bytes]
    ensures Get(n, v, k, off) == Get(m, v, k, off)
  {
  }

  lemma {:induction false} OtherFieldCellIsKept(m: Storage, v: View, l: L.Layout, ms: seq<Member>, w: Write,
                                                i: nat, j: nat)
    requires LaidOut(l, ms) && Members(ms) && Holds(m, v, l) && Names(ms, w)
    requires Written(m, v, l, ms, w).Ok? && i < |ms| && j < ms[i].ctype.count && w.i != i
    ensures |Written(m, v, l, ms, w).value| == |m|
    ensures ReadCell(Written(m, v, l, ms, w).value, v, l, ms, i, j) == ReadCell(m, v, l, ms, i, j)
  {
    var k := ms[i].ctype.k;
    var off := l.fields[i].offset + Span(j, k.bytes);
    CellIsInside(l, ms, i, j);
    OtherFieldIsKept(m, v, l, ms, w, i, off, off + k.bytes);
    SameBytesRead(m, Written(m, v, l, ms, w).value, v, k, off);
  }

  /** Such a write does not change what the cell holds. */
  lemma {:induction false} SparedCellIsKept(m: Storage, v: View, l: L.Layout, ms: seq<Member>, w: Write, i: nat, j: int)
    requires LaidOut(l, ms) && Members(ms) && Holds(m, v, l) && Names(ms, w)
    requires i < |ms| && 0 <= j < ms[i].ctype.count && Spares(w, i, j)
    ensures |After(m, v, l, ms, w)| == |m|
    ensures ReadCell(After(m, v, l, ms, w), v, l, ms, i, j) == ReadCell(m, v, l, ms, i, j)
  {
    if Written(m, v, l, ms, w).Ok? {
      if w.i != i {
        OtherFieldCellIsKept(m, v, l, ms, w, i, j);
      } else {
        OtherCellIsKept(m, v, l, ms, i, j, w.j, w.x);
      }
    }
  }

  lemma {:induction false} OtherCellIsKept(m: Storage, v: View, l: L.Layout, ms: seq<Member>,
                                           i: nat, j: int, a: int, x: int)
    requires LaidOut(l, ms) && Members(ms) && Holds(m, v, l) && Names(ms, SetCell(i, a, x))
    requires 0 <= j < ms[i].ctype.count && a != j
    requires Written(m, v, l, ms, SetCell(i, a, x)).Ok?
    ensures ReadCell(Written(m, v, l, ms, SetCell(i, a, x)).value, v, l, ms, i, j) == ReadCell(m, v, l, ms, i, j)
  {
    var k, start := ms[i].ctype.k, l.fields[i].offset;
    assert 0 <= a < ms[i].ctype.count by {
      AccessesStayInBounds(m, v, l, ms, SetCell(i, a, x));
    }
    var p, q := start + Span(a, k.bytes), start + Span(j, k.bytes);
    assert CellOffset(l.fields[i], ms[i].ctype, a) == Ok(p) by {
      CellIsInside(l, ms, i, a);
    }
    assert CellOffset(l.fields[i], ms[i].ctype, j) == Ok(q) by {
      CellIsInside(l, ms, i, j);
    }
    assert Disjoint(p, k.bytes, q, k.bytes) by {
      CellsApart(j, a, k.bytes);
    }
    ApartCellIsKept(m, v, l, ms, i, j, a, x, p, q);
  }

  lemma ApartCellIsKept(m: Storage, v: View, l: L.Layout, ms: seq<Member>,
                        i: nat, j: int, a: int, x: int, p: int, q: int)
    requires ValidView(m, v) && Members(ms) && |l.fields| == |ms| && Names(ms, SetCell(i, a, x))
    requires CellOffset(l.fields[i], ms[i].ctype, a) == Ok(p) && CellOffset(l.fields[i], ms[i].ctype, j) == Ok(q)
    requires Disjoint(p, ms[i].ctype.k.bytes, q, ms[i].ctype.k.bytes)
    requires Written(m, v, l, ms, SetCell(i, a, x)).Ok?
    ensures |Written(m, v, l, ms, SetCell(i, a, x)).value| == |m|
    ensures ReadCell(Written(m, v, l, ms, SetCell(i, a, x)).value, v, l, ms, i, j) == ReadCell(m, v, l, ms, i, j)
  {
    var k := ms[i].ctype.k;
    assert IsCType(ms[i].ctype);
    assert Written(m, v, l, ms, SetCell(i, a, x)) == Put(m, v, k, p, x);
    PutElsewhere(m, v, k, p, x, v, k, q);
  }

  lemma CellsApart(j: nat, a: nat, size: nat)
    requires j != a
    ensures Disjoint(Span(a, size), size, Span(j, size), size)
  {
    if j < a {
      SpanCell(j, a, size);
    } else {
      SpanCell(a, j, size);
    }
  }

  lemma FieldsApart(l: L.Layout, ms: seq<Member>, a: nat, b: nat)
    requires LaidOut(l, ms) && a < |ms| && b < |ms| && a != b
    ensures L.End(l.fields[a]) <= l.fields[b].offset || L.End(l.fields[b]) <= l.fields[a].offset
  {
  }

  lemma {:induction false} RunSplits(m: Storage, v: View, l: L.Layout, ms: seq<Member>, ws: seq<Write>, us: seq<Write>)
    requires ValidView(m, v) && Members(ms) && AllName(ms, ws) && AllName(ms, us) && |l.fields| == |ms|
    ensures AllName(ms, ws + us)
    ensures Run(m, v, l, ms, ws + us) == Run(Run(m, v, l, ms, ws), v, l, ms, us)
    decreases |ws|
  {
    if ws == [] {
      assert ws + us == us;
    } else {
      assert Names(ms, ws[0]);
      AfterKeepsLength(m, v, l, ms, ws[0]);
      assert (ws + us)[1..] == ws[1..] + us;
      RunSplits(After(m, v, l, ms, ws[0]), v, l, ms, ws[1..], us);
    }
  }

  /** The value a write puts in cell j of member i; None when it leaves the cell alone, because it names
      another one, is refused, or is a string that ends before. */
  function Puts(ms: seq<Member>, w: Write, i: nat, j: nat): Option<int>
    requires Names(ms, w) && i < |ms|
  {
    if w.i != i || !Acceptable(ms, w) then None
    else
      var c := ms[i].ctype;
      match w
      case SetCell(_, a, x) => if a == j then Some(Reduce(c.k, x)) else None
      case SetString(_, str) =>
        if j < |CharBytes(c.count, str)| then Some(Reduce(c.k, CharBytes(c.count, str)[j])) else None
  }

  /** The value the last write to the cell has put there, the initial one if there was none. */
  function LastPut(ms: seq<Member>, ws: seq<Write>, i: nat, j: nat, initial: int): int
    requires AllName(ms, ws) && i < |ms|
  {
    if ws == [] then initial
    else
      var last := Puts(ms, ws[|ws| - 1], i, j);
      if last.Some? then last.value else LastPut(ms, ws[..|ws| - 1], i, j, initial)
  }

  lemma {:induction false} LastPutIsLast(ms: seq<Member>, before: seq<Write>, w: Write, after: seq<Write>,
                                         i: nat, j: nat, initial: int)
    requires AllName(ms, before) && Names(ms, w) && AllName(ms, after) && i < |ms|
    requires Puts(ms, w, i, j).Some?
    requires forall a :: 0 <= a < |after| ==> Puts(ms, after[a], i, j).None?
    ensures AllName(ms, before + [w] + after)
    ensures LastPut(ms, before + [w] + after, i, j, initial) == Puts(ms, w, i, j).value
    decreases |after|
  {
    var ws := before + [w] + after;
    if after == [] {
      assert ws == before + [w];
    } else {
      var n := |after| - 1;
      assert ws[..|ws| - 1] == before + [w] + after[..n] && ws[|ws| - 1] == after[n];
      LastPutIsLast(ms, before, w, after[..n], i, j, initial);
    }
  }

  /** One write: the cell holds what the write puts there, or what it held before. */
  lemma {:induction false} CellAfterWrite(m: Storage, v: View, l: L.Layout, ms: seq<Member>, w: Write, i: nat, j: nat)
    requires LaidOut(l, ms) && Members(ms) && Holds(m, v, l) && Names(ms, w)
    requires i < |ms| && j < ms[i].ctype.count
    ensures |After(m, v, l, ms, w)| == |m|
    ensures ReadCell(After(m, v, l, ms, w), v, l, ms, i, j)
         == if Puts(ms, w, i, j).Some? then Ok(Puts(ms, w, i, j).value) else ReadCell(m, v, l, ms, i, j)
  {
    AccessesStayInBounds(m, v, l, ms, w);
    if Acceptable(ms, w) && !Spares(w, i, j) {
      CellInRange(m, v, l, ms, i, j);
      if w.SetCell? {
        var c := ms[i].ctype;
        PutThenGet(m, v, c.k, l.fields[i].offset + Span(j, c.k.bytes), w.x);
      } else {
        CellAfterString(m, v, l, ms, i, w.str, j);
      }
    } else if Spares(w, i, j) {
      SparedCellIsKept(m, v, l, ms, w, i, j);
    }
  }

  /** The byte a cell of a char array is. */
  lemma ByteCell(m: Storage, v: View, l: L.Layout, ms: seq<Member>, i: nat, j: nat)
    requires LaidOut(l, ms) && Members(ms) && Holds(m, v, l)
    requires i < |ms| && ms[i].ctype.k.bytes == 1 && j < ms[i].ctype.count
    ensures var at := v.address + l.fields[i].offset;
            && 0 <= at && at + ms[i].ctype.count <= |m|
            && ReadCell(m, v, l, ms, i, j) == Ok(Reduce(ms[i].ctype.k, m[at + j]))
  {
    var at := v.address + l.fields[i].offset;
    CharArrayEnds(l, ms, i);
    CellInRange(m, v, l, ms, i, j);
    SpanIsProduct(j, 1);
    var b := m[at + j];
    assert m[at + j..at + j + 1] == [b] && Reverse([b]) == [b] && Decode([b]) == b;
  }

  lemma CellAfterString(m: Storage, v: View, l: L.Layout, ms: seq<Member>, i: nat, str: seq<Byte>, j: nat)
    requires LaidOut(l, ms) && Members(ms) && Holds(m, v, l) && Names(ms, SetString(i, str))
    requires j < ms[i].ctype.count && |str| <= ms[i].ctype.count
    ensures |After(m, v, l, ms, SetString(i, str))| == |m|
    ensures ReadCell(After(m, v, l, ms, SetString(i, str)), v, l, ms, i, j)
         == if Puts(ms, SetString(i, str), i, j).Some? then Ok(Puts(ms, SetString(i, str), i, j).value)
            else ReadCell(m, v, l, ms, i, j)
  {
    var n, at := After(m, v, l, ms, SetString(i, str)), v.address + l.fields[i].offset;
    var bs := CharBytes(ms[i].ctype.count, str);
    CharArrayEnds(l, ms, i);
    AccessesStayInBounds(m, v, l, ms, SetString(i, str));
    assert n == Patch(m, at, bs);
    ByteCell(m, v, l, ms, i, j);
    ByteCell(n, v, l, ms, i, j);
    assert n[at + j] == if j < |bs| then bs[j] else m[at + j];
  }

  lemma {:induction false} RunOneMore(m: Storage, v: View, l: L.Layout, ms: seq<Member>, ws: seq<Write>)
    requires ValidView(m, v) && Members(ms) && AllName(ms, ws) && |l.fields| == |ms| && ws != []
    ensures AllName(ms, ws[..|ws| - 1]) && Names(ms, ws[|ws| - 1])
    ensures Run(m, v, l, ms, ws) == After(Run(m, v, l, ms, ws[..|ws| - 1]), v, l, ms, ws[|ws| - 1])
  {
    var front, w := ws[..|ws| - 1], ws[|ws| - 1];
    assert ws == front + [w] && [w][1..] == [];
    RunSplits(m, v, l, ms, front, [w]);
    AfterKeepsLength(Run(m, v, l, ms, front), v, l, ms, w);
  }

  /** Over any run of writes, to cells or of strings, accepted or refused, every cell reads the value last
      put there, and what it held at the start if none was. */
  lemma {:induction false} LastWriteIsRead(m: Storage, v: View, l: L.Layout, ms: seq<Member>,
                                           ws: seq<Write>, i: nat, j: nat)
    requires LaidOut(l, ms) && Members(ms) && Holds(m, v, l) && AllName(ms, ws)
    requires i < |ms| && j < ms[i].ctype.count
    ensures ReadCell(m, v, l, ms, i, j).Ok?
    ensures ReadCell(Run(m, v, l, ms, ws), v, l, ms, i, j)
         == Ok(LastPut(ms, ws, i, j, ReadCell(m, v, l, ms, i, j).value))
    decreases |ws|
  {
    CellInRange(m, v, l, ms, i, j);
    if ws != [] {
      var front := ws[..|ws| - 1];
      RunOneMore(m, v, l, ms, ws);
      LastWriteIsRead(m, v, l, ms, front, i, j);
      CellAfterWrite(Run(m, v, l, ms, front), v, l, ms, ws[|ws| - 1], i, j);
    }
  }

  /** A char array reads as the string its cells spell. */
  lemma StringIsItsCells(m: Storage, v: View, l: L.Layout, ms: seq<Member>, i: nat, bs: seq<Byte>)
    requires LaidOut(l, ms) && Members(ms) && Holds(m, v, l)
    requires i < |ms| && ms[i].ctype.k.bytes == 1 && |bs| == ms[i].ctype.count
    requires forall j :: 0 <= j < |bs| ==> ReadCell(m, v, l, ms, i, j) == Ok(Reduce(ms[i].ctype.k, bs[j]))
    ensures ReadString(m, v, l, ms, i) == Ok(CutAtNul(bs))
  {
    var at := v.address + l.fields[i].offset;
    CharArrayEnds(l, ms, i);
    forall j | 0 <= j < |bs| ensures m[at + j] == bs[j] {
      ByteCell(m, v, l, ms, i, j);
      ReduceByte(ms[i].ctype.k, m[at + j], bs[j]);
    }
    assert m[at..at + |bs|] == bs;
  }

  lemma ReduceByte(k: Kind, a: Byte, b: Byte)
    requires k.bytes == 1 && Reduce(k, a) == Reduce(k, b)
    ensures a == b
  {
    assert Pow2(8) == 256;
  }

  /** So over any run of writes a char array reads the string that the values last put in its cells spell. */
  lemma {:induction false} StringOfLastWrites(m: Storage, v: View, l: L.Layout, ms: seq<Member>,
                                              ws: seq<Write>, i: nat, bs: seq<Byte>)
    requires LaidOut(l, ms) && Members(ms) && Holds(m, v, l) && AllName(ms, ws)
    requires i < |ms| && ms[i].ctype.k.bytes == 1 && |bs| == ms[i].ctype.count
    requires forall j :: 0 <= j < |bs| ==>
               ReadCell(m, v, l, ms, i, j).Ok?
               && Reduce(ms[i].ctype.k, bs[j]) == LastPut(ms, ws, i, j, ReadCell(m, v, l, ms, i, j).value)
    ensures ReadString(Run(m, v, l, ms, ws), v, l, ms, i) == Ok(CutAtNul(bs))
  {
    forall j | 0 <= j < |bs|
      ensures ReadCell(Run(m, v, l, ms, ws), v, l, ms, i, j) == Ok(Reduce(ms[i].ctype.k, bs[j]))
    {
      LastWriteIsRead(m, v, l, ms, ws, i, j);
    }
    StringIsItsCells(Run(m, v, l, ms, ws), v, l, ms, i, bs);
  }

  lemma {:induction false} SparedStringIsKept(m: Storage, v: View, l: L.Layout, ms: seq<Member>, w: Write, i: nat)
    requires LaidOut(l, ms) && Members(ms) && Holds(m, v, l) && Names(ms, w) && i < |ms|
    requires ms[i].ctype.k.bytes == 1 && (w.i != i || !Acceptable(ms, w))
    ensures |After(m, v, l, ms, w)| == |m|
    ensures ReadString(After(m, v, l, ms, w), v, l, ms, i) == ReadString(m, v, l, ms, i)
  {
    AccessesStayInBounds(m, v, l, ms, w);
    if Written(m, v, l, ms, w).Ok? {
      CharArrayEnds(l, ms, i);
      OtherFieldIsKept(m, v, l, ms, w, i, l.fields[i].offset, L.End(l.fields[i]));
      SameString(m, Written(m, v, l, ms, w).value, v, l.fields[i].offset, ms[i].ctype.count);
    }
  }

  lemma SameString(m: Storage, n: Storage, v: View, off: int, len: nat)
    requires ValidView(m, v) && |n| == |m| && InRange(v.size, off, len)
    requires n[v.address + off..v.address + off + len] == m[v.address + off..v.address + off + len]
    ensures GetString(n, v, off, len) == GetString(m, v, off, len)
  {
  }

  lemma {:induction false} RunSparesString(m: Storage, v: View, l: L.Layout, ms: seq<Member>, ws: seq<Write>, i: nat)
    requires LaidOut(l, ms) && Members(ms) && Holds(m, v, l) && AllName(ms, ws) && i < |ms|
    requires ms[i].ctype.k.bytes == 1
    requires forall a :: 0 <= a < |ws| ==> ws[a].i != i || !Acceptable(ms, ws[a])
    ensures ReadString(Run(m, v, l, ms, ws), v, l, ms, i) == ReadString(m, v, l, ms, i)
    decreases |ws|
  {
    if ws != [] {
      assert Names(ms, ws[0]) && (ws[0].i != i || !Acceptable(ms, ws[0]));
      SparedStringIsKept(m, v, l, ms, ws[0], i);
      RunSparesString(After(m, v, l, ms, ws[0]), v, l, ms, ws[1..], i);
    }
  }

  lemma CharArrayEnds(l: L.Layout, ms: seq<Member>, i: nat)
    requires LaidOut(l, ms) && i < |ms| && ms[i].ctype.k.bytes == 1
    ensures L.End(l.fields[i]) == l.fields[i].offset + ms[i].ctype.count <= l.size
  {
    SpanIsProduct(ms[i].ctype.count, 1);
  }

  /** A string last written to a char array is read back cut at its first NUL, whatever comes before, and
      whatever is written to other members or refused after. */
  lemma {:induction false} LastStringIsRead(m: Storage, v: View, l: L.Layout, ms: seq<Member>,
                                            before: seq<Write>, i: nat, str: seq<Byte>, after: seq<Write>)
    requires LaidOut(l, ms) && Members(ms) && Holds(m, v, l)
    requires AllName(ms, before) && AllName(ms, after)
    requires Names(ms, SetString(i, str)) && Acceptable(ms, SetString(i, str))
    requires forall a :: 0 <= a < |after| ==> after[a].i != i || !Acceptable(ms, after[a])
    ensures AllName(ms, before + [SetString(i, str)] + after)
    ensures ReadString(Run(m, v, l, ms, before + [SetString(i, str)] + after), v, l, ms, i) == Ok(CutAtNul(str))
  {
    var w := SetString(i, str);
    var p := Run(m, v, l, ms, before);
    RunSplits(m, v, l, ms, before, [w]);
    RunSplits(m, v, l, ms, before + [w], after);
    AccessesStayInBounds(p, v, l, ms, w);
    var n := Written(p, v, l, ms, w).value;
    assert Run(p, v, l, ms, [w]) == n by {
      assert [w][1..] == [];
    }
    CharArrayEnds(l, ms, i);
    CharArrayRoundTrip(p, v, l.fields[i].offset, ms[i].ctype.count, str, n);
    RunSparesString(n, v, l, ms, after, i);
  }

  /** From the class definition to the access: every cell of a struct laid out by the builder, plain, with
      any minimum alignment or any positive packing, reads what was last put there, over any run of writes. */
  lemma {:induction false} BuiltStructRemembers(s: L.Settings, ms: seq<Member>, m: Storage, v: View,
                                                ws: seq<Write>, i: nat, j: nat)
    requires L.Positive(s) && !s.union && Members(ms)
    requires L.LayoutOf(s, Specs(ms)).Ok? && Holds(m, v, L.LayoutOf(s, Specs(ms)).value)
    requires AllName(ms, ws) && i < |ms| && j < ms[i].ctype.count
    ensures var l := L.LayoutOf(s, Specs(ms)).value;
            && |l.fields| == |ms| && ReadCell(m, v, l, ms, i, j).Ok?
            && ReadCell(Run(m, v, l, ms, ws), v, l, ms, i, j)
            == Ok(LastPut(ms, ws, i, j, ReadCell(m, v, l, ms, i, j).value))
  {
    BuiltIsLaidOut(s, ms);
    LastWriteIsRead(m, v, L.LayoutOf(s, Specs(ms)).value, ms, ws, i, j);
  }
}
