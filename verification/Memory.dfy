/** Bounds-checked memory: single values, arrays, strings, and views that share storage. */
module Memory {
  import opened Wrappers
  import opened Bits
  import opened Bytes

  // ---------------------------------------------------------------- checkBounds

  /** 64-bit two's-complement wrap-around. */
  function Wrap64(x: int): int {
    (x + TWO_63) % TWO_64 - TWO_63
  }

  predicate FitsLong(x: int) {
    -TWO_63 <= x < TWO_63
  }

  /** The single sign test of checkBounds. */
  predicate BoundsTest(size: int, off: int, len: int) {
    Or(Or(Or(off, len), Wrap64(off + len)), Wrap64(size - Wrap64(off + len))) >= 0
  }

  /** What the test is for, over unbounded integers. */
  predicate InRange(size: int, off: int, len: int) {
    0 <= off && 0 <= len && off + len <= size
  }

  lemma Wrap64Value(x: int)
    requires -TWO_64 <= x < TWO_64
    ensures Wrap64(x) == if x < -TWO_63 then x + TWO_64 else if x < TWO_63 then x else x - TWO_64
  {
  }

  lemma BoundsTestSigns(size: int, off: int, len: int)
    ensures BoundsTest(size, off, len)
       <==> off >= 0 && len >= 0 && Wrap64(off + len) >= 0 && Wrap64(size - Wrap64(off + len)) >= 0
  {
    OrSign(off, len);
    OrSign(Or(off, len), Wrap64(off + len));
    OrSign(Or(Or(off, len), Wrap64(off + len)), Wrap64(size - Wrap64(off + len)));
  }

  /** With wrapping sums, the test passes exactly for the accesses that lie inside the memory. */
  lemma BoundsTestIsExact(size: int, off: int, len: int)
    requires FitsLong(size) && FitsLong(off) && FitsLong(len) && size >= -1
    ensures BoundsTest(size, off, len) <==> InRange(size, off, len)
  {
    BoundsTestSigns(size, off, len);
    Wrap64Value(off + len);
    Wrap64Value(size - Wrap64(off + len));
  }

  /** Of a memory with a negative size it lets through the accesses whose end is so far out that the
      subtraction wraps. */
  lemma BoundsTestOfNegativeSize(size: int, off: int, len: int)
    requires FitsLong(size) && FitsLong(off) && FitsLong(len) && size < 0
    ensures BoundsTest(size, off, len)
       <==> 0 <= off && 0 <= len && size + TWO_63 < off + len < TWO_63
  {
    BoundsTestSigns(size, off, len);
    Wrap64Value(off + len);
    Wrap64Value(size - Wrap64(off + len));
  }

  /** So a one-byte access at 2**63 - 2 passes for every size of -2 or less. */
  lemma NegativeSizeLetsAByteThrough(size: int)
    requires FitsLong(size) && size <= -2
    ensures BoundsTest(size, TWO_63 - 2, 1) && !InRange(size, TWO_63 - 2, 1)
  {
    BoundsTestOfNegativeSize(size, TWO_63 - 2, 1);
  }

  /** The test is exact for every offset and length precisely when the memory's size is not below -1. */
  lemma BoundsTestIsExactUnlessSizeIsNegative(size: int)
    requires FitsLong(size)
    ensures (forall off, len :: FitsLong(off) && FitsLong(len) ==>
               (BoundsTest(size, off, len) <==> InRange(size, off, len)))
       <==> size >= -1
  {
    if size >= -1 {
      forall off, len | FitsLong(off) && FitsLong(len)
        ensures BoundsTest(size, off, len) <==> InRange(size, off, len)
      {
        BoundsTestIsExact(size, off, len);
      }
    } else {
      NegativeSizeLetsAByteThrough(size);
    }
  }

  // ---------------------------------------------------------------- views and single accesses

  datatype Error = RangeError | AccessError | IndexError | ArgumentError

  type Storage = seq<Byte>

  /** An AbstractMemory: a window on some storage. */
  datatype View = View(address: int, size: int, readable: bool, writable: bool, swapped: bool)

  predicate ValidView(m: Storage, v: View) {
    0 <= v.address && 0 <= v.size < TWO_63 && v.address + v.size <= |m|
  }

  function Patch(m: Storage, at: int, bs: seq<Byte>): (r: Storage)
    requires 0 <= at && at + |bs| <= |m|
    ensures |r| == |m|
  {
    m[..at] + bs + m[at + |bs|..]
  }

  predicate SameAt(m: Storage, n: Storage, i: int)
    requires 0 <= i < |m| == |n|
  {
    n[i] == m[i]
  }

  /** n differs from m at most in the bytes from lo up to hi. */
  predicate SameOutside(m: Storage, n: Storage, lo: int, hi: int) {
    |n| == |m| && forall i :: 0 <= i < |m| && (i < lo || hi <= i) ==> SameAt(m, n, i)
  }

  lemma PatchIs(m: Storage, at: int, bs: seq<Byte>)
    requires 0 <= at && at + |bs| <= |m|
    ensures SameOutside(m, Patch(m, at, bs), at, at + |bs|)
    ensures Patch(m, at, bs)[at..at + |bs|] == bs
  {
  }

  lemma OutsideIsKept(m: Storage, n: Storage, lo: int, hi: int, p: int, q: int)
    requires SameOutside(m, n, lo, hi)
    requires 0 <= p <= q <= |m| && (q <= lo || hi <= p)
    ensures n[p..q] == m[p..q]
  {
    forall i | p <= i < q ensures n[i] == m[i] {
      assert SameAt(m, n, i);
    }
  }

  lemma WiderOutside(m: Storage, n: Storage, lo: int, hi: int, a: int, b: int)
    requires a <= lo && hi <= b && SameOutside(m, n, lo, hi)
    ensures SameOutside(m, n, a, b)
  {
  }

  lemma SameOutsideTwice(m: Storage, n: Storage, p: Storage, lo: int, hi: int)
    requires SameOutside(m, n, lo, hi) && SameOutside(n, p, lo, hi)
    ensures SameOutside(m, p, lo, hi)
  {
    forall i | 0 <= i < |m| && (i < lo || hi <= i) ensures SameAt(m, p, i) {
      assert SameAt(m, n, i) && SameAt(n, p, i);
    }
  }

  /** NUM2INT, NUM2UINT, NUM2LL and NUM2ULL refuse what does not fit; narrower types are then cut down. */
  predicate Convertible(k: Kind, x: int) {
    if k.bytes == 8 then -TWO_63 <= x < if k.signed then TWO_63 else TWO_64
    else -TWO_31 <= x < if k.signed then TWO_31 else TWO_32
  }

  /** The bytes an access of kind k puts in memory for x: a swapped view holds them the other way round. */
  function Stored(k: Kind, x: int, swapped: bool): (bs: seq<Byte>)
    ensures |bs| == k.bytes
  {
    if swapped then Reverse(Encode(x, k.bytes)) else Encode(x, k.bytes)
  }

  /** The value an access of kind k makes of the bytes it finds. */
  function Loaded(k: Kind, bs: seq<Byte>, swapped: bool): int {
    Reduce(k, Decode(if swapped then Reverse(bs) else bs))
  }

  function Put(m: Storage, v: View, k: Kind, off: int, x: int): Result<Storage, Error>
    requires ValidView(m, v) && IsKind(k)
  {
    if !FitsLong(off) || !Convertible(k, x) then Err(RangeError)
    else if !v.writable then Err(AccessError)
    else if !InRange(v.size, off, k.bytes) then Err(IndexError)
    else Ok(Patch(m, v.address + off, Stored(k, x, v.swapped)))
  }

  function Get(m: Storage, v: View, k: Kind, off: int): Result<int, Error>
    requires ValidView(m, v) && IsKind(k)
  {
    if !FitsLong(off) then Err(RangeError)
    else if !v.readable then Err(AccessError)
    else if !InRange(v.size, off, k.bytes) then Err(IndexError)
    else Ok(Loaded(k, m[v.address + off..v.address + off + k.bytes], v.swapped))
  }

  /** What is stored loads back as the value cut to its width, in native order and in swapped order. */
  lemma LoadStored(k: Kind, x: int, swapped: bool)
    ensures Loaded(k, Stored(k, x, swapped), swapped) == Reduce(k, x)
  {
    ReverseTwice(Encode(x, k.bytes));
    ReadBack(k, x);
  }

  /** The shifts and masks of a swapping access put the bytes of the value in reverse order. */
  lemma SwapStores(k: Kind, x: int)
    requires IsKind(k)
    ensures Encode(Swapped(k, Reduce(k, x)), k.bytes) == Stored(k, x, true)
  {
    SwapReverses(k, Reduce(k, x));
    ReduceIsCongruent(k, x);
  }

  /** And they load the value of the reversed bytes. */
  lemma SwapLoads(k: Kind, bs: seq<Byte>)
    requires IsKind(k) && |bs| == k.bytes
    ensures Swapped(k, Reduce(k, Decode(bs))) == Loaded(k, bs, true)
  {
    var raw := Reduce(k, Decode(bs));
    EncodeDecode(bs);
    ReduceIsCongruent(k, Decode(bs));
    SwapReverses(k, raw);
    SwappedIsReduced(k, Decode(bs));
    EncodeDecode(Reverse(bs));
    EncodeCongruent(Swapped(k, raw), Decode(Reverse(bs)), k.bytes);
    ReduceByResidue(k, Swapped(k, raw), Decode(Reverse(bs)));
  }

  /** A swapped value is one its type can hold. */
  lemma SwappedIsReduced(k: Kind, x: int)
    requires IsKind(k)
    ensures Reduce(k, Swapped(k, Reduce(k, x))) == Swapped(k, Reduce(k, x))
  {
    ReduceTwice(k, x);
    ReduceTwice(k, Swap16(Reduce(k, x)));
    ReduceTwice(k, Swap32(Reduce(k, x)));
    ReduceTwice(k, Swap64(Reduce(k, x)));
  }

  // ---------------------------------------------------------------- what a put changes

  /** A put changes the bytes it names and no others; what it wrote reads back, cut to its width. */
  lemma PutThenGet(m: Storage, v: View, k: Kind, off: int, x: int)
    requires ValidView(m, v) && IsKind(k) && Put(m, v, k, off, x).Ok?
    ensures var n := Put(m, v, k, off, x).value;
            && InRange(v.size, off, k.bytes)
            && SameOutside(m, n, v.address + off, v.address + off + k.bytes)
            && (v.readable ==> Get(n, v, k, off) == Ok(Reduce(k, x)))
  {
    LoadStored(k, x, v.swapped);
    PatchIs(m, v.address + off, Stored(k, x, v.swapped));
  }

  // ---------------------------------------------------------------- which accesses succeed

  /** The limits of the four conversions: of 64-bit kinds by NUM2LL and NUM2ULL, of all narrower ones by
      NUM2INT and NUM2UINT. */
  lemma ConvertibleLimits(k: Kind, x: int)
    requires IsKind(k)
    ensures k.bytes == 8 && k.signed ==>
              (Convertible(k, x) <==> -0x8000_0000_0000_0000 <= x <= 0x7fff_ffff_ffff_ffff)
    ensures k.bytes == 8 && !k.signed ==>
              (Convertible(k, x) <==> -0x8000_0000_0000_0000 <= x <= 0xffff_ffff_ffff_ffff)
    ensures k.bytes < 8 && k.signed ==> (Convertible(k, x) <==> -0x8000_0000 <= x <= 0x7fff_ffff)
    ensures k.bytes < 8 && !k.signed ==> (Convertible(k, x) <==> -0x8000_0000 <= x <= 0xffff_ffff)
  {
  }

  /** A put succeeds exactly for a value within those limits, on writable memory, inside of it; and of a
      value within the limits the refusal says which of the other two is missing. */
  lemma PutSucceedsExactly(m: Storage, v: View, k: Kind, off: int, x: int)
    requires ValidView(m, v) && IsKind(k)
    ensures Put(m, v, k, off, x).Ok?
       <==> Convertible(k, x) && v.writable && 0 <= off && off + k.bytes <= v.size
    ensures FitsLong(off) && Convertible(k, x) && Put(m, v, k, off, x).Err? ==>
              Put(m, v, k, off, x).error == if v.writable then IndexError else AccessError
  {
  }

  /** And a get on readable memory, inside of it. */
  lemma GetSucceedsExactly(m: Storage, v: View, k: Kind, off: int)
    requires ValidView(m, v) && IsKind(k)
    ensures Get(m, v, k, off).Ok? <==> v.readable && 0 <= off && off + k.bytes <= v.size
    ensures FitsLong(off) && Get(m, v, k, off).Err? ==>
              Get(m, v, k, off).error == if v.readable then IndexError else AccessError
  {
  }

  /** The values a kind can hold: those the cast leaves as they are. */
  lemma HeldExactly(k: Kind, x: int)
    requires IsKind(k)
    ensures Reduce(k, x) == x
       <==> if k.signed then 0 - Pow2(8 * k.bytes) <= 2 * x < Pow2(8 * k.bytes) else 0 <= x < Pow2(8 * k.bytes)
  {
    var m := Modulus(k);
    if -m <= x < 0 {
      ModUnique(x, m, -1, x + m);
    } else if 0 <= x < m {
      ModUnique(x, m, 0, x);
    }
  }

  /** Every one of them converts. */
  lemma HeldIsConvertible(k: Kind, x: int)
    requires IsKind(k) && Reduce(k, x) == x
    ensures Convertible(k, x)
  {
    HeldExactly(k, x);
    WordSizes();
    if k.bytes < 8 {
      Pow2Monotone(8 * k.bytes, 32);
      Pow2Half(32);
    }
  }

  /** So every value a kind can hold can be put wherever there is room, and comes back unchanged. */
  lemma HeldRoundTrip(m: Storage, v: View, k: Kind, off: int, x: int)
    requires ValidView(m, v) && IsKind(k) && v.writable && v.readable
    requires 0 <= off && off + k.bytes <= v.size && Reduce(k, x) == x
    ensures Put(m, v, k, off, x).Ok?
    ensures |Put(m, v, k, off, x).value| == |m| && Get(Put(m, v, k, off, x).value, v, k, off) == Ok(x)
  {
    HeldIsConvertible(k, x);
    PutThenGet(m, v, k, off, x);
  }

  predicate Disjoint(a: int, n: int, b: int, l: int) {
    a + n <= b || b + l <= a
  }

  /** An access elsewhere, through any view of the same storage, does not see the put. */
  lemma PutElsewhere(m: Storage, v: View, k: Kind, off: int, x: int, w: View, l: Kind, at: int)
    requires ValidView(m, v) && IsKind(k) && Put(m, v, k, off, x).Ok?
    requires ValidView(m, w) && IsKind(l)
    requires Disjoint(v.address + off, k.bytes, w.address + at, l.bytes)
    ensures Get(Put(m, v, k, off, x).value, w, l, at) == Get(m, w, l, at)
  {
    PutThenGet(m, v, k, off, x);
    if InRange(w.size, at, l.bytes) {
      var lo, p := v.address + off, w.address + at;
      OutsideIsKept(m, Put(m, v, k, off, x).value, lo, lo + k.bytes, p, p + l.bytes);
    }
  }

  // ---------------------------------------------------------------- arrays

  /** The longest Ruby array. */
  const ARY_MAX: int := 0xfff_ffff_ffff_ffff

  /** count * size, a step at a time. */
  function Span(count: nat, size: nat): (n: nat) {
    if count == 0 then 0 else size + Span(count - 1, size)
  }

  lemma {:induction false} SpanIsProduct(count: nat, size: nat)
    ensures Span(count, size) == count * size
    decreases count
  {
    if count > 0 {
      SpanIsProduct(count - 1, size);
    }
  }

  /** The put loop once its checks have passed: it stops at a value that does not convert, leaving what it
      has written. */
  function Fill(m: Storage, at: int, k: Kind, xs: seq<int>, swapped: bool): (r: (Storage, Option<Error>))
    requires 0 <= at && at + Span(|xs|, k.bytes) <= |m|
    ensures |r.0| == |m|
    decreases |xs|
  {
    if xs == [] then (m, None)
    else if !Convertible(k, xs[0]) then (m, Some(RangeError))
    else Fill(Patch(m, at, Stored(k, xs[0], swapped)), at + k.bytes, k, xs[1..], swapped)
  }

  /** The first `count` elements of an array of elements of this size. */
  function Chunks(m: Storage, at: int, size: nat, count: nat): (cs: seq<seq<Byte>>)
    requires 0 <= at && at + Span(count, size) <= |m|
    ensures |cs| == count
    decreases count
  {
    if count == 0 then []
    else
      var p := at + Span(count - 1, size);
      Chunks(m, at, size, count - 1) + [m[p..p + size]]
  }

  function LoadEach(k: Kind, cs: seq<seq<Byte>>, swapped: bool): seq<int> {
    if cs == [] then [] else [Loaded(k, cs[0], swapped)] + LoadEach(k, cs[1..], swapped)
  }

  function PutArray(m: Storage, v: View, k: Kind, off: int, xs: seq<int>): (r: (Storage, Option<Error>))
    requires ValidView(m, v) && IsKind(k)
    ensures |r.0| == |m|
  {
    if !FitsLong(off) then (m, Some(RangeError))
    else if |xs| > 0 && !v.writable then (m, Some(AccessError))
    else if !InRange(v.size, off, Span(|xs|, k.bytes)) then (m, Some(IndexError))
    else Fill(m, v.address + off, k, xs, v.swapped)
  }

  /** Why an array get is refused, if it is. */
  function GetArrayError(v: View, k: Kind, off: int, count: int): Option<Error> {
    if !FitsLong(count) || !FitsLong(off) then Some(RangeError)
    else if count < 0 || count > ARY_MAX then Some(ArgumentError)
    else if count > 0 && !v.readable then Some(AccessError)
    else if !InRange(v.size, off, Span(count, k.bytes)) then Some(IndexError)
    else None
  }

  function GetArray(m: Storage, v: View, k: Kind, off: int, count: int): Result<seq<int>, Error>
    requires ValidView(m, v) && IsKind(k)
  {
    match GetArrayError(v, k, off, count)
    case Some(e) => Err(e)
    case None => Ok(LoadEach(k, Chunks(m, v.address + off, k.bytes, count), v.swapped))
  }

  /** The values one at a time, each with its own checks, until one is refused. */
  function PutEach(m: Storage, v: View, k: Kind, off: int, xs: seq<int>): (r: (Storage, Option<Error>))
    requires ValidView(m, v) && IsKind(k)
    ensures |r.0| == |m|
    decreases |xs|
  {
    if xs == [] then (m, None)
    else
      match Put(m, v, k, off, xs[0])
      case Err(e) => (m, Some(e))
      case Ok(n) => PutEach(n, v, k, off + k.bytes, xs[1..])
  }

  lemma {:induction false} FillIsPutEach(m: Storage, v: View, k: Kind, off: int, xs: seq<int>)
    requires ValidView(m, v) && IsKind(k) && v.writable && FitsLong(off) && InRange(v.size, off, Span(|xs|, k.bytes))
    ensures Fill(m, v.address + off, k, xs, v.swapped) == PutEach(m, v, k, off, xs)
    decreases |xs|
  {
    if xs != [] && Convertible(k, xs[0]) {
      var n := Put(m, v, k, off, xs[0]).value;
      assert Put(m, v, k, off, xs[0]) == Ok(Patch(m, v.address + off, Stored(k, xs[0], v.swapped)));
      FillIsPutEach(n, v, k, off + k.bytes, xs[1..]);
    }
  }

  /** An array put whose range is inside the memory is the same as putting the values one by one; one whose
      range is not changes no byte at all. */
  lemma ArrayPutIsEachPut(m: Storage, v: View, k: Kind, off: int, xs: seq<int>)
    requires ValidView(m, v) && IsKind(k) && 0 < |xs| && FitsLong(off) && v.writable
    ensures PutArray(m, v, k, off, xs) == if InRange(v.size, off, |xs| * k.bytes)
                                          then PutEach(m, v, k, off, xs)
                                          else (m, Some(IndexError))
  {
    SpanIsProduct(|xs|, k.bytes);
    if InRange(v.size, off, Span(|xs|, k.bytes)) {
      FillIsPutEach(m, v, k, off, xs);
    }
  }

  function ReduceAll(k: Kind, xs: seq<int>): (r: seq<int>)
    ensures |r| == |xs|
  {
    if xs == [] then [] else [Reduce(k, xs[0])] + ReduceAll(k, xs[1..])
  }

  lemma {:induction false} FillOutside(m: Storage, at: int, k: Kind, xs: seq<int>, swapped: bool)
    requires 0 <= at && at + Span(|xs|, k.bytes) <= |m|
    ensures SameOutside(m, Fill(m, at, k, xs, swapped).0, at, at + Span(|xs|, k.bytes))
    decreases |xs|
  {
    if xs != [] && Convertible(k, xs[0]) {
      var bs := Stored(k, xs[0], swapped);
      var n := Patch(m, at, bs);
      var end := at + Span(|xs|, k.bytes);
      PatchIs(m, at, bs);
      WiderOutside(m, n, at, at + k.bytes, at, end);
      FillOutside(n, at + k.bytes, k, xs[1..], swapped);
      WiderOutside(n, Fill(m, at, k, xs, swapped).0, at + k.bytes, end, at, end);
      SameOutsideTwice(m, n, Fill(m, at, k, xs, swapped).0, at, end);
    }
  }

  function StoreEach(k: Kind, xs: seq<int>, swapped: bool): (r: seq<seq<Byte>>)
    ensures |r| == |xs|
  {
    if xs == [] then [] else [Stored(k, xs[0], swapped)] + StoreEach(k, xs[1..], swapped)
  }

  lemma {:induction false} ChunksFromFront(m: Storage, at: int, size: nat, count: nat)
    requires 0 < count && 0 <= at && at + Span(count, size) <= |m|
    ensures Chunks(m, at, size, count) == [m[at..at + size]] + Chunks(m, at + size, size, count - 1)
    decreases count
  {
    if count == 1 {
      assert Span(0, size) == 0 && Chunks(m, at, size, 0) == [];
    } else {
      ChunksFromFront(m, at, size, count - 1);
    }
  }

  lemma {:induction false} LoadEachStored(k: Kind, xs: seq<int>, swapped: bool)
    ensures LoadEach(k, StoreEach(k, xs, swapped), swapped) == ReduceAll(k, xs)
    decreases |xs|
  {
    if xs != [] {
      LoadStored(k, xs[0], swapped);
      LoadEachStored(k, xs[1..], swapped);
      assert StoreEach(k, xs, swapped)[1..] == StoreEach(k, xs[1..], swapped);
    }
  }

  lemma {:induction false} LoadEachAppend(k: Kind, cs: seq<seq<Byte>>, c: seq<Byte>, swapped: bool)
    ensures LoadEach(k, cs + [c], swapped) == LoadEach(k, cs, swapped) + [Loaded(k, c, swapped)]
    decreases |cs|
  {
    if cs == [] {
      assert cs + [c] == [c];
    } else {
      assert (cs + [c])[1..] == cs[1..] + [c];
      LoadEachAppend(k, cs[1..], c, swapped);
    }
  }

  lemma {:induction false} FillChunks(m: Storage, at: int, k: Kind, xs: seq<int>, swapped: bool)
    requires 0 <= at && at + Span(|xs|, k.bytes) <= |m|
    requires Fill(m, at, k, xs, swapped).1 == None
    ensures Chunks(Fill(m, at, k, xs, swapped).0, at, k.bytes, |xs|) == StoreEach(k, xs, swapped)
    decreases |xs|
  {
    if xs != [] {
      var bs := Stored(k, xs[0], swapped);
      var n := Patch(m, at, bs);
      var p := Fill(n, at + k.bytes, k, xs[1..], swapped).0;
      FillChunks(n, at + k.bytes, k, xs[1..], swapped);
      FillOutside(n, at + k.bytes, k, xs[1..], swapped);
      OutsideIsKept(n, p, at + k.bytes, at + Span(|xs|, k.bytes), at, at + k.bytes);
      PatchIs(m, at, bs);
      ChunksFromFront(p, at, k.bytes, |xs|);
    }
  }

  /** An array that was put reads back, each value cut to its width, in either byte order; no byte outside
      its range has changed. */
  lemma {:induction false} ArrayRoundTrip(m: Storage, v: View, k: Kind, off: int, xs: seq<int>, n: Storage)
    requires ValidView(m, v) && IsKind(k) && |xs| <= ARY_MAX && v.readable
    requires PutArray(m, v, k, off, xs) == (n, None)
    ensures SameOutside(m, n, v.address + off, v.address + off + Span(|xs|, k.bytes))
    ensures GetArray(n, v, k, off, |xs|) == Ok(ReduceAll(k, xs))
  {
    FillOutside(m, v.address + off, k, xs, v.swapped);
    FillChunks(m, v.address + off, k, xs, v.swapped);
    LoadEachStored(k, xs, v.swapped);
  }

  ghost predicate AllHeld(k: Kind, xs: seq<int>) {
    forall i :: 0 <= i < |xs| ==> Reduce(k, xs[i]) == xs[i]
  }

  lemma {:induction false} FillOfHeld(m: Storage, at: int, k: Kind, xs: seq<int>, swapped: bool)
    requires IsKind(k) && 0 <= at && at + Span(|xs|, k.bytes) <= |m| && AllHeld(k, xs)
    ensures Fill(m, at, k, xs, swapped).1 == None && ReduceAll(k, xs) == xs
    decreases |xs|
  {
    if xs != [] {
      HeldIsConvertible(k, xs[0]);
      FillOfHeld(Patch(m, at, Stored(k, xs[0], swapped)), at + k.bytes, k, xs[1..], swapped);
      assert xs == [xs[0]] + xs[1..];
    }
  }

  /** An array of values its kind can hold can be put wherever there is room, and comes back unchanged. */
  lemma {:induction false} HeldArrayRoundTrip(m: Storage, v: View, k: Kind, off: int, xs: seq<int>)
    requires ValidView(m, v) && IsKind(k) && v.writable && v.readable && |xs| <= ARY_MAX
    requires 0 <= off && off + |xs| * k.bytes <= v.size && AllHeld(k, xs)
    ensures PutArray(m, v, k, off, xs).1 == None
    ensures GetArray(PutArray(m, v, k, off, xs).0, v, k, off, |xs|) == Ok(xs)
  {
    SpanIsProduct(|xs|, k.bytes);
    FillOfHeld(m, v.address + off, k, xs, v.swapped);
    ArrayRoundTrip(m, v, k, off, xs, PutArray(m, v, k, off, xs).0);
  }

  /** When an array access is refused before any element: a put of something to memory that is not writable,
      a get of something from memory that is not readable, a range that is not inside, a count no Ruby array
      can have. An empty array needs neither. */
  lemma ArrayChecks(m: Storage, v: View, k: Kind, off: int, xs: seq<int>, count: nat)
    requires ValidView(m, v) && IsKind(k) && FitsLong(off) && FitsLong(count)
    ensures xs != [] && !v.writable ==> PutArray(m, v, k, off, xs) == (m, Some(AccessError))
    ensures PutArray(m, v, k, off, []) == (m, if 0 <= off <= v.size then None else Some(IndexError))
    ensures GetArray(m, v, k, off, count).Ok?
       <==> count <= ARY_MAX && (count == 0 || v.readable) && 0 <= off && off + count * k.bytes <= v.size
    ensures GetArray(m, v, k, off, 0) == if 0 <= off <= v.size then Ok([]) else Err(IndexError)
  {
    SpanIsProduct(count, k.bytes);
  }

  // ---------------------------------------------------------------- strings

  function PutBytes(m: Storage, v: View, off: int, bs: seq<Byte>): Result<Storage, Error>
    requires ValidView(m, v)
  {
    if !FitsLong(off) then Err(RangeError)
    else if !v.writable then Err(AccessError)
    else if !InRange(v.size, off, |bs|) then Err(IndexError)
    else Ok(Patch(m, v.address + off, bs))
  }

  /** What precedes the first zero byte. */
  function CutAtNul(bs: seq<Byte>): seq<Byte> {
    if bs == [] || bs[0] == 0 then [] else [bs[0]] + CutAtNul(bs[1..])
  }

  /** r is a prefix of bs without NULs that reaches its end or a NUL. */
  ghost predicate CutOf(bs: seq<Byte>, r: seq<Byte>) {
    r <= bs && 0 !in r && (r == bs || bs[|r|] == 0)
  }

  function GetString(m: Storage, v: View, off: int, len: int): Result<seq<Byte>, Error>
    requires ValidView(m, v)
  {
    if !FitsLong(off) || !FitsLong(len) then Err(RangeError)
    else if !v.readable then Err(AccessError)
    else if !InRange(v.size, off, len) then Err(IndexError)
    else Ok(CutAtNul(m[v.address + off..v.address + off + len]))
  }

  /** Assigning a string to a char array of n bytes: terminated if there is room for the terminator,
      bare if it fills the array, refused if it is longer. */
  function PutCharArray(m: Storage, v: View, off: int, n: nat, str: seq<Byte>): Result<Storage, Error>
    requires ValidView(m, v)
  {
    if |str| <= n then PutBytes(m, v, off, CharBytes(n, str)) else Err(IndexError)
  }

  function CharBytes(n: nat, str: seq<Byte>): seq<Byte> {
    if |str| < n then str + [0] else str
  }

  /** CutAtNul yields such a prefix, and there is only one. */
  lemma {:induction false} CutIsUnique(bs: seq<Byte>, r: seq<Byte>)
    ensures CutOf(bs, r) <==> CutAtNul(bs) == r
    decreases |bs|
  {
    assert r == [] || r[0] in r;
    if bs != [] && bs[0] != 0 {
      if r != [] {
        CutIsUnique(bs[1..], r[1..]);
        assert r == [r[0]] + r[1..];
        assert bs == [bs[0]] + bs[1..];
      }
    }
  }

  lemma PutBytesThenRead(m: Storage, v: View, off: int, bs: seq<Byte>, n: nat)
    requires ValidView(m, v) && FitsLong(off) && InRange(v.size, off, n) && |bs| <= n && v.writable
    ensures PutBytes(m, v, off, bs).Ok?
    ensures var (w, at) := (PutBytes(m, v, off, bs).value, v.address + off);
            SameOutside(m, w, at, at + n) && bs <= w[at..at + n]
  {
    var at := v.address + off;
    var w := PutBytes(m, v, off, bs).value;
    PatchIs(m, at, bs);
    WiderOutside(m, w, at, at + |bs|, at, at + n);
    assert w[at..at + n][..|bs|] == w[at..at + |bs|];
  }

  /** A char array of n bytes takes exactly the strings of at most n bytes. */
  lemma CharArrayTakes(m: Storage, v: View, off: int, n: nat, str: seq<Byte>)
    requires ValidView(m, v) && FitsLong(off) && InRange(v.size, off, n) && v.writable
    ensures PutCharArray(m, v, off, n, str).Ok? <==> |str| <= n
    ensures |str| > n ==> PutCharArray(m, v, off, n, str) == Err(IndexError)
  {
    if |str| <= n {
      PutBytesThenRead(m, v, off, CharBytes(n, str), n);
    }
  }

  /** A string in a char array reads back cut at its first NUL, also when it fills the array and is not
      terminated; and no byte outside the array has changed. */
  lemma {:induction false} CharArrayRoundTrip(m: Storage, v: View, off: int, n: nat, str: seq<Byte>, w: Storage)
    requires ValidView(m, v) && FitsLong(off) && InRange(v.size, off, n) && v.readable
    requires PutCharArray(m, v, off, n, str) == Ok(w)
    ensures SameOutside(m, w, v.address + off, v.address + off + n)
    ensures GetString(w, v, off, n) == Ok(CutAtNul(str))
  {
    PutBytesThenRead(m, v, off, CharBytes(n, str), n);
    FieldCut(w[v.address + off..v.address + off + n], str);
  }

  lemma FieldCut(field: seq<Byte>, str: seq<Byte>)
    requires |str| <= |field| && CharBytes(|field|, str) <= field
    ensures CutAtNul(field) == CutAtNul(str)
  {
    if |str| == |field| {
      assert field == str;
    } else {
      var r := CutAtNul(str);
      CutIsUnique(str, r);
      assert str + [0] <= field;
      assert field[|r|] == (str + [0])[|r|];
      CutIsUnique(field, r);
    }
  }

  /** get_string succeeds exactly on readable memory, for a range inside of it. */
  lemma GetStringSucceedsExactly(m: Storage, v: View, off: int, len: int)
    requires ValidView(m, v) && FitsLong(off) && FitsLong(len)
    ensures GetString(m, v, off, len).Ok? <==> v.readable && 0 <= off && 0 <= len && off + len <= v.size
    ensures GetString(m, v, off, len).Err? ==>
              GetString(m, v, off, len).error == if v.readable then IndexError else AccessError
  {
  }

  /** put_string and put_bytes succeed exactly where there is room, put_string for its terminator too. */
  lemma PutBytesSucceedsExactly(m: Storage, v: View, off: int, bs: seq<Byte>)
    requires ValidView(m, v) && FitsLong(off)
    ensures PutBytes(m, v, off, bs).Ok? <==> v.writable && 0 <= off && off + |bs| <= v.size
    ensures PutBytes(m, v, off, bs).Err? ==>
              PutBytes(m, v, off, bs).error == if v.writable then IndexError else AccessError
  {
  }

  /** A string put with its terminator is read back, cut at its first NUL, by any get_string from there that
      goes as far as the terminator. */
  lemma {:induction false} StringRoundTrip(m: Storage, v: View, off: int, str: seq<Byte>, len: int)
    requires ValidView(m, v) && v.writable && v.readable && |str| < len && 0 <= off && off + len <= v.size
    ensures PutBytes(m, v, off, str + [0]).Ok? && |PutBytes(m, v, off, str + [0]).value| == |m|
    ensures GetString(PutBytes(m, v, off, str + [0]).value, v, off, len) == Ok(CutAtNul(str))
  {
    PutBytesThenRead(m, v, off, str + [0], len);
    var w := PutBytes(m, v, off, str + [0]).value;
    FieldCut(w[v.address + off..v.address + off + len], str);
  }

  // ---------------------------------------------------------------- slices

  /** slice(offset, length), + offset, and order(:big) or order(:little) on a little-endian host. */
  datatype ViewOp = Slice(off: int, len: int) | Plus(off: int) | Order(big: bool)

  function SliceView(v: View, off: int, len: int): Result<View, Error> {
    if !FitsLong(off) || !FitsLong(len) then Err(RangeError)
    else if !InRange(v.size, off, len) then Err(IndexError)
    else Ok(v.(address := v.address + off, size := len))
  }

  function ApplyOp(v: View, op: ViewOp): Result<View, Error> {
    match op
    case Slice(off, len) => SliceView(v, off, len)
    case Plus(off) => if FitsLong(off) then SliceView(v, off, Wrap64(v.size - off)) else Err(RangeError)
    case Order(big) => Ok(if big then v.(swapped := true) else v)
  }

  function ApplyOps(v: View, ops: seq<ViewOp>): Result<View, Error>
    decreases |ops|
  {
    if ops == [] then Ok(v)
    else
      match ApplyOp(v, ops[0])
      case Err(e) => Err(e)
      case Ok(w) => ApplyOps(w, ops[1..])
  }

  /** How far into the root a chain of views starts. */
  function OffsetOf(ops: seq<ViewOp>): int {
    if ops == [] then 0
    else (match ops[0] case Slice(off, _) => off case Plus(off) => off case Order(_) => 0) + OffsetOf(ops[1..])
  }

  predicate AsksForBig(ops: seq<ViewOp>) {
    exists i :: 0 <= i < |ops| && ops[i] == Order(true)
  }

  /** A slice exists exactly if its range is inside; then an access succeeds on it exactly inside its length,
      and finds what its parent has there. */
  lemma SliceIsWindow(m: Storage, v: View, off: int, len: int, k: Kind, at: int)
    requires ValidView(m, v) && FitsLong(off) && FitsLong(len) && FitsLong(at) && IsKind(k)
    ensures ApplyOp(v, Slice(off, len)).Ok? <==> 0 <= off && 0 <= len && off + len <= v.size
    ensures ApplyOp(v, Slice(off, len)).Err? ==> ApplyOp(v, Slice(off, len)) == Err(IndexError)
    ensures ApplyOp(v, Slice(off, len)).Ok? ==>
              var w := ApplyOp(v, Slice(off, len)).value;
              && ValidView(m, w)
              && (Get(m, w, k, at).Ok? <==> v.readable && 0 <= at && at + k.bytes <= len)
              && (Get(m, w, k, at).Ok? ==> Get(m, w, k, at) == Get(m, v, k, off + at))
  {
    if ApplyOp(v, Slice(off, len)).Ok? && 0 <= at && at + k.bytes <= len {
      SameWindow(m, ApplyOp(v, Slice(off, len)).value, v, k, at, off + at);
    }
  }

  lemma PlusIsRest(v: View, off: int)
    requires 0 <= v.size < TWO_63 && FitsLong(off)
    ensures ApplyOp(v, Plus(off)) == if 0 <= off <= v.size
                                     then Ok(v.(address := v.address + off, size := v.size - off))
                                     else Err(IndexError)
  {
    Wrap64Value(v.size - off);
  }

  /** Any chain of slices stays inside the memory it was taken from, at the sum of the offsets, and is
      swapped exactly when the root was or some step asked for big-endian order. */
  lemma {:induction false} ChainStaysInside(m: Storage, v: View, ops: seq<ViewOp>)
    requires ValidView(m, v) && ApplyOps(v, ops).Ok?
    ensures var w := ApplyOps(v, ops).value;
            && ValidView(m, w)
            && w.address == v.address + OffsetOf(ops)
            && v.address <= w.address && w.address + w.size <= v.address + v.size
            && w.readable == v.readable && w.writable == v.writable
            && (w.swapped <==> v.swapped || AsksForBig(ops))
    decreases |ops|
  {
    if ops != [] {
      var op := ops[0];
      if op.Plus? {
        PlusIsRest(v, op.off);
      }
      var w := ApplyOp(v, op).value;
      ChainStaysInside(m, w, ops[1..]);
      AsksForBigStep(ops);
    }
  }

  lemma AsksForBigStep(ops: seq<ViewOp>)
    requires ops != []
    ensures AsksForBig(ops) <==> ops[0] == Order(true) || AsksForBig(ops[1..])
  {
    if AsksForBig(ops[1..]) {
      var i :| 0 <= i < |ops| - 1 && ops[1..][i] == Order(true);
      assert ops[i + 1] == Order(true);
    }
    if AsksForBig(ops) && ops[0] != Order(true) {
      var i :| 0 <= i < |ops| && ops[i] == Order(true);
      assert ops[1..][i - 1] == Order(true);
    }
  }

  /** What a chain of views reads is what the root reads at the summed offset, in the chain's byte order;
      and an access inside the chain's view is inside the root. */
  lemma ChainReadsRoot(m: Storage, v: View, ops: seq<ViewOp>, k: Kind, off: int)
    requires ValidView(m, v) && ApplyOps(v, ops).Ok? && IsKind(k)
    requires InRange(ApplyOps(v, ops).value.size, off, k.bytes)
    ensures var w := ApplyOps(v, ops).value;
            && ValidView(m, w) && InRange(v.size, OffsetOf(ops) + off, k.bytes)
            && Get(m, w, k, off) == Get(m, v.(swapped := w.swapped), k, OffsetOf(ops) + off)
  {
    ChainStaysInside(m, v, ops);
    SameWindow(m, ApplyOps(v, ops).value, v.(swapped := ApplyOps(v, ops).value.swapped), k, off, OffsetOf(ops) + off);
  }

  lemma SameWindow(m: Storage, w: View, v: View, k: Kind, off: int, at: int)
    requires ValidView(m, w) && ValidView(m, v) && IsKind(k)
    requires InRange(w.size, off, k.bytes) && InRange(v.size, at, k.bytes)
    requires w.address + off == v.address + at && w.readable == v.readable && w.swapped == v.swapped
    ensures Get(m, w, k, off) == Get(m, v, k, at)
  {
  }

  /** And what is written through one end is read, cut to its width, through the other. */
  lemma ChainSharesStorage(m: Storage, v: View, ops: seq<ViewOp>, k: Kind, off: int, x: int)
    requires ValidView(m, v) && ApplyOps(v, ops).Ok? && IsKind(k) && v.readable
    requires ValidView(m, ApplyOps(v, ops).value) && Put(m, ApplyOps(v, ops).value, k, off, x).Ok?
    ensures var w := ApplyOps(v, ops).value;
            Get(Put(m, w, k, off, x).value, v.(swapped := w.swapped), k, OffsetOf(ops) + off) == Ok(Reduce(k, x))
  {
    ChainStaysInside(m, v, ops);
    var w := ApplyOps(v, ops).value;
    PutThenGet(m, w, k, off, x);
    ChainReadsRoot(Put(m, w, k, off, x).value, v, ops, k, off);
  }
}
