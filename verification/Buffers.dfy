/** Memory objects: the accesses as they are carried out in place, on storage that slices share. */
module Buffers {
  import opened Wrappers
  import opened Bits
  import opened Bytes
  import opened Memory

  /** `x & ~(m - 1)`. */
  function AlignDown(x: int, m: int): int {
    And(x, Not(m - 1))
  }

  /** Where buffer_initialize puts an aligned block: the first multiple of 8 in the allocation. */
  function AlignedAddress(base: nat): int {
    AlignDown(base + 7, 8)
  }

  lemma AlignDownIsRoundDown(x: int, m: int, n: nat)
    requires m == Pow2(n)
    ensures AlignDown(x, m) == x - x % m
  {
    AndHighMask(x, n);
  }

  lemma RoundDownFits(base: int, r: int)
    requires r == base + 7 - (base + 7) % 8
    ensures base <= r <= base + 7 && r % 8 == 0
  {
  }

  /** The aligned block starts on an 8-byte boundary, at most 7 bytes into the allocation. */
  lemma AlignedAddressFits(base: nat)
    ensures base <= AlignedAddress(base) <= base + 7 && AlignedAddress(base) % 8 == 0
  {
    assert Pow2(3) == 8;
    AlignDownIsRoundDown(base + 7, 8, 3);
    RoundDownFits(base, AlignedAddress(base));
  }

  /** Buffers of at most this many bytes are kept inside the object. */
  const EMBED_MAX := 8

  /** The least size that leaves a MemoryPointer's allocation a size of its own. */
  const MALLOC_MIN := -7

  /** memptr_malloc: room for `count` cells, or no memory at all when the number of bytes, alignment included,
      is negative as a signed word. A negative count of up to seven bytes gets through, and the pointer then
      has a negative size. */
  method NewMemoryPointer(typeSize: int, count: int, base: nat, clear: bool) returns (r: Option<AbstractMemory>)
    requires -TWO_31 <= typeSize < TWO_31 && FitsLong(count)
    ensures var n := Wrap64(typeSize * count);
            && (r.Some? <==> Wrap64(n + 7) >= 0)
            && (r.Some? ==> MALLOC_MIN <= n && fresh(r.value) && fresh(r.value.storage)
                            && r.value.AsView() == View(AlignedAddress(base) - base, n, true, true, false)
                            && r.value.storage.Length == n + 7 && (n >= 0 ==> r.value.Valid()))
  {
    var n := Wrap64(typeSize * count);
    Wrap64Value(n + 7);
    if Wrap64(n + 7) < 0 {
      return None;
    }
    var memory := new AbstractMemory.Malloc(n, base, clear);
    r := Some(memory);
  }

  method Copy(to: array<Byte>, at: int, bs: seq<Byte>)
    requires 0 <= at && at + |bs| <= to.Length
    modifies to
    ensures to[..] == Patch(old(to[..]), at, bs)
  {
    forall i | 0 <= i < |bs| {
      to[at + i] := bs[i];
    }
    assert to[..at] == old(to[..])[..at];
    assert to[at..at + |bs|] == bs;
    assert to[at + |bs|..] == old(to[..])[at + |bs|..];
    assert to[..] == to[..at] + to[at..at + |bs|] + to[at + |bs|..];
  }

  class AbstractMemory {
    const storage: array<Byte>
    var address: int
    var size: int
    var readable: bool
    var writable: bool
    var swapped: bool

    function AsView(): View
      reads this
    {
      View(address, size, readable, writable, swapped)
    }

    predicate Valid()
      reads this, storage
    {
      ValidView(storage[..], AsView())
    }

    /** Buffer.new: a buffer of `count` cells, or one whose negative count leaves it with a negative size;
        `base` is the address the allocator returned. Memory of its own is cleared on request, the few bytes
        inside the object always are. */
    constructor (typeSize: int, count: int, base: nat, clear: bool)
      requires -TWO_31 <= typeSize < TWO_31 && FitsLong(count)
      ensures fresh(storage) && (size >= 0 ==> Valid())
      ensures var n := Wrap64(typeSize * count);
              AsView() == View(if n <= EMBED_MAX then 0 else AlignedAddress(base) - base, n, true, true, false)
      ensures storage.Length == if size <= EMBED_MAX then EMBED_MAX else size + 7
      ensures clear || size <= EMBED_MAX ==> forall i :: 0 <= i < storage.Length ==> storage[i] == 0
    {
      AlignedAddressFits(base);
      var n := Wrap64(typeSize * count);
      if n <= EMBED_MAX {
        storage := new Byte[EMBED_MAX](_ => 0);
        address := 0;
      } else {
        if clear {
          storage := new Byte[n + 7](_ => 0);
        } else {
          storage := new Byte[n + 7];
        }
        address := AlignedAddress(base) - base;
      }
      size := n;
      readable, writable, swapped := true, true, false;
    }

    /** The memory of a MemoryPointer, always its own and aligned; size + 7 bytes are allocated for it, also
        when the size is negative and that is still not. */
    constructor Malloc(size: int, base: nat, clear: bool)
      requires MALLOC_MIN <= size < TWO_63 - 7
      ensures fresh(storage) && storage.Length == size + 7 && (size >= 0 ==> Valid())
      ensures AsView() == View(AlignedAddress(base) - base, size, true, true, false)
      ensures clear ==> forall i :: address <= i < address + size ==> storage[i] == 0
    {
      AlignedAddressFits(base);
      if clear {
        storage := new Byte[size + 7](_ => 0);
      } else {
        storage := new Byte[size + 7];
      }
      address := AlignedAddress(base) - base;
      this.size := size;
      readable, writable, swapped := true, true, false;
    }

    /** The object a slice makes: a window on its parent's storage. */
    constructor Window(parent: AbstractMemory, off: int, len: int)
      requires parent.Valid() && InRange(parent.size, off, len)
      ensures Valid() && storage == parent.storage
      ensures AsView() == parent.AsView().(address := parent.address + off, size := len)
    {
      storage := parent.storage;
      address, size := parent.address + off, len;
      readable, writable, swapped := parent.readable, parent.writable, parent.swapped;
    }

    /** Answers the unbounded range question except for sizes below -1, where far-out accesses pass. */
    method CheckBounds(off: int, len: int) returns (inside: bool)
      requires FitsLong(size) && FitsLong(off) && FitsLong(len)
      ensures size >= -1 ==> inside == InRange(size, off, len)
      ensures size < 0 ==> inside == (0 <= off && 0 <= len && size + TWO_63 < off + len < TWO_63)
    {
      if size >= -1 {
        BoundsTestIsExact(size, off, len);
      }
      if size < 0 {
        BoundsTestOfNegativeSize(size, off, len);
      }
      inside := BoundsTest(size, off, len);
    }

    /** The bounds check of an array access, whose length is a product that could wrap. */
    method CheckArrayBounds(off: int, count: nat, k: Kind) returns (inside: bool)
      requires 0 <= size < TWO_63 && FitsLong(off) && count <= ARY_MAX && IsKind(k)
      ensures inside == InRange(size, off, Span(count, k.bytes))
    {
      SpanFitsLong(count, k);
      inside := CheckBounds(off, Wrap64(count * k.bytes));
    }

    method SliceOf(off: int, len: int) returns (r: Result<AbstractMemory, Error>)
      requires Valid()
      ensures match SliceView(AsView(), off, len)
              case Ok(v) => r.Ok? && r.value.Valid() && r.value.storage == storage && r.value.AsView() == v
              case Err(e) => r == Err(e)
    {
      if !FitsLong(off) || !FitsLong(len) {
        return Err(RangeError);
      }
      var inside := CheckBounds(off, len);
      if !inside {
        return Err(IndexError);
      }
      var window := new AbstractMemory.Window(this, off, len);
      r := Ok(window);
    }

    method Plus(off: int) returns (r: Result<AbstractMemory, Error>)
      requires Valid()
      ensures match ApplyOp(AsView(), ViewOp.Plus(off))
              case Ok(v) => r.Ok? && r.value.Valid() && r.value.storage == storage && r.value.AsView() == v
              case Err(e) => r == Err(e)
    {
      if !FitsLong(off) {
        return Err(RangeError);
      }
      r := SliceOf(off, Wrap64(size - off));
    }

    /** order on a little-endian host: asking for big-endian order makes a swapped view of the whole, asking
        for little-endian order gives the object itself. */
    method OrderAs(big: bool) returns (r: AbstractMemory)
      requires Valid()
      ensures r.Valid() && r.storage == storage
      ensures ApplyOp(AsView(), Order(big)) == Ok(r.AsView())
    {
      if big {
        r := new AbstractMemory.Window(this, 0, size);
        r.swapped := true;
      } else {
        r := this;
      }
    }

    /** The conversion and swap of a put: the bytes to be copied. */
    method ToBytes(k: Kind, x: int) returns (bs: seq<Byte>)
      requires IsKind(k)
      ensures bs == Stored(k, x, swapped)
    {
      var tmp := Reduce(k, x);
      if swapped {
        SwapStores(k, x);
        tmp := Swapped(k, tmp);
      } else {
        ReduceIsCongruent(k, x);
      }
      bs := Encode(tmp, k.bytes);
    }

    method FromBytes(k: Kind, bs: seq<Byte>) returns (x: int)
      requires IsKind(k) && |bs| == k.bytes
      ensures x == Loaded(k, bs, swapped)
    {
      x := Reduce(k, Decode(bs));
      if swapped {
        SwapLoads(k, bs);
        x := Swapped(k, x);
      }
    }

    method PutNumber(k: Kind, off: int, x: int) returns (error: Option<Error>)
      requires Valid() && IsKind(k)
      modifies storage
      ensures match Put(old(storage[..]), AsView(), k, off, x)
              case Ok(m) => error == None && storage[..] == m
              case Err(e) => error == Some(e) && storage[..] == old(storage[..])
    {
      if !FitsLong(off) || !Convertible(k, x) {
        return Some(RangeError);
      }
      var bs := ToBytes(k, x);
      if !writable {
        return Some(AccessError);
      }
      var inside := CheckBounds(off, k.bytes);
      if !inside {
        return Some(IndexError);
      }
      Copy(storage, address + off, bs);
      error := None;
    }

    method GetNumber(k: Kind, off: int) returns (r: Result<int, Error>)
      requires Valid() && IsKind(k)
      ensures r == Get(storage[..], AsView(), k, off)
    {
      if !FitsLong(off) {
        return Err(RangeError);
      }
      if !readable {
        return Err(AccessError);
      }
      var inside := CheckBounds(off, k.bytes);
      if !inside {
        return Err(IndexError);
      }
      var bs := storage[address + off..address + off + k.bytes];
      assert bs == storage[..][address + off..address + off + k.bytes];
      var x := FromBytes(k, bs);
      r := Ok(x);
    }

    /** The array put loop; a value that does not convert stops it after some bytes were written. */
    method PutArrayOf(k: Kind, off: int, xs: seq<int>) returns (error: Option<Error>)
      requires Valid() && IsKind(k) && |xs| <= ARY_MAX
      modifies storage
      ensures (storage[..], error) == PutArray(old(storage[..]), AsView(), k, off, xs)
    {
      if !FitsLong(off) {
        return Some(RangeError);
      }
      if |xs| > 0 && !writable {
        return Some(AccessError);
      }
      var inside := CheckArrayBounds(off, |xs|, k);
      if !inside {
        return Some(IndexError);
      }
      error := StoreAll(k, address + off, xs);
    }

    /** The loop of an array put. */
    method StoreAll(k: Kind, at: int, xs: seq<int>) returns (error: Option<Error>)
      requires IsKind(k) && 0 <= at && at + Span(|xs|, k.bytes) <= storage.Length
      modifies storage
      ensures (storage[..], error) == Fill(old(storage[..]), at, k, xs, swapped)
    {
      var i := 0;
      assert xs[0..] == xs;
      while i < |xs|
        invariant i <= |xs| && StoredSoFar(old(storage[..]), storage[..], at, k, xs, i, swapped)
      {
        StoreNext(old(storage[..]), storage[..], at, k, xs, i, swapped);
        if !Convertible(k, xs[i]) {
          return Some(RangeError);
        }
        var bs := ToBytes(k, xs[i]);
        Copy(storage, at + i * k.bytes, bs);
        i := i + 1;
      }
      error := None;
    }

    method CheckArrayGet(k: Kind, off: int, count: int) returns (error: Option<Error>)
      requires Valid() && IsKind(k)
      ensures error == GetArrayError(AsView(), k, off, count)
    {
      if !FitsLong(count) || !FitsLong(off) {
        return Some(RangeError);
      }
      if count < 0 || count > ARY_MAX {
        return Some(ArgumentError);
      }
      if count > 0 && !readable {
        return Some(AccessError);
      }
      var inside := CheckArrayBounds(off, count, k);
      error := if inside then None else Some(IndexError);
    }

    method GetArrayOf(k: Kind, off: int, count: int) returns (r: Result<seq<int>, Error>)
      requires Valid() && IsKind(k)
      ensures r == GetArray(storage[..], AsView(), k, off, count)
    {
      var error := CheckArrayGet(k, off, count);
      match error
      case Some(e) =>
        r := Err(e);
      case None =>
        ArrayGetFits(storage[..], AsView(), k, off, count);
        var xs := FetchAll(k, address + off, count);
        r := Ok(xs);
    }

    /** The loop of an array get. */
    method FetchAll(k: Kind, at: int, count: nat) returns (xs: seq<int>)
      requires IsKind(k) && 0 <= at && at + Span(count, k.bytes) <= storage.Length
      ensures xs == LoadEach(k, Chunks(storage[..], at, k.bytes, count), swapped)
    {
      ghost var m := storage[..];
      xs := [];
      var i := 0;
      while i < count
        invariant i <= count && SpanAtMost(i, count, k.bytes)
        invariant xs == LoadEach(k, Chunks(m, at, k.bytes, i), swapped)
      {
        SpanStep(i, count, k.bytes);
        LoadNext(m, at, k, i, swapped);
        var x := Fetch(k, at, i);
        xs := xs + [x];
        i := i + 1;
      }
    }

    /** Element i of an array at `at`. */
    method Fetch(k: Kind, at: int, i: nat) returns (x: int)
      requires IsKind(k) && 0 <= at && at + Span(i, k.bytes) + k.bytes <= storage.Length
      ensures var p := at + Span(i, k.bytes); x == Loaded(k, storage[..][p..p + k.bytes], swapped)
    {
      SpanIsProduct(i, k.bytes);
      var p := at + i * k.bytes;
      assert storage[p..p + k.bytes] == storage[..][p..p + k.bytes];
      x := FromBytes(k, storage[p..p + k.bytes]);
    }

    method PutBytesAt(off: int, bs: seq<Byte>) returns (error: Option<Error>)
      requires Valid() && FitsLong(|bs|)
      modifies storage
      ensures match PutBytes(old(storage[..]), AsView(), off, bs)
              case Ok(m) => error == None && storage[..] == m
              case Err(e) => error == Some(e) && storage[..] == old(storage[..])
    {
      if !FitsLong(off) {
        return Some(RangeError);
      }
      if !writable {
        return Some(AccessError);
      }
      var inside := CheckBounds(off, |bs|);
      if !inside {
        return Some(IndexError);
      }
      Copy(storage, address + off, bs);
      error := None;
    }

    /** put_string: the bytes and a terminator, as two writes. */
    method PutStringAt(off: int, str: seq<Byte>) returns (error: Option<Error>)
      requires Valid() && FitsLong(|str| + 1)
      modifies storage
      ensures match PutBytes(old(storage[..]), AsView(), off, str + [0])
              case Ok(m) => error == None && storage[..] == m
              case Err(e) => error == Some(e) && storage[..] == old(storage[..])
    {
      if !FitsLong(off) {
        return Some(RangeError);
      }
      if !writable {
        return Some(AccessError);
      }
      var inside := CheckBounds(off, |str| + 1);
      if !inside {
        return Some(IndexError);
      }
      ghost var m := storage[..];
      Copy(storage, address + off, str);
      Copy(storage, address + off + |str|, [0]);
      PatchTwice(m, address + off, str, [0]);
      error := None;
    }

    method GetStringAt(off: int, len: int) returns (r: Result<seq<Byte>, Error>)
      requires Valid()
      ensures r == GetString(storage[..], AsView(), off, len)
    {
      if !FitsLong(off) || !FitsLong(len) {
        return Err(RangeError);
      }
      if !readable {
        return Err(AccessError);
      }
      var inside := CheckBounds(off, len);
      if !inside {
        return Err(IndexError);
      }
      var at := address + off;
      var n := FindNul(at, len);
      r := Ok(storage[at..at + n]);
    }

    /** memchr: how many bytes come before the first NUL, or all of them. */
    method FindNul(at: int, len: nat) returns (n: nat)
      requires 0 <= at && at + len <= storage.Length
      ensures n <= len && storage[at..at + n] == CutAtNul(storage[..][at..at + len])
    {
      ghost var bs := storage[..][at..at + len];
      n := 0;
      while n < len && storage[at + n] != 0
        invariant n <= len
        invariant forall i :: 0 <= i < n ==> bs[i] != 0
      {
        assert bs[n] == storage[at + n];
        n := n + 1;
      }
      ghost var r := bs[..n];
      assert storage[at..at + n] == r;
      assert n < len ==> bs[n] == storage[at + n];
      assert CutOf(bs, r);
      CutIsUnique(bs, r);
    }
  }

  /** What an array get that is not refused reads. */
  lemma ArrayGetFits(m: Storage, v: View, k: Kind, off: int, count: int)
    requires ValidView(m, v) && IsKind(k) && GetArrayError(v, k, off, count) == None
    ensures 0 <= count && 0 <= v.address + off && v.address + off + Span(count, k.bytes) <= |m|
    ensures GetArray(m, v, k, off, count) == Ok(LoadEach(k, Chunks(m, v.address + off, k.bytes, count), v.swapped))
  {
  }

  lemma PatchTwice(m: Storage, at: int, p: seq<Byte>, q: seq<Byte>)
    requires 0 <= at && at + |p| + |q| <= |m|
    ensures Patch(Patch(m, at, p), at + |p|, q) == Patch(m, at, p + q)
  {
  }

  lemma SpanFitsLong(count: nat, k: Kind)
    requires count <= ARY_MAX && IsKind(k)
    ensures Wrap64(count * k.bytes) == Span(count, k.bytes) && FitsLong(Span(count, k.bytes))
  {
    SpanIsProduct(count, k.bytes);
    assert 0 <= count * k.bytes <= 8 * ARY_MAX;
    Wrap64Value(count * k.bytes);
  }

  /** Doing the rest of an array put from element i on gives what the whole gives. */
  ghost predicate StoredSoFar(before: Storage, m: Storage, at: int, k: Kind, xs: seq<int>, i: nat, swapped: bool)
    requires i <= |xs| && 0 <= at && at + Span(|xs|, k.bytes) <= |before|
  {
    && |m| == |before| && Span(i, k.bytes) + Span(|xs| - i, k.bytes) == Span(|xs|, k.bytes)
    && Fill(m, at + Span(i, k.bytes), k, xs[i..], swapped) == Fill(before, at, k, xs, swapped)
  }

  lemma StoreNext(before: Storage, m: Storage, at: int, k: Kind, xs: seq<int>, i: nat, swapped: bool)
    requires i < |xs| && 0 <= at && at + Span(|xs|, k.bytes) <= |before|
    requires StoredSoFar(before, m, at, k, xs, i, swapped)
    ensures 0 <= i * k.bytes && at + i * k.bytes + k.bytes <= |m|
    ensures Convertible(k, xs[i]) ==>
              var n := Patch(m, at + i * k.bytes, Stored(k, xs[i], swapped));
              StoredSoFar(before, n, at, k, xs, i + 1, swapped)
    ensures !Convertible(k, xs[i]) ==> Fill(before, at, k, xs, swapped) == (m, Some(RangeError))
  {
    SpanIsProduct(i, k.bytes);
    SpanStep(i, |xs|, k.bytes);
    assert xs[i..][0] == xs[i] && xs[i..][1..] == xs[i + 1..];
  }

  lemma LoadNext(m: Storage, at: int, k: Kind, i: nat, swapped: bool)
    requires 0 <= at && at + Span(i, k.bytes) + k.bytes <= |m|
    ensures at + Span(i + 1, k.bytes) <= |m|
    ensures LoadEach(k, Chunks(m, at, k.bytes, i + 1), swapped)
         == LoadEach(k, Chunks(m, at, k.bytes, i), swapped)
            + [Loaded(k, m[at + Span(i, k.bytes)..at + Span(i, k.bytes) + k.bytes], swapped)]
  {
    var p := at + Span(i, k.bytes);
    assert Chunks(m, at, k.bytes, i + 1) == Chunks(m, at, k.bytes, i) + [m[p..p + k.bytes]];
    LoadEachAppend(k, Chunks(m, at, k.bytes, i), m[p..p + k.bytes], swapped);
  }

  predicate SpanAtMost(i: nat, count: nat, size: nat) {
    Span(i, size) <= Span(count, size)
  }

  lemma {:induction false} SpanStep(i: nat, count: nat, size: nat)
    requires i < count
    ensures Span(i + 1, size) == Span(i, size) + size && SpanAtMost(i + 1, count, size)
    decreases count
  {
    if i + 1 < count {
      SpanStep(i, count - 1, size);
    }
  }
}
