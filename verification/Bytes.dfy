/** How integers are laid out as bytes, and the byte swaps that change the order. */
module Bytes {
  import opened Bits

  type Byte = x: int | 0 <= x < 256

  /** The n low bytes of x, least significant first. */
  function Encode(x: int, n: nat): (bs: seq<Byte>)
    ensures |bs| == n
    decreases n
  {
    if n == 0 then [] else [x % 256] + Encode(x / 256, n - 1)
  }

  function Decode(bs: seq<Byte>): nat {
    if bs == [] then 0 else bs[0] + 256 * Decode(bs[1..])
  }

  function Reverse(bs: seq<Byte>): (r: seq<Byte>)
    ensures |r| == |bs|
  {
    if bs == [] then [] else Reverse(bs[1..]) + [bs[0]]
  }

  // ---------------------------------------------------------------- encoding and decoding

  lemma Pow2Bytes(n: nat)
    requires n > 0
    ensures Pow2(8 * n) == 256 * Pow2(8 * (n - 1))
  {
    Pow2Add(8, 8 * (n - 1));
    assert Pow2(8) == 256;
  }

  /** Reduction modulo 256 * m, digit by digit. */
  lemma ModDigits(x: int, m: int)
    requires m > 0
    ensures x % (256 * m) == x % 256 + 256 * ((x / 256) % m)
  {
    var h := x / 256;
    var r := x % 256 + 256 * (h % m);
    assert h == (h / m) * m + h % m;
    assert x == 256 * h + x % 256;
    assert x == (h / m) * (256 * m) + r by {
      assert 256 * ((h / m) * m) == (h / m) * (256 * m);
    }
    ModUnique(x, 256 * m, h / m, r);
  }

  lemma {:induction false} DecodeEncode(x: int, n: nat)
    ensures Decode(Encode(x, n)) == x % Pow2(8 * n)
    decreases n
  {
    if n > 0 {
      DecodeEncode(x / 256, n - 1);
      Pow2Bytes(n);
      ModDigits(x, Pow2(8 * (n - 1)));
      assert Encode(x, n)[1..] == Encode(x / 256, n - 1);
    }
  }

  lemma {:induction false} EncodeDecode(bs: seq<Byte>)
    ensures Encode(Decode(bs), |bs|) == bs
    decreases |bs|
  {
    if bs != [] {
      EncodeDecode(bs[1..]);
      assert Decode(bs) / 256 == Decode(bs[1..]) && Decode(bs) % 256 == bs[0];
    }
  }

  /** Only the residue matters: integers equal modulo 2**(8n) have the same n bytes, and conversely. */
  lemma EncodeCongruent(x: int, y: int, n: nat)
    ensures Encode(x, n) == Encode(y, n) <==> x % Pow2(8 * n) == y % Pow2(8 * n)
  {
    DecodeEncode(x, n);
    DecodeEncode(y, n);
    EncodeDecode(Encode(x, n));
    EncodeDecode(Encode(y, n));
  }

  lemma {:induction false} DecodeBound(bs: seq<Byte>)
    ensures Decode(bs) < Pow2(8 * |bs|)
    decreases |bs|
  {
    if bs != [] {
      DecodeBound(bs[1..]);
      Pow2Bytes(|bs|);
    }
  }

  lemma {:induction false} ReverseAppend(bs: seq<Byte>, b: Byte)
    ensures Reverse(bs + [b]) == [b] + Reverse(bs)
    decreases |bs|
  {
    if bs == [] {
      assert bs + [b] == [b];
    } else {
      assert (bs + [b])[1..] == bs[1..] + [b];
      ReverseAppend(bs[1..], b);
    }
  }

  lemma {:induction false} ReverseTwice(bs: seq<Byte>)
    ensures Reverse(Reverse(bs)) == bs
    decreases |bs|
  {
    if bs != [] {
      ReverseTwice(bs[1..]);
      ReverseAppend(Reverse(bs[1..]), bs[0]);
    }
  }

  // ---------------------------------------------------------------- C's integer types

  datatype Kind = Kind(bytes: nat, signed: bool)

  /** The integer types memory can hold; long is as wide as int64 here. */
  predicate IsKind(k: Kind) {
    k.bytes == 1 || k.bytes == 2 || k.bytes == 4 || k.bytes == 8
  }

  function Modulus(k: Kind): nat {
    Pow2(8 * k.bytes)
  }

  /** The cast to a C integer type. */
  function Reduce(k: Kind, x: int): int {
    var r := x % Modulus(k);
    if k.signed && Modulus(k) <= 2 * r then r - Modulus(k) else r
  }

  lemma ReduceIsCongruent(k: Kind, x: int)
    ensures Reduce(k, x) % Modulus(k) == x % Modulus(k)
    ensures Encode(Reduce(k, x), k.bytes) == Encode(x, k.bytes)
  {
    var m := Modulus(k);
    var r := x % m;
    ModUnique(r, m, 0, r);
    ModUnique(r - m, m, -1, r);
    EncodeCongruent(Reduce(k, x), x, k.bytes);
  }

  lemma ReduceByResidue(k: Kind, x: int, y: int)
    requires x % Modulus(k) == y % Modulus(k)
    ensures Reduce(k, x) == Reduce(k, y)
  {
  }

  /** What is read back from an encoding is the value reduced to its width. */
  lemma ReadBack(k: Kind, x: int)
    ensures Reduce(k, Decode(Encode(x, k.bytes))) == Reduce(k, x)
  {
    DecodeEncode(x, k.bytes);
    ModUnique(x % Modulus(k), Modulus(k), 0, x % Modulus(k));
    ReduceByResidue(k, Decode(Encode(x, k.bytes)), x);
  }

  lemma ReduceTwice(k: Kind, x: int)
    ensures Reduce(k, Reduce(k, x)) == Reduce(k, x)
  {
    ReduceIsCongruent(k, x);
    ReduceByResidue(k, Reduce(k, x), x);
  }

  // ---------------------------------------------------------------- the byte-swapping expressions

  function Swap16(x: int): int {
    Or(And(Shr(x, 8), 0xff), And(Shl(x, 8), 0xff00))
  }

  function Swap32(x: int): int {
    Or(Or(Or(And(Shl(x, 24), 0xff00_0000),
             And(Shl(x, 8), 0x00ff_0000)),
          And(Shr(x, 8), 0x0000_ff00)),
       And(Shr(x, 24), 0x0000_00ff))
  }

  function Swap64(x: int): int {
    Or(Or(Or(Or(Or(Or(Or(And(Shl(x, 56), 0xff00_0000_0000_0000),
                         And(Shl(x, 40), 0x00ff_0000_0000_0000)),
                      And(Shl(x, 24), 0x0000_ff00_0000_0000)),
                   And(Shl(x, 8), 0x0000_00ff_0000_0000)),
                And(Shr(x, 8), 0x0000_0000_ff00_0000)),
             And(Shr(x, 24), 0x0000_0000_00ff_0000)),
          And(Shr(x, 40), 0x0000_0000_0000_ff00)),
       And(Shr(x, 56), 0x0000_0000_0000_00ff))
  }

  /** The value a swapping access stores or yields for x: SWAPS16 and its siblings; single bytes are not
      swapped. */
  function Swapped(k: Kind, x: int): int {
    if k.bytes == 2 then Reduce(k, Swap16(x))
    else if k.bytes == 4 then Reduce(k, Swap32(x))
    else if k.bytes == 8 then Reduce(k, Swap64(x))
    else x
  }

  /** Byte i of x. */
  function ByteOf(x: int, i: nat): Byte {
    x / Pow2(8 * i) % 256
  }

  lemma {:induction false} EncodeAt(x: int, n: nat, i: nat)
    requires i < n
    ensures Encode(x, n)[i] == ByteOf(x, i)
    decreases n
  {
    if i == 0 {
      assert Pow2(0) == 1;
    } else {
      EncodeAt(x / 256, n - 1, i - 1);
      Pow2Bytes(i);
      DivDiv(x, 256, Pow2(8 * (i - 1)));
    }
  }

  lemma DivDiv(x: int, a: int, b: int)
    requires a > 0 && b > 0
    ensures a * b > 0 && x / a / b == x / (a * b)
  {
    var q := x / a / b;
    var r := (x / a) % b * a + x % a;
    assert x / a == q * b + (x / a) % b;
    assert x == (q * b + (x / a) % b) * a + x % a;
    assert (q * b + (x / a) % b) * a == q * (a * b) + (x / a) % b * a;
    assert 0 <= (x / a) % b * a <= (b - 1) * a by { MulBetween((x / a) % b, b - 1, a); }
    assert (b - 1) * a + a == a * b;
    ModUnique(x, a * b, q, r);
  }

  lemma MulBetween(x: int, y: int, a: int)
    requires 0 <= x <= y && a >= 0
    ensures 0 <= x * a <= y * a
  {
  }

  lemma {:induction false} BitShr(x: int, n: nat, i: nat)
    ensures Bit(Shr(x, n), i) <==> Bit(x, i + n)
    decreases n
  {
    if n == 0 {
      assert Pow2(0) == 1;
    } else {
      DivDiv(x, 2, Pow2(n - 1));
      assert Shr(x, n) == Shr(x / 2, n - 1);
      BitShr(x / 2, n - 1, i);
    }
  }

  // ---------------------------------------------------------------- swapping reverses the bytes

  /** Masking with 0xff at byte j keeps that byte in its place. */
  lemma MaskByte(y: int, j: nat)
    ensures And(y, Shl(0xff, 8 * j)) == Shl(ByteOf(y, j), 8 * j)
  {
    var mask, kept := Shl(0xff, 8 * j), Shl(ByteOf(y, j), 8 * j);
    assert Pow2(8) == 256;
    forall i: nat ensures Bit(And(y, mask), i) == Bit(kept, i) {
      BitAnd(y, mask, i);
      BitShl(0xff, 8 * j, i);
      BitShl(ByteOf(y, j), 8 * j, i);
      if i >= 8 * j {
        BitLowMask(8, i - 8 * j);
        BitMod(Shr(y, 8 * j), 8, i - 8 * j);
        BitShr(y, 8 * j, i - 8 * j);
      }
    }
    BitsDetermine(And(y, mask), kept);
  }

  lemma ByteOfShl(x: int, s: nat, j: nat)
    requires s <= j
    ensures ByteOf(Shl(x, 8 * s), j) == ByteOf(x, j - s)
  {
    var p, q := Pow2(8 * s), Pow2(8 * (j - s));
    Pow2Add(8 * s, 8 * (j - s));
    DivDiv(x * p, p, q);
    ModUnique(x * p, p, x, 0);
  }

  lemma ByteOfShr(x: int, s: nat, j: nat)
    ensures ByteOf(Shr(x, 8 * s), j) == ByteOf(x, j + s)
  {
    Pow2Add(8 * s, 8 * j);
    DivDiv(x, Pow2(8 * s), Pow2(8 * j));
  }

  /** Where the set bits do not meet, or is addition. */
  lemma {:induction false} OrAdds(a: int, b: int, n: nat)
    requires 0 <= a < Pow2(n) && b % Pow2(n) == 0
    ensures Or(a, b) == a + b && Or(b, a) == a + b
    decreases n
  {
    OrUnfold(a, b);
    OrUnfold(b, a);
    if n == 0 {
      assert And(-1, Not(b)) == Not(b);
      AndMinusOne(Not(b));
    } else {
      ModPow2Step(b, n);
      OrAdds(a / 2, b / 2, n - 1);
    }
  }

  lemma OrStep(h: int, b: Byte, n: nat)
    ensures Or(Shl(h, n + 8), Shl(b, n)) == Shl(256 * h + b, n)
    ensures Or(Shl(b, n), Shl(h, n + 8)) == Shl(256 * h + b, n)
  {
    var p := Pow2(n);
    Pow2Add(8, n);
    assert Pow2(8) == 256 && Pow2(n + 8) == 256 * p;
    MulBetween(b, 255, p);
    ModOfMultiple(h, 256 * p);
    assert h * (256 * p) + b * p == (256 * h + b) * p;
    OrAdds(b * p, h * (256 * p), n + 8);
  }

  lemma EncodeStep(h: int, b: Byte, n: nat)
    ensures Encode(256 * h + b, n + 1) == [b] + Encode(h, n)
  {
    ModUnique(256 * h + b, 256, h, b);
  }

  /** Byte j of a left-shifted or right-shifted x, masked out in place. */
  lemma Terms(x: int, j: nat, s: nat)
    ensures s <= j ==> And(Shl(x, 8 * s), Shl(0xff, 8 * j)) == Shl(ByteOf(x, j - s), 8 * j)
    ensures And(Shr(x, 8 * s), Shl(0xff, 8 * j)) == Shl(ByteOf(x, j + s), 8 * j)
  {
    MaskByte(Shl(x, 8 * s), j);
    MaskByte(Shr(x, 8 * s), j);
    ByteOfShr(x, s, j);
    if s <= j {
      ByteOfShl(x, s, j);
    }
  }

  lemma ByteMasks()
    ensures Shl(0xff, 8 * 0) == 0xff && Shl(0xff, 8 * 1) == 0xff00
    ensures Shl(0xff, 8 * 2) == 0xff_0000 && Shl(0xff, 8 * 3) == 0xff00_0000
    ensures Shl(0xff, 8 * 4) == 0xff_0000_0000 && Shl(0xff, 8 * 5) == 0xff00_0000_0000
    ensures Shl(0xff, 8 * 6) == 0xff_0000_0000_0000 && Shl(0xff, 8 * 7) == 0xff00_0000_0000_0000
  {
    Pow2Bytes(1);
    Pow2Bytes(2);
    Pow2Bytes(3);
    Pow2Bytes(4);
    Pow2Bytes(5);
    Pow2Bytes(6);
    Pow2Bytes(7);
  }

  /** Two bytes appended at the low end of h. */
  function Join2(h: int, b0: Byte, b1: Byte): int {
    256 * (256 * h + b0) + b1
  }

  lemma EncodeJoin2(h: int, b0: Byte, b1: Byte, n: nat)
    ensures Encode(Join2(h, b0, b1), n + 2) == [b1, b0] + Encode(h, n)
  {
    EncodeStep(h, b0, n);
    EncodeStep(256 * h + b0, b1, n + 1);
    assert [b1] + ([b0] + Encode(h, n)) == [b1, b0] + Encode(h, n);
  }

  lemma OrJoin2(h: int, b0: Byte, b1: Byte, n: nat)
    ensures Or(Or(Shl(h, n + 16), Shl(b0, n + 8)), Shl(b1, n)) == Shl(Join2(h, b0, b1), n)
  {
    OrStep(h, b0, n + 8);
    OrStep(256 * h + b0, b1, n);
  }

  lemma OrFirst2(b0: Byte, b1: Byte, n: nat)
    ensures Or(Shl(b0, n + 8), Shl(b1, n)) == Shl(Join2(0, b0, b1), n)
    ensures Or(Shl(b1, n), Shl(b0, n + 8)) == Shl(Join2(0, b0, b1), n)
  {
    OrStep(b0, b1, n);
  }

  lemma ShlZero(x: int)
    ensures Shl(x, 0) == x
  {
  }

  /** The bytes of x, by position, as a reversed list. */
  lemma Reverse2(x: int)
    ensures Reverse(Encode(x, 2)) == [ByteOf(x, 1), ByteOf(x, 0)]
  {
    EncodeAt(x, 2, 0);
    EncodeAt(x, 2, 1);
    ReversedList2(Encode(x, 2));
  }

  lemma Reverse4(x: int)
    ensures Reverse(Encode(x, 4)) == [ByteOf(x, 3), ByteOf(x, 2), ByteOf(x, 1), ByteOf(x, 0)]
  {
    EncodeAt(x, 4, 0);
    EncodeAt(x, 4, 1);
    EncodeAt(x, 4, 2);
    EncodeAt(x, 4, 3);
    ReversedList4(Encode(x, 4));
  }

  lemma Reverse8(x: int)
    ensures Reverse(Encode(x, 8)) == [ByteOf(x, 7), ByteOf(x, 6), ByteOf(x, 5), ByteOf(x, 4),
                                      ByteOf(x, 3), ByteOf(x, 2), ByteOf(x, 1), ByteOf(x, 0)]
  {
    EncodeAt(x, 8, 0);
    EncodeAt(x, 8, 1);
    EncodeAt(x, 8, 2);
    EncodeAt(x, 8, 3);
    EncodeAt(x, 8, 4);
    EncodeAt(x, 8, 5);
    EncodeAt(x, 8, 6);
    EncodeAt(x, 8, 7);
    ReversedList8(Encode(x, 8));
  }

  lemma ReversedList2(e: seq<Byte>)
    requires |e| == 2
    ensures Reverse(e) == [e[1], e[0]]
  {
    ReverseAt(e, 0);
    ReverseAt(e, 1);
  }

  lemma ReversedList4(e: seq<Byte>)
    requires |e| == 4
    ensures Reverse(e) == [e[3], e[2], e[1], e[0]]
  {
    var r := [e[3], e[2], e[1], e[0]];
    forall i | 0 <= i < 4 ensures Reverse(e)[i] == r[i] {
      ReverseAt(e, i);
    }
  }

  lemma ReversedList8(e: seq<Byte>)
    requires |e| == 8
    ensures Reverse(e) == [e[7], e[6], e[5], e[4], e[3], e[2], e[1], e[0]]
  {
    var r := [e[7], e[6], e[5], e[4], e[3], e[2], e[1], e[0]];
    forall i | 0 <= i < 8 ensures Reverse(e)[i] == r[i] {
      ReverseAt(e, i);
    }
  }

  lemma {:induction false} ReverseAt(bs: seq<Byte>, i: nat)
    requires i < |bs|
    ensures Reverse(bs)[i] == bs[|bs| - 1 - i]
    decreases |bs|
  {
    if i < |bs| - 1 {
      ReverseAt(bs[1..], i);
    }
  }

  lemma Swap16Terms(x: int)
    ensures And(Shr(x, 8), 0xff) == Shl(ByteOf(x, 1), 0)
    ensures And(Shl(x, 8), 0xff00) == Shl(ByteOf(x, 0), 8)
  {
    ByteMasks();
    Terms(x, 0, 1);
    Terms(x, 1, 1);
  }

  lemma Swap16Value(x: int)
    ensures Swap16(x) == Join2(0, ByteOf(x, 0), ByteOf(x, 1))
  {
    var b0, b1 := ByteOf(x, 0), ByteOf(x, 1);
    Swap16Terms(x);
    OrFirst2(b0, b1, 0);
    ShlZero(Join2(0, b0, b1));
  }

  lemma Swap16Bytes(x: int)
    ensures Encode(Swap16(x), 2) == [ByteOf(x, 1), ByteOf(x, 0)]
  {
    Swap16Value(x);
    EncodeJoin2(0, ByteOf(x, 0), ByteOf(x, 1), 0);
  }

  lemma Swap32Terms(x: int)
    ensures And(Shl(x, 24), 0xff00_0000) == Shl(ByteOf(x, 0), 24)
    ensures And(Shl(x, 8), 0x00ff_0000) == Shl(ByteOf(x, 1), 16)
    ensures And(Shr(x, 8), 0x0000_ff00) == Shl(ByteOf(x, 2), 8)
    ensures And(Shr(x, 24), 0x0000_00ff) == Shl(ByteOf(x, 3), 0)
  {
    ByteMasks();
    Terms(x, 3, 3);
    Terms(x, 2, 1);
    Terms(x, 1, 1);
    Terms(x, 0, 3);
  }

  /** The value of four bytes put together by shifts and ors. */
  lemma OrOf4(b0: Byte, b1: Byte, b2: Byte, b3: Byte, n: nat)
    ensures Or(Or(Or(Shl(b0, n + 24), Shl(b1, n + 16)), Shl(b2, n + 8)), Shl(b3, n))
         == Shl(Join2(Join2(0, b0, b1), b2, b3), n)
  {
    OrFirst2(b0, b1, n + 16);
    OrJoin2(Join2(0, b0, b1), b2, b3, n);
  }

  lemma EncodeOf4(h: int, b0: Byte, b1: Byte, b2: Byte, b3: Byte, n: nat)
    ensures Encode(Join2(Join2(h, b0, b1), b2, b3), n + 4) == [b3, b2, b1, b0] + Encode(h, n)
  {
    var g := Join2(h, b0, b1);
    EncodeJoin2(h, b0, b1, n);
    EncodeJoin2(g, b2, b3, n + 2);
    Glue([b3, b2], [b1, b0], Encode(h, n));
  }

  lemma Glue(p: seq<Byte>, q: seq<Byte>, r: seq<Byte>)
    ensures p + (q + r) == (p + q) + r
  {
  }

  lemma Swap32Value(x: int)
    ensures Swap32(x) == Join2(Join2(0, ByteOf(x, 0), ByteOf(x, 1)), ByteOf(x, 2), ByteOf(x, 3))
  {
    var b0, b1, b2, b3 := ByteOf(x, 0), ByteOf(x, 1), ByteOf(x, 2), ByteOf(x, 3);
    Swap32Terms(x);
    Joined4(b0, b1, b2, b3);
  }

  lemma Joined4(b0: Byte, b1: Byte, b2: Byte, b3: Byte)
    ensures Or(Or(Or(Shl(b0, 24), Shl(b1, 16)), Shl(b2, 8)), Shl(b3, 0)) == Join2(Join2(0, b0, b1), b2, b3)
  {
    OrOf4(b0, b1, b2, b3, 0);
    ShlZero(Join2(Join2(0, b0, b1), b2, b3));
  }

  lemma Encoded4(v: int, b0: Byte, b1: Byte, b2: Byte, b3: Byte)
    requires v == Join2(Join2(0, b0, b1), b2, b3)
    ensures Encode(v, 4) == [b3, b2, b1, b0]
  {
    EncodeOf4(0, b0, b1, b2, b3, 0);
  }

  lemma Encoded8(v: int, b0: Byte, b1: Byte, b2: Byte, b3: Byte, b4: Byte, b5: Byte, b6: Byte, b7: Byte)
    requires v == Join2(Join2(Join2(Join2(0, b0, b1), b2, b3), b4, b5), b6, b7)
    ensures Encode(v, 8) == [b7, b6, b5, b4, b3, b2, b1, b0]
  {
    var g := Join2(Join2(0, b0, b1), b2, b3);
    Encoded4(g, b0, b1, b2, b3);
    EncodeOf4(g, b4, b5, b6, b7, 4);
  }

  lemma Swap32Bytes(x: int)
    ensures Encode(Swap32(x), 4) == [ByteOf(x, 3), ByteOf(x, 2), ByteOf(x, 1), ByteOf(x, 0)]
  {
    Swap32Value(x);
    Encoded4(Swap32(x), ByteOf(x, 0), ByteOf(x, 1), ByteOf(x, 2), ByteOf(x, 3));
  }

  lemma Swap64Terms(x: int)
    ensures And(Shl(x, 56), 0xff00_0000_0000_0000) == Shl(ByteOf(x, 0), 56)
    ensures And(Shl(x, 40), 0x00ff_0000_0000_0000) == Shl(ByteOf(x, 1), 48)
    ensures And(Shl(x, 24), 0x0000_ff00_0000_0000) == Shl(ByteOf(x, 2), 40)
    ensures And(Shl(x, 8), 0x0000_00ff_0000_0000) == Shl(ByteOf(x, 3), 32)
    ensures And(Shr(x, 8), 0x0000_0000_ff00_0000) == Shl(ByteOf(x, 4), 24)
    ensures And(Shr(x, 24), 0x0000_0000_00ff_0000) == Shl(ByteOf(x, 5), 16)
    ensures And(Shr(x, 40), 0x0000_0000_0000_ff00) == Shl(ByteOf(x, 6), 8)
    ensures And(Shr(x, 56), 0x0000_0000_0000_00ff) == Shl(ByteOf(x, 7), 0)
  {
    ByteMasks();
    Terms(x, 7, 7);
    Terms(x, 6, 5);
    Terms(x, 5, 3);
    Terms(x, 4, 1);
    Terms(x, 3, 1);
    Terms(x, 2, 3);
    Terms(x, 1, 5);
    Terms(x, 0, 7);
  }

  lemma OrOf8(t0: int, t1: int, t2: int, t3: int, b4: Byte, b5: Byte, b6: Byte, b7: Byte, g: int)
    requires Or(Or(Or(t0, t1), t2), t3) == Shl(g, 32)
    ensures Or(Or(Or(Or(Or(Or(Or(t0, t1), t2), t3), Shl(b4, 24)), Shl(b5, 16)), Shl(b6, 8)), Shl(b7, 0))
         == Join2(Join2(g, b4, b5), b6, b7)
  {
    OrJoin2(g, b4, b5, 16);
    OrJoin2(Join2(g, b4, b5), b6, b7, 0);
    ShlZero(Join2(Join2(g, b4, b5), b6, b7));
  }

  lemma Swap64Value(x: int)
    ensures Swap64(x) == var g := Join2(Join2(0, ByteOf(x, 0), ByteOf(x, 1)), ByteOf(x, 2), ByteOf(x, 3));
                         Join2(Join2(g, ByteOf(x, 4), ByteOf(x, 5)), ByteOf(x, 6), ByteOf(x, 7))
  {
    var b0, b1, b2, b3 := ByteOf(x, 0), ByteOf(x, 1), ByteOf(x, 2), ByteOf(x, 3);
    Swap64Terms(x);
    OrOf4(b0, b1, b2, b3, 32);
    OrOf8(Shl(b0, 56), Shl(b1, 48), Shl(b2, 40), Shl(b3, 32),
          ByteOf(x, 4), ByteOf(x, 5), ByteOf(x, 6), ByteOf(x, 7), Join2(Join2(0, b0, b1), b2, b3));
  }

  lemma Swap64Bytes(x: int)
    ensures Encode(Swap64(x), 8) == [ByteOf(x, 7), ByteOf(x, 6), ByteOf(x, 5), ByteOf(x, 4),
                                     ByteOf(x, 3), ByteOf(x, 2), ByteOf(x, 1), ByteOf(x, 0)]
  {
    Swap64Value(x);
    Encoded8(Swap64(x), ByteOf(x, 0), ByteOf(x, 1), ByteOf(x, 2), ByteOf(x, 3),
             ByteOf(x, 4), ByteOf(x, 5), ByteOf(x, 6), ByteOf(x, 7));
  }

  /** Swapping a value reverses its encoding, whatever its width and sign. */
  lemma SwapReverses(k: Kind, x: int)
    requires IsKind(k)
    ensures Encode(Swapped(k, x), k.bytes) == Reverse(Encode(x, k.bytes))
  {
    if k.bytes == 2 {
      Swap16Bytes(x);
      Reverse2(x);
      ReduceIsCongruent(k, Swap16(x));
    } else if k.bytes == 4 {
      Swap32Bytes(x);
      Reverse4(x);
      ReduceIsCongruent(k, Swap32(x));
    } else if k.bytes == 8 {
      Swap64Bytes(x);
      Reverse8(x);
      ReduceIsCongruent(k, Swap64(x));
    } else {
      ReverseAt(Encode(x, 1), 0);
    }
  }

  /** Swapping is an involution on the values of its type. */
  lemma SwapTwice(k: Kind, x: int)
    requires IsKind(k)
    ensures Reduce(k, Swapped(k, Swapped(k, x))) == Reduce(k, x)
  {
    var n := k.bytes;
    SwapReverses(k, x);
    SwapReverses(k, Swapped(k, x));
    ReverseTwice(Encode(x, n));
    EncodeCongruent(Swapped(k, Swapped(k, x)), x, n);
    ReduceByResidue(k, Swapped(k, Swapped(k, x)), x);
  }
}
