/** Bitmasks: enums whose constants are single bits, converted to and from lists of symbols. */
module Bitmasks {
  import opened Wrappers
  import opened Bits
  import opened Enums

  // ---------------------------------------------------------------- the flags

  datatype FlagState = FlagState(kv: Hash, last: Key, next: nat)

  function FlagStep(s: FlagState, t: Token): Result<FlagState, Error> {
    match t
    case Sym(name) =>
      if Some(name) in s.kv.vals then Err(ArgumentError)
      else Ok(FlagState(Assign(s.kv, Some(name), Shl(1, s.next)), Some(name), s.next + 1))
    case Num(n) =>
      if n < 0 then Err(ArgumentError)
      else Ok(FlagState(Assign(s.kv, s.last, Shl(1, n)), s.last, n + 1))
  }

  function Flags(ts: seq<Token>): Result<FlagState, Error> {
    if ts == [] then Ok(FlagState(EMPTY, None, 0))
    else
      match Flags(ts[..|ts| - 1])
      case Err(e) => Err(e)
      case Ok(s) => FlagStep(s, ts[|ts| - 1])
  }

  /** A hash whose every value is a single bit. */
  ghost predicate IsFlags(h: Hash) {
    WellFormed(h) && forall k :: k in h.vals ==> IsPow2(h.vals[k])
  }

  lemma {:induction false} FlagsAreFlags(ts: seq<Token>)
    ensures Flags(ts).Ok? ==> IsFlags(Flags(ts).value.kv)
  {
    if ts != [] && Flags(ts[..|ts| - 1]).Ok? {
      FlagsAreFlags(ts[..|ts| - 1]);
      var s := Flags(ts[..|ts| - 1]).value;
      match ts[|ts| - 1]
      case Sym(name) =>
        AssignKeepsWellFormed(s.kv, Some(name), Shl(1, s.next));
        assert Shl(1, s.next) == Pow2(s.next);
      case Num(n) =>
        if n >= 0 {
          AssignKeepsWellFormed(s.kv, s.last, Shl(1, n));
          assert Shl(1, n) == Pow2(n);
        }
    }
  }

  /** Every integer of the list can be a bit's position. */
  predicate Positions(ts: seq<Token>) {
    forall i :: 0 <= i < |ts| ==> (ts[i].Num? ==> ts[i].n >= 0)
  }

  /** A flag is the bit whose position an enum with the same list would give as the value. */
  ghost predicate SameNumbers(f: FlagState, s: State) {
    && f.last == s.last && f.next == s.next && f.kv.keys == s.kv.keys && f.kv.vals.Keys == s.kv.vals.Keys
    && forall k :: k in f.kv.vals ==> s.kv.vals[k] >= 0 && f.kv.vals[k] == Pow2(s.kv.vals[k])
  }

  /** A list is refused exactly when it repeats a name or has a negative integer, and otherwise its flags are
      the bits at the positions that numbering gives. */
  lemma {:induction false} FlagsFollowNumbers(ts: seq<Token>)
    ensures Flags(ts).Ok? <==> Number(ts).Ok? && Positions(ts)
    ensures Flags(ts).Ok? ==> SameNumbers(Flags(ts).value, Number(ts).value)
    decreases |ts|
  {
    if ts != [] {
      var front, t := ts[..|ts| - 1], ts[|ts| - 1];
      FlagsFollowNumbers(front);
      assert Positions(ts) <==> Positions(front) && (t.Num? ==> t.n >= 0);
      if Flags(front).Ok? {
        FlagStepFollows(Flags(front).value, Number(front).value, t);
      }
    }
  }

  lemma {:induction false} FlagStepFollows(f: FlagState, s: State, t: Token)
    requires SameNumbers(f, s)
    ensures FlagStep(f, t).Ok? <==> Step(s, t).Ok? && (t.Num? ==> t.n >= 0)
    ensures FlagStep(f, t).Ok? ==> SameNumbers(FlagStep(f, t).value, Step(s, t).value)
  {
    assert t.Sym? ==> Shl(1, f.next) == Pow2(f.next);
    assert t.Num? && t.n >= 0 ==> Shl(1, t.n) == Pow2(t.n);
  }

  /** A list that starts with a symbol never makes a flag under the nil key. */
  lemma {:induction false} NoNilKey(ts: seq<Token>)
    requires ts != [] && ts[0].Sym? && Flags(ts).Ok?
    ensures None !in Flags(ts).value.kv.vals && Flags(ts).value.last.Some?
    decreases |ts|
  {
    if |ts| > 1 {
      NoNilKey(ts[..|ts| - 1]);
    } else {
      assert ts[..0] == [];
    }
  }

  // ---------------------------------------------------------------- conversion

  /** The native type of a bitmask: its width in bits, and whether it is one of the signed types that
      to_native and from_native treat specially. */
  datatype NativeType = NativeType(bits: nat, signed: bool)

  /** What one element of a query contributes. */
  function Element(h: Hash, v: RValue): Result<int, Error> {
    match v
    case RSym(name) => if Some(name) in h.vals then Ok(h.vals[Some(name)]) else Err(ArgumentError)
    case RInt(n) => Ok(n)
    case RObject(Some(n)) => Ok(n)
    case _ => Err(ArgumentError)
  }

  function OrOf(h: Hash, vs: seq<RValue>): Result<int, Error> {
    if vs == [] then Ok(0)
    else
      match OrOf(h, vs[..|vs| - 1])
      case Err(e) => Err(e)
      case Ok(x) =>
        match Element(h, vs[|vs| - 1])
        case Err(e) => Err(e)
        case Ok(y) => Ok(Or(x, y))
  }

  /** Positive values beyond the maximum of a signed type become negative. */
  function Fold(t: NativeType, res: int): int
    requires t.bits > 0
  {
    if t.signed && res >= Shl(1, t.bits - 1) then -And(-res, Shl(1, t.bits) - 1) else res
  }

  function ToNative(h: Hash, t: NativeType, vs: seq<RValue>): Result<int, Error>
    requires t.bits > 0
  {
    match OrOf(h, vs) case Err(e) => Err(e) case Ok(x) => Ok(Fold(t, x))
  }

  function AsValue(k: Key): RValue {
    match k case Some(name) => RSym(name) case None => RNil
  }

  /** Of the first n flags, those that have a bit in common with val. */
  function Matching(h: Hash, val: int, n: nat): seq<RValue>
    requires WellFormed(h) && n <= |h.keys|
  {
    if n == 0 then []
    else
      var k := h.keys[n - 1];
      Matching(h, val, n - 1) + if And(h.vals[k], val) != 0 then [AsValue(k)] else []
  }

  function MatchingOr(h: Hash, val: int, n: nat): int
    requires WellFormed(h) && n <= |h.keys|
  {
    if n == 0 then 0
    else
      var k := h.keys[n - 1];
      if And(h.vals[k], val) != 0 then Or(MatchingOr(h, val, n - 1), h.vals[k]) else MatchingOr(h, val, n - 1)
  }

  function Remainder(h: Hash, t: NativeType, val: int): int
    requires WellFormed(h)
  {
    Xor(if t.signed then And(val, Shl(1, t.bits) - 1) else val, MatchingOr(h, val, |h.keys|))
  }

  function FromNative(h: Hash, t: NativeType, val: int): seq<RValue>
    requires WellFormed(h)
  {
    var r := Remainder(h, t, val);
    Matching(h, val, |h.keys|) + if r == 0 then [] else [RInt(r)]
  }

  // ---------------------------------------------------------------- which bits the flags take

  /** One of the first n flags is bit i. */
  ghost predicate Declared(h: Hash, n: nat, i: nat)
    requires WellFormed(h) && n <= |h.keys|
  {
    exists j :: 0 <= j < n && h.vals[h.keys[j]] == Pow2(i)
  }

  lemma {:induction false} MatchingOrBits(h: Hash, val: int, n: nat, i: nat)
    requires IsFlags(h) && n <= |h.keys|
    ensures Bit(MatchingOr(h, val, n), i) <==> Bit(val, i) && Declared(h, n, i)
    decreases n
  {
    if n == 0 {
      BitOfZero(i);
    } else {
      var f := h.vals[h.keys[n - 1]];
      var p: nat :| f == Pow2(p);
      MatchingOrBits(h, val, n - 1, i);
      AndOneBit(val, p);
      BitOr(MatchingOr(h, val, n - 1), f, i);
      BitPow2(p, i);
      Pow2Injective(p, i);
      DeclaredStep(h, n, i);
    }
  }

  lemma {:induction false} DeclaredStep(h: Hash, n: nat, i: nat)
    requires WellFormed(h) && 0 < n <= |h.keys|
    ensures Declared(h, n, i) <==> Declared(h, n - 1, i) || h.vals[h.keys[n - 1]] == Pow2(i)
  {
  }

  lemma {:induction false} Pow2Injective(p: nat, i: nat)
    ensures Pow2(p) == Pow2(i) <==> p == i
  {
    BitPow2(p, i);
    BitPow2(i, i);
  }

  /** No nil key is among the matching flags. */
  ghost predicate NilUnmatched(h: Hash, val: int) {
    None in h.vals ==> And(h.vals[None], val) == 0
  }

  lemma {:induction false} OrOfAppend(h: Hash, vs: seq<RValue>, v: RValue)
    ensures OrOf(h, vs + [v]) == match OrOf(h, vs)
                                 case Err(e) => Err(e)
                                 case Ok(x) => match Element(h, v) case Err(e) => Err(e) case Ok(y) => Ok(Or(x, y))
  {
    assert (vs + [v])[..|vs|] == vs;
  }

  lemma {:induction false} MatchingConverts(h: Hash, val: int, n: nat)
    requires WellFormed(h) && n <= |h.keys| && NilUnmatched(h, val)
    ensures OrOf(h, Matching(h, val, n)) == Ok(MatchingOr(h, val, n))
    decreases n
  {
    if n > 0 {
      MatchingConverts(h, val, n - 1);
      OrOfAppend(h, Matching(h, val, n - 1), AsValue(h.keys[n - 1]));
      assert Matching(h, val, n - 1) + [] == Matching(h, val, n - 1);
    }
  }

  /** A list with an element that does not convert is refused. */
  lemma {:induction false} OrOfRefuses(h: Hash, vs: seq<RValue>, i: nat)
    requires i < |vs| && Element(h, vs[i]).Err?
    ensures OrOf(h, vs).Err?
    decreases |vs|
  {
    if i < |vs| - 1 {
      OrOfRefuses(h, vs[..|vs| - 1], i);
    }
  }

  lemma {:induction false} NilIsListed(h: Hash, val: int, n: nat, j: nat) returns (i: nat)
    requires WellFormed(h) && j < n <= |h.keys| && h.keys[j] == None && !NilUnmatched(h, val)
    ensures i < |Matching(h, val, n)| && Matching(h, val, n)[i] == RNil
    decreases n
  {
    if j < n - 1 {
      i := NilIsListed(h, val, n - 1, j);
    } else {
      i := |Matching(h, val, n - 1)|;
    }
  }

  lemma {:induction false} MatchingRefused(h: Hash, val: int, n: nat, j: nat)
    requires WellFormed(h) && j < n <= |h.keys| && h.keys[j] == None && !NilUnmatched(h, val)
    ensures OrOf(h, Matching(h, val, n)).Err?
  {
    var i := NilIsListed(h, val, n, j);
    OrOfRefuses(h, Matching(h, val, n), i);
  }

  // ---------------------------------------------------------------- there and back

  /** The values a native type can hold; the other types are not folded, so any integer will do. */
  predicate Holds(t: NativeType, v: int)
    requires t.bits > 0
  {
    t.signed ==> 0 - Pow2(t.bits - 1) <= v < Pow2(t.bits - 1)
  }

  lemma {:induction false} MaskIsMod(v: int, n: nat)
    ensures And(v, Shl(1, n) - 1) == v % Pow2(n)
  {
    AndLowMask(v, n);
    assert Shl(1, n) == Pow2(n);
  }

  /** The or of what from_native lists. */
  function Restored(h: Hash, t: NativeType, v: int): int
    requires WellFormed(h)
  {
    Or(MatchingOr(h, v, |h.keys|), Remainder(h, t, v))
  }

  /** Taking the flags out of a value and or-ing them back in restores it: all its bits for an unfolded
      type, its low bits for a signed one. */
  lemma {:induction false} RestoredBits(h: Hash, t: NativeType, v: int, i: nat)
    requires IsFlags(h)
    ensures Bit(Restored(h, t, v), i)
       <==> if t.signed && i >= t.bits then Bit(v, i) && Declared(h, |h.keys|, i) else Bit(v, i)
  {
    var f := MatchingOr(h, v, |h.keys|);
    var u := if t.signed then And(v, Shl(1, t.bits) - 1) else v;
    MatchingOrBits(h, v, |h.keys|, i);
    BitOr(f, Xor(u, f), i);
    BitXor(u, f, i);
    MaskIsMod(v, t.bits);
    BitMod(v, t.bits, i);
  }

  lemma {:induction false} MatchingOrNonNegative(h: Hash, v: int, n: nat)
    requires IsFlags(h) && n <= |h.keys|
    ensures MatchingOr(h, v, n) >= 0
    decreases n
  {
    if n > 0 {
      var f := h.vals[h.keys[n - 1]];
      var p: nat :| f == Pow2(p);
      MatchingOrNonNegative(h, v, n - 1);
      OrSign(MatchingOr(h, v, n - 1), f);
    }
  }

  lemma {:induction false} XorNonNegative(x: int, y: int)
    requires x >= 0 && y >= 0
    ensures Xor(x, y) >= 0
    decreases x
  {
    AndUnfold(x, y);
    OrUnfold(x, y);
    if x > 0 {
      XorNonNegative(x / 2, y / 2);
    } else {
      assert And(0, y) == 0;
      OrSign(0, y);
    }
  }

  lemma {:induction false} RestoredUnfolded(h: Hash, t: NativeType, v: int)
    requires IsFlags(h) && (!t.signed || 0 <= v < Pow2(t.bits))
    ensures Restored(h, t, v) == v
  {
    var r := Restored(h, t, v);
    forall i: nat ensures Bit(r, i) == Bit(v, i) {
      RestoredBits(h, t, v, i);
      if t.signed {
        BitMod(v, t.bits, i);
        ModUnique(v, Pow2(t.bits), 0, v);
      }
    }
    BitsDetermine(r, v);
  }

  lemma {:induction false} RestoredModulo(h: Hash, t: NativeType, v: int)
    requires IsFlags(h) && t.signed
    ensures Restored(h, t, v) % Pow2(t.bits) == v % Pow2(t.bits) && Restored(h, t, v) >= 0
  {
    var r, m := Restored(h, t, v), Pow2(t.bits);
    forall i: nat ensures Bit(r % m, i) == Bit(v % m, i) {
      RestoredBits(h, t, v, i);
      BitMod(v, t.bits, i);
      BitMod(r, t.bits, i);
    }
    BitsDetermine(r % m, v % m);
    MatchingOrNonNegative(h, v, |h.keys|);
    MaskIsMod(v, t.bits);
    XorNonNegative(v % m, MatchingOr(h, v, |h.keys|));
    OrSign(MatchingOr(h, v, |h.keys|), Remainder(h, t, v));
  }

  lemma FoldsToNegative(res: int, v: int, m: int)
    requires m > 0 && res >= 0 && res % m == v % m && -m <= 2 * v && v < 0
    ensures (-res) % m == -v && 2 * res >= m
  {
    ModUnique(v, m, -1, v + m);
    var q := res / m;
    assert res == q * m + (v + m);
    assert -res == (-q - 1) * m + (-v);
    ModUnique(-res, m, -q - 1, -v);
    assert q >= 0 && q * m >= 0;
  }

  lemma {:induction false} FoldRestores(t: NativeType, res: int, v: int)
    requires t.bits > 0 && t.signed && res >= 0 && res % Pow2(t.bits) == v % Pow2(t.bits)
    requires 0 - Pow2(t.bits - 1) <= v < 0
    ensures Fold(t, res) == v
  {
    var m := Pow2(t.bits);
    Pow2Half(t.bits);
    FoldsToNegative(res, v, m);
    MaskIsMod(-res, t.bits);
    assert Shl(1, t.bits - 1) == Pow2(t.bits - 1);
  }

  lemma {:induction false} FoldKeeps(t: NativeType, v: int)
    requires t.bits > 0 && (t.signed ==> v < Pow2(t.bits - 1))
    ensures Fold(t, v) == v
  {
    assert Shl(1, t.bits - 1) == Pow2(t.bits - 1);
  }

  lemma {:induction false} RestoredFolds(h: Hash, t: NativeType, v: int)
    requires IsFlags(h) && t.bits > 0 && Holds(t, v)
    ensures Fold(t, Restored(h, t, v)) == v
  {
    if t.signed && v < 0 {
      RestoredModulo(h, t, v);
      FoldRestores(t, Restored(h, t, v), v);
    } else {
      if t.signed {
        Pow2Half(t.bits);
      }
      RestoredUnfolded(h, t, v);
      FoldKeeps(t, v);
    }
  }

  /** What from_native lists, or-ed together. */
  lemma {:induction false} ListIsRestored(h: Hash, t: NativeType, v: int)
    requires WellFormed(h)
    ensures NilUnmatched(h, v) ==> OrOf(h, FromNative(h, t, v)) == Ok(Restored(h, t, v))
    ensures !NilUnmatched(h, v) ==> OrOf(h, FromNative(h, t, v)).Err?
  {
    var n := |h.keys|;
    OrOfRemainder(h, Matching(h, v, n), Remainder(h, t, v));
    if NilUnmatched(h, v) {
      MatchingConverts(h, v, n);
    } else {
      var j :| 0 <= j < n && h.keys[j] == None;
      MatchingRefused(h, v, n, j);
    }
  }

  /** A remainder of zero is left out of the list, which changes nothing. */
  lemma {:induction false} OrOfRemainder(h: Hash, list: seq<RValue>, r: int)
    ensures OrOf(h, list + if r == 0 then [] else [RInt(r)]) ==
            match OrOf(h, list) case Err(e) => Err(e) case Ok(x) => Ok(Or(x, r))
  {
    if r == 0 {
      assert list + [] == list;
      if OrOf(h, list).Ok? {
        OrWithZero(OrOf(h, list).value);
      }
    } else {
      OrOfAppend(h, list, RInt(r));
    }
  }

  lemma {:induction false} OrWithZero(x: int)
    ensures Or(x, 0) == x
  {
    AndMinusOne(Not(x));
  }

  /** What an element of a query contributes at bit p: a flag its own bit, a number any of its bits. */
  predicate Contributes(h: Hash, v: RValue, p: nat) {
    match v
    case RSym(name) => Some(name) in h.vals && Bit(h.vals[Some(name)], p)
    case RInt(n) => Bit(n, p)
    case RObject(toInt) => toInt.Some? && Bit(toInt.value, p)
    case RNil => false
  }

  /** A symbol that is a flag, an integer, or an object with to_int. */
  predicate Known(h: Hash, v: RValue) {
    match v
    case RSym(name) => Some(name) in h.vals
    case RInt(_) => true
    case RObject(toInt) => toInt.Some?
    case RNil => false
  }

  /** A query is refused exactly when some element of it is not known, and otherwise has the bits of its
      elements and no others. */
  lemma {:induction false} QueryIsOr(h: Hash, vs: seq<RValue>, p: nat)
    ensures OrOf(h, vs).Ok? <==> forall i :: 0 <= i < |vs| ==> Known(h, vs[i])
    ensures OrOf(h, vs).Ok? ==> (Bit(OrOf(h, vs).value, p) <==> exists i :: 0 <= i < |vs| && Contributes(h, vs[i], p))
    decreases |vs|
  {
    if vs == [] {
      BitOfZero(p);
    } else {
      var n := |vs| - 1;
      var front := vs[..n];
      QueryIsOr(h, front, p);
      assert forall i :: 0 <= i < n ==> front[i] == vs[i];
      assert Known(h, vs[n]) <==> Element(h, vs[n]).Ok?;
      if OrOf(h, vs).Ok? {
        BitOr(OrOf(h, front).value, Element(h, vs[n]).value, p);
        if exists i :: 0 <= i < n && Contributes(h, front[i], p) {
          var i :| 0 <= i < n && Contributes(h, front[i], p);
          assert Contributes(h, vs[i], p);
        }
      }
    }
  }

  /** v is one of the first n flags, and has a bit in common with val. */
  ghost predicate Matches(h: Hash, val: int, n: nat, v: RValue)
    requires WellFormed(h) && n <= |h.keys|
  {
    exists i :: 0 <= i < n && v == AsValue(h.keys[i]) && And(h.vals[h.keys[i]], val) != 0
  }

  lemma {:induction false} MatchingListed(h: Hash, val: int, n: nat, v: RValue)
    requires WellFormed(h) && n <= |h.keys|
    ensures v in Matching(h, val, n) <==> Matches(h, val, n, v)
    decreases n
  {
    if n > 0 {
      MatchingListed(h, val, n - 1, v);
      var k := h.keys[n - 1];
      if And(h.vals[k], val) != 0 {
        assert Matching(h, val, n) == Matching(h, val, n - 1) + [AsValue(k)];
      } else {
        assert Matching(h, val, n) == Matching(h, val, n - 1);
      }
    }
  }

  predicate NoneTwice(vs: seq<RValue>) {
    forall a, b :: 0 <= a < b < |vs| ==> vs[a] != vs[b]
  }

  lemma {:induction false} MatchingOnce(h: Hash, val: int, n: nat)
    requires WellFormed(h) && n <= |h.keys|
    ensures NoneTwice(Matching(h, val, n))
    decreases n
  {
    if n > 0 {
      MatchingOnce(h, val, n - 1);
      var v := AsValue(h.keys[n - 1]);
      MatchingListed(h, val, n - 1, v);
      assert forall i :: 0 <= i < n - 1 ==> AsValue(h.keys[i]) != v;
    }
  }

  lemma {:induction false} FlagsAreNoIntegers(h: Hash, val: int, n: int)
    requires WellFormed(h)
    ensures RInt(n) !in Matching(h, val, |h.keys|)
  {
    MatchingListed(h, val, |h.keys|, RInt(n));
  }

  /** from_native lists the flags that have a bit in common with the value, and the remainder if it is not 0,
      and nothing else. */
  lemma {:induction false} ListedExactly(h: Hash, t: NativeType, val: int, v: RValue)
    requires WellFormed(h)
    ensures v in FromNative(h, t, val) <==>
              Matches(h, val, |h.keys|, v) || (v == RInt(Remainder(h, t, val)) && Remainder(h, t, val) != 0)
  {
    MatchingListed(h, val, |h.keys|, v);
  }

  /** And each of them once. */
  lemma {:induction false} ListedOnce(h: Hash, t: NativeType, val: int)
    requires WellFormed(h)
    ensures NoneTwice(FromNative(h, t, val))
  {
    var r := Remainder(h, t, val);
    MatchingOnce(h, val, |h.keys|);
    FlagsAreNoIntegers(h, val, r);
    AppendedOnce(Matching(h, val, |h.keys|), RInt(r));
  }

  lemma AppendedOnce(vs: seq<RValue>, v: RValue)
    requires NoneTwice(vs) && v !in vs
    ensures NoneTwice(vs + [v]) && NoneTwice(vs + [])
  {
    assert vs + [] == vs;
  }

  /** Every value its type can hold comes back from the list of its symbols and its remainder, wherever
      the flags lie, except that a flag declared before any symbol, under nil, cannot be converted back. */
  lemma {:induction false} ValuesSurvive(h: Hash, t: NativeType, v: int)
    requires IsFlags(h) && t.bits > 0 && Holds(t, v)
    ensures ToNative(h, t, FromNative(h, t, v)) == Ok(v) <==> NilUnmatched(h, v)
  {
    ListIsRestored(h, t, v);
    RestoredFolds(h, t, v);
  }

  /** The declaration [0, :a] files bit 0 under nil, and then 1 does not come back. */
  lemma {:induction false} NilFlagIsLost(t: NativeType)
    requires t.bits > 0 && Holds(t, 1)
    ensures var s := Flags([Num(0), Sym("a")]);
            && s.Ok? && WellFormed(s.value.kv)
            && ToNative(s.value.kv, t, FromNative(s.value.kv, t, 1)) != Ok(1)
  {
    var ts := [Num(0), Sym("a")];
    assert ts[..1] == [Num(0)] && [Num(0)][..0] == [];
    assert Flags([]) == Ok(FlagState(EMPTY, None, 0)) && Shl(1, 0) == 1;
    var h := Assign(EMPTY, None, 1);
    assert Flags([Num(0)]) == Ok(FlagState(h, None, 1));
    var g := Flags(ts).value.kv;
    assert g == Assign(h, Some("a"), Shl(1, 1));
    FlagsAreFlags(ts);
    assert g.keys[0] == None && g.vals[None] == 1 && And(1, 1) != 0;
    assert !NilUnmatched(g, 1);
    ValuesSurvive(g, t, 1);
  }

  /** For a declaration that starts with a symbol, as documented, every value comes back. */
  lemma {:induction false} ValuesSurviveDeclaration(ts: seq<Token>, t: NativeType, v: int)
    requires ts != [] && ts[0].Sym? && Flags(ts).Ok? && t.bits > 0 && Holds(t, v)
    ensures WellFormed(Flags(ts).value.kv)
    ensures ToNative(Flags(ts).value.kv, t, FromNative(Flags(ts).value.kv, t, v)) == Ok(v)
  {
    FlagsAreFlags(ts);
    NoNilKey(ts);
    ValuesSurvive(Flags(ts).value.kv, t, v);
  }

  /** The remainder has no bit in common with a declared flag, unless the type is signed, the flag lies
      beyond its width and the value is negative. */
  lemma {:induction false} RemainderSharesNoFlag(h: Hash, t: NativeType, v: int, j: nat, p: nat)
    requires IsFlags(h) && j < |h.keys| && h.vals[h.keys[j]] == Pow2(p) && t.bits > 0 && Holds(t, v)
    ensures And(Pow2(p), Remainder(h, t, v)) != 0 <==> t.signed && t.bits <= p && v < 0
  {
    DeclaredHas(h, t, v, j, p);
    RemainderBit(h, t, v, p);
    SharesBit(Remainder(h, t, v), p);
  }

  lemma {:induction false} OneFlagAt8()
    ensures Flags([Sym("a"), Num(8)]) == Ok(FlagState(Hash([Some("a")], map[Some("a") := Pow2(8)]), Some("a"), 9))
  {
    var ts := [Sym("a"), Num(8)];
    assert ts[..1] == [Sym("a")] && [Sym("a")][..0] == [];
    assert Flags([]) == Ok(FlagState(EMPTY, None, 0));
    var s := FlagState(Assign(EMPTY, Some("a"), Shl(1, 0)), Some("a"), 1);
    assert Flags([Sym("a")]) == Ok(s);
    assert Flags(ts) == FlagStep(s, Num(8));
    assert Shl(1, 8) == Pow2(8);
    assert Assign(s.kv, Some("a"), Pow2(8)) == Hash([Some("a")], map[Some("a") := Pow2(8)]);
  }

  /** In a signed 8-bit bitmask [:a, 8], the remainder of -1 has the bit of :a. */
  lemma {:induction false} FlagBeyondItsWidth()
    ensures var s := Flags([Sym("a"), Num(8)]);
            && s.Ok? && WellFormed(s.value.kv) && s.value.kv.vals == map[Some("a") := Pow2(8)]
            && And(Pow2(8), Remainder(s.value.kv, NativeType(8, true), -1)) != 0
  {
    OneFlagAt8();
    FlagsAreFlags([Sym("a"), Num(8)]);
    var g := Hash([Some("a")], map[Some("a") := Pow2(8)]);
    RemainderSharesNoFlag(g, NativeType(8, true), -1, 0, 8);
  }

  lemma {:induction false} SharesBit(r: int, p: nat)
    ensures And(Pow2(p), r) != 0 <==> Bit(r, p)
  {
    AndOneBit(r, p);
  }

  /** Which bits the remainder keeps. */
  ghost predicate RemainderHas(h: Hash, t: NativeType, v: int, i: nat)
    requires WellFormed(h)
  {
    if Declared(h, |h.keys|, i) then t.signed && t.bits <= i && Bit(v, i)
    else Bit(v, i) && (t.signed ==> i < t.bits)
  }

  lemma {:induction false} DeclaredHas(h: Hash, t: NativeType, v: int, j: nat, p: nat)
    requires WellFormed(h) && j < |h.keys| && h.vals[h.keys[j]] == Pow2(p) && t.bits > 0 && Holds(t, v)
    ensures RemainderHas(h, t, v, p) <==> t.signed && t.bits <= p && v < 0
  {
    assert Declared(h, |h.keys|, p);
    if t.signed && t.bits <= p {
      SignBits(v, t.bits - 1, p);
    }
  }

  /** Beyond its width a number repeats its sign. */
  lemma {:induction false} SignBits(v: int, n: nat, p: nat)
    requires 0 - Pow2(n) <= v < Pow2(n) && n <= p
    ensures Bit(v, p) <==> v < 0
  {
    if v < 0 {
      BitNot(v, p);
      BitMod(Not(v), n, p);
      ModUnique(Not(v), Pow2(n), 0, Not(v));
    } else {
      BitMod(v, n, p);
      ModUnique(v, Pow2(n), 0, v);
    }
  }

  lemma {:induction false} RemainderBit(h: Hash, t: NativeType, v: int, i: nat)
    requires IsFlags(h)
    ensures Bit(Remainder(h, t, v), i) <==> RemainderHas(h, t, v, i)
  {
    var f := MatchingOr(h, v, |h.keys|);
    var u := if t.signed then And(v, Shl(1, t.bits) - 1) else v;
    MatchingOrBits(h, v, |h.keys|, i);
    BitXor(u, f, i);
    MaskIsMod(v, t.bits);
    BitMod(v, t.bits, i);
  }

  /** Converting a list keeps the or of its elements modulo the type's width; an or that fits the type
      without its sign becomes the value the type has for it. */
  lemma {:induction false} ListConvertsModulo(h: Hash, t: NativeType, vs: seq<RValue>)
    requires t.bits > 0 && OrOf(h, vs).Ok?
    ensures ToNative(h, t, vs).Ok?
    ensures ToNative(h, t, vs).value % Pow2(t.bits) == OrOf(h, vs).value % Pow2(t.bits)
    ensures !t.signed ==> ToNative(h, t, vs).value == OrOf(h, vs).value
    ensures 0 <= OrOf(h, vs).value < Pow2(t.bits) ==> Holds(t, ToNative(h, t, vs).value)
  {
    var x := OrOf(h, vs).value;
    FoldValue(t, x);
    Pow2Half(t.bits);
    NegatedTwice(x, Pow2(t.bits));
  }

  lemma {:induction false} FoldValue(t: NativeType, x: int)
    requires t.bits > 0
    ensures Fold(t, x) == if t.signed && x >= Pow2(t.bits - 1) then -((-x) % Pow2(t.bits)) else x
  {
    assert Shl(1, t.bits - 1) == Pow2(t.bits - 1);
    MaskIsMod(-x, t.bits);
  }

  lemma NegatedTwice(x: int, m: int)
    requires m > 0
    ensures (-((-x) % m)) % m == x % m
    ensures 0 < x < m ==> -((-x) % m) == x - m
  {
    var q := (-x) / m;
    assert -x == q * m + (-x) % m;
    var k := x / m;
    assert x == k * m + x % m;
    assert -((-x) % m) == (k + q) * m + x % m by {
      assert (k + q) * m == k * m + q * m;
    }
    ModUnique(-((-x) % m), m, k + q, x % m);
    if 0 < x < m {
      ModUnique(-x, m, -1, m - x);
    }
  }

  // ---------------------------------------------------------------- the constructor's loop

  lemma {:induction false} FlagsNext(ts: seq<Token>, i: nat)
    requires i < |ts|
    ensures Flags(ts[..i + 1]) == match Flags(ts[..i]) case Err(e) => Err(e) case Ok(s) => FlagStep(s, ts[i])
  {
    assert ts[..i + 1][..i] == ts[..i];
  }

  /** A list whose beginning is refused is refused. */
  lemma {:induction false} FlagsPrefix(ts: seq<Token>, n: nat)
    requires n <= |ts| && Flags(ts[..n]).Err?
    ensures Flags(ts) == Flags(ts[..n])
    decreases |ts|
  {
    if n == |ts| {
      assert ts[..n] == ts;
    } else {
      assert ts[..|ts| - 1][..n] == ts[..n];
      FlagsPrefix(ts[..|ts| - 1], n);
    }
  }

  class Bitmask {
    var kvMap: Hash

    constructor ()
      ensures kvMap == EMPTY
    {
      kvMap := EMPTY;
    }

    /** One turn of the loop: a symbol declares a flag, an integer moves the last one. */
    method Declare(t: Token, last: Key, next: nat) returns (r: Result<(Key, nat), Error>)
      modifies `kvMap
      ensures match FlagStep(FlagState(old(kvMap), last, next), t)
              case Ok(s) => r == Ok((s.last, s.next)) && kvMap == s.kv
              case Err(e) => r == Err(e)
    {
      match t
      case Sym(name) =>
        if Some(name) in kvMap.vals {
          return Err(ArgumentError);
        }
        kvMap := Assign(kvMap, Some(name), Shl(1, next));
        r := Ok((Some(name), next + 1));
      case Num(n) =>
        if n < 0 {
          return Err(ArgumentError);
        }
        kvMap := Assign(kvMap, last, Shl(1, n));
        r := Ok((last, n + 1));
    }

    method Initialize(info: seq<Token>) returns (error: Option<Error>)
      modifies this
      ensures match Flags(info)
              case Ok(s) => error == None && kvMap == s.kv && IsFlags(kvMap)
              case Err(e) => error == Some(e)
    {
      kvMap := EMPTY;
      var last: Key, next: nat := None, 0;
      for i := 0 to |info|
        invariant Flags(info[..i]) == Ok(FlagState(kvMap, last, next))
      {
        FlagsNext(info, i);
        var r := Declare(info[i], last, next);
        if r.Err? {
          FlagsPrefix(info, i + 1);
          return Some(r.error);
        }
        last, next := r.value.0, r.value.1;
      }
      assert info[..|info|] == info;
      FlagsAreFlags(info);
      error := None;
    }
  }
}
