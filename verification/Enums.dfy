/** Enumerations: numbering of the constants, and conversion in both directions. */
module Enums {
  import opened Wrappers

  // ---------------------------------------------------------------- hashes

  /** A hash key: a symbol, or nil when a value comes before any symbol. */
  type Key = Option<string>

  /** A Ruby hash from keys to integers, which remembers the order its keys were added in. */
  datatype Hash = Hash(keys: seq<Key>, vals: map<Key, int>)

  const EMPTY: Hash := Hash([], map[])

  /** An existing key keeps its place. */
  function Assign(h: Hash, k: Key, v: int): Hash {
    Hash(if k in h.vals then h.keys else h.keys + [k], h.vals[k := v])
  }

  predicate WellFormed(h: Hash) {
    && (forall i :: 0 <= i < |h.keys| ==> h.keys[i] in h.vals)
    && (forall k :: k in h.vals ==> k in h.keys)
    && (forall i, j :: 0 <= i < j < |h.keys| ==> h.keys[i] != h.keys[j])
  }

  lemma AssignKeepsWellFormed(h: Hash, k: Key, v: int)
    requires WellFormed(h)
    ensures WellFormed(Assign(h, k, v))
  {
    var g := Assign(h, k, v);
    forall q | q in g.vals ensures q in g.keys {
      if q == k && k !in h.vals {
        assert g.keys[|h.keys|] == k;
      } else {
        assert q in h.keys;
      }
    }
  }

  // ---------------------------------------------------------------- numbering

  /** One element of the list an enum is declared with. */
  datatype Token = Sym(name: string) | Num(n: int)

  datatype Error = ArgumentError

  /** The loop's variables: the constants so far, the last one, and the value the next will get. */
  datatype State = State(kv: Hash, last: Key, next: int)

  function Step(s: State, t: Token): Result<State, Error> {
    match t
    case Sym(name) =>
      if Some(name) in s.kv.vals then Err(ArgumentError)
      else Ok(State(Assign(s.kv, Some(name), s.next), Some(name), s.next + 1))
    case Num(n) => Ok(State(Assign(s.kv, s.last, n), s.last, n + 1))
  }

  function Number(ts: seq<Token>): Result<State, Error> {
    if ts == [] then Ok(State(EMPTY, None, 0))
    else
      match Number(ts[..|ts| - 1])
      case Err(e) => Err(e)
      case Ok(s) => Step(s, ts[|ts| - 1])
  }

  lemma {:induction false} NumberIsWellFormed(ts: seq<Token>)
    ensures Number(ts).Ok? ==> WellFormed(Number(ts).value.kv)
  {
    if ts != [] {
      NumberIsWellFormed(ts[..|ts| - 1]);
      if Number(ts[..|ts| - 1]).Ok? {
        var s := Number(ts[..|ts| - 1]).value;
        match ts[|ts| - 1]
        case Sym(name) => AssignKeepsWellFormed(s.kv, Some(name), s.next);
        case Num(n) => AssignKeepsWellFormed(s.kv, s.last, n);
      }
    }
  }

  /** A name and the integers that follow it. C has at most one of them; here the last one counts. */
  datatype Decl = Decl(name: string, inits: seq<int>)

  /** An enum's list: integers before any name, which are filed under nil, and then declarations. */
  datatype Decls = Decls(lead: seq<int>, ds: seq<Decl>)

  /** The value the first constant gets when it has none of its own. */
  function First(lead: seq<int>): int {
    if lead == [] then 0 else lead[|lead| - 1] + 1
  }

  /** Section 6.7.2.2 of ISO/IEC 9899:2011: a constant without a value of its own is one more than the
      constant before it, and the first is 0. */
  function ValueOf(e: Decls, i: nat): int
    requires i < |e.ds|
    decreases i
  {
    var inits := e.ds[i].inits;
    if inits != [] then inits[|inits| - 1]
    else if i == 0 then First(e.lead)
    else ValueOf(e, i - 1) + 1
  }

  function Nums(ns: seq<int>): seq<Token> {
    if ns == [] then [] else Nums(ns[..|ns| - 1]) + [Num(ns[|ns| - 1])]
  }

  function Front(e: Decls): Decls
    requires e.ds != []
  {
    e.(ds := e.ds[..|e.ds| - 1])
  }

  function Tokens(e: Decls): seq<Token>
    decreases |e.ds|
  {
    if e.ds == [] then Nums(e.lead)
    else
      var d := e.ds[|e.ds| - 1];
      Tokens(Front(e)) + [Sym(d.name)] + Nums(d.inits)
  }

  /** Every list there is comes from declarations. */
  lemma {:induction false} EveryListDeclares(ts: seq<Token>)
    ensures exists e: Decls :: Tokens(e) == ts
    decreases |ts|
  {
    if ts == [] {
      assert Tokens(Decls([], [])) == ts;
    } else {
      var n := |ts| - 1;
      EveryListDeclares(ts[..n]);
      var front: Decls :| Tokens(front) == ts[..n];
      assert ts == ts[..n] + [ts[n]];
      OneMoreToken(front, ts[n]);
      assert Tokens(Extended(front, ts[n])) == ts;
    }
  }

  function Extended(e: Decls, t: Token): Decls {
    match t
    case Sym(name) => e.(ds := e.ds + [Decl(name, [])])
    case Num(k) =>
      if e.ds == [] then e.(lead := e.lead + [k])
      else
        var d := e.ds[|e.ds| - 1];
        e.(ds := e.ds[..|e.ds| - 1] + [d.(inits := d.inits + [k])])
  }

  lemma {:induction false} OneMoreToken(e: Decls, t: Token)
    ensures Tokens(Extended(e, t)) == Tokens(e) + [t]
  {
    var x := Extended(e, t);
    match t
    case Sym(name) =>
      assert Front(x) == e;
    case Num(k) =>
      if e.ds == [] {
        assert x.lead[..|e.lead|] == e.lead;
      } else {
        var inits := e.ds[|e.ds| - 1].inits;
        assert Front(x) == Front(e);
        assert (inits + [k])[..|inits|] == inits;
      }
  }

  ghost predicate DistinctNames(ds: seq<Decl>) {
    forall i, j :: 0 <= i < j < |ds| ==> ds[i].name != ds[j].name
  }

  /** The keys in front of the constants: nil, if an integer came before any name. */
  function LeadKeys(lead: seq<int>): seq<Key> {
    if lead == [] then [] else [None]
  }

  /** The constants of the declarations, in order, each with the value C gives it. */
  ghost predicate Numbers(kv: Hash, e: Decls) {
    && |kv.keys| == |LeadKeys(e.lead)| + |e.ds|
    && (e.lead != [] ==> kv.keys[0] == None && None in kv.vals && kv.vals[None] == First(e.lead) - 1)
    && forall i :: 0 <= i < |e.ds| ==> NumbersAt(kv, e, i)
  }

  ghost predicate NumbersAt(kv: Hash, e: Decls, i: int)
    requires 0 <= i < |e.ds| && |kv.keys| == |LeadKeys(e.lead)| + |e.ds|
  {
    var name := Some(e.ds[i].name);
    kv.keys[|LeadKeys(e.lead)| + i] == name && name in kv.vals && kv.vals[name] == ValueOf(e, i)
  }

  lemma {:induction false} ValueOfFront(e: Decls, i: nat)
    requires i < |e.ds| - 1
    ensures ValueOf(Front(e), i) == ValueOf(e, i)
    decreases i
  {
    if i > 0 {
      ValueOfFront(e, i - 1);
    }
  }

  lemma {:induction false} NumberAppend(ts: seq<Token>, t: Token)
    ensures Number(ts + [t]) == match Number(ts) case Err(e) => Err(e) case Ok(s) => Step(s, t)
  {
    assert (ts + [t])[..|ts|] == ts;
  }

  /** Of several integers in a row only the last has an effect. */
  function StepNums(s: State, ns: seq<int>): State {
    if ns == [] then s else State(Assign(s.kv, s.last, ns[|ns| - 1]), s.last, ns[|ns| - 1] + 1)
  }

  lemma OneMoreNum(s: State, ns: seq<int>)
    requires ns != []
    ensures Step(StepNums(s, ns[..|ns| - 1]), Num(ns[|ns| - 1])) == Ok(StepNums(s, ns))
  {
    var n := |ns| - 1;
    if n > 0 {
      assert s.kv.vals[s.last := ns[n - 1]][s.last := ns[n]] == s.kv.vals[s.last := ns[n]];
    }
  }

  lemma {:induction false} NumberNums(ts: seq<Token>, ns: seq<int>)
    requires Number(ts).Ok?
    ensures Number(ts + Nums(ns)) == Ok(StepNums(Number(ts).value, ns))
    decreases |ns|
  {
    if ns == [] {
      assert ts + Nums(ns) == ts;
    } else {
      var n := |ns| - 1;
      var front := Nums(ns[..n]);
      NumberNums(ts, ns[..n]);
      assert ts + Nums(ns) == (ts + front) + [Num(ns[n])];
      NumberAppend(ts + front, Num(ns[n]));
      OneMoreNum(Number(ts).value, ns);
    }
  }

  lemma {:induction false} RefusedNums(ts: seq<Token>, ns: seq<int>)
    requires Number(ts).Err?
    ensures Number(ts + Nums(ns)) == Number(ts)
  {
    assert (ts + Nums(ns))[..|ts|] == ts;
    NumberPrefix(ts + Nums(ns), |ts|);
  }

  /** The loop's work on one declaration. */
  function StepDecl(s: State, d: Decl): Result<State, Error> {
    match Step(s, Sym(d.name))
    case Err(e) => Err(e)
    case Ok(t) => Ok(StepNums(t, d.inits))
  }

  lemma {:induction false} NumberDecl(e: Decls)
    requires e.ds != []
    ensures Number(Tokens(e)) == match Number(Tokens(Front(e)))
                                 case Err(error) => Err(error)
                                 case Ok(s) => StepDecl(s, e.ds[|e.ds| - 1])
  {
    var d, ts := e.ds[|e.ds| - 1], Tokens(Front(e));
    NumberAppend(ts, Sym(d.name));
    if Number(ts + [Sym(d.name)]).Ok? {
      NumberNums(ts + [Sym(d.name)], d.inits);
    } else {
      RefusedNums(ts + [Sym(d.name)], d.inits);
    }
  }

  /** Numbered so far: the constants of the declarations, and what the next one would get. */
  ghost predicate NumberedSo(s: State, e: Decls) {
    && WellFormed(s.kv) && Numbers(s.kv, e)
    && s.next == if e.ds == [] then First(e.lead) else ValueOf(e, |e.ds| - 1) + 1
  }

  /** For every list: the numbering loop gives each constant the value C gives it, where the last of several
      integers counts, and refuses exactly the lists that declare a name twice. */
  lemma {:induction false} NumberingFollowsC(e: Decls)
    ensures Number(Tokens(e)).Ok? <==> DistinctNames(e.ds)
    ensures DistinctNames(e.ds) ==> NumberedSo(Number(Tokens(e)).value, e)
    decreases |e.ds|
  {
    if e.ds == [] {
      NumberNums([], e.lead);
      assert [] + Nums(e.lead) == Nums(e.lead);
    } else {
      NumberingFollowsC(Front(e));
      NumberDecl(e);
      if DistinctNames(Front(e).ds) {
        NumberOneMore(e, Number(Tokens(Front(e))).value);
      }
    }
  }

  lemma {:induction false} NumberOneMore(e: Decls, s: State)
    requires e.ds != [] && DistinctNames(Front(e).ds) && NumberedSo(s, Front(e))
    ensures StepDecl(s, e.ds[|e.ds| - 1]).Ok? <==> DistinctNames(e.ds)
    ensures DistinctNames(e.ds) ==> NumberedSo(StepDecl(s, e.ds[|e.ds| - 1]).value, e)
  {
    var n := |e.ds| - 1;
    NewNameIsDistinct(e, s.kv);
    if Some(e.ds[n].name) !in s.kv.vals {
      NextValue(e);
      StepDeclAssigns(s, e.ds[n], ValueOf(e, n));
      OneMoreKey(e, s.kv);
    }
  }

  /** A declaration of a new name adds one key with one value. */
  lemma StepDeclAssigns(s: State, d: Decl, v: int)
    requires WellFormed(s.kv) && Some(d.name) !in s.kv.vals
    requires v == if d.inits == [] then s.next else d.inits[|d.inits| - 1]
    ensures WellFormed(Assign(s.kv, Some(d.name), v))
    ensures StepDecl(s, d) == Ok(State(Assign(s.kv, Some(d.name), v), Some(d.name), v + 1))
  {
    var name := Some(d.name);
    AssignKeepsWellFormed(s.kv, name, v);
    if d.inits != [] {
      assert s.kv.vals[name := s.next][name := v] == s.kv.vals[name := v];
    }
  }

  lemma {:induction false} OneMoreKey(e: Decls, kv: Hash)
    requires e.ds != [] && Numbers(kv, Front(e)) && Some(e.ds[|e.ds| - 1].name) !in kv.vals
    ensures Numbers(Assign(kv, Some(e.ds[|e.ds| - 1].name), ValueOf(e, |e.ds| - 1)), e)
  {
    var n := |e.ds| - 1;
    var g := Assign(kv, Some(e.ds[n].name), ValueOf(e, n));
    forall i | 0 <= i < |e.ds| ensures NumbersAt(g, e, i) {
      if i < n {
        ValueOfFront(e, i);
        assert NumbersAt(kv, Front(e), i);
      }
    }
  }

  lemma {:induction false} NewNameIsDistinct(e: Decls, kv: Hash)
    requires e.ds != [] && DistinctNames(Front(e).ds) && WellFormed(kv) && Numbers(kv, Front(e))
    ensures Some(e.ds[|e.ds| - 1].name) in kv.vals <==> !DistinctNames(e.ds)
  {
    var n, name, o := |e.ds| - 1, Some(e.ds[|e.ds| - 1].name), |LeadKeys(e.lead)|;
    var front := Front(e).ds;
    if name in kv.vals {
      var q :| 0 <= q < o + n && kv.keys[q] == name;
      assert NumbersAt(kv, Front(e), q - o);
      assert e.ds[q - o].name == e.ds[n].name;
    } else {
      forall i, j | 0 <= i < j < |e.ds| ensures e.ds[i].name != e.ds[j].name {
        assert NumbersAt(kv, Front(e), i);
        if j < n {
          assert front[i].name != front[j].name;
        }
      }
    }
  }

  lemma {:induction false} NextValue(e: Decls)
    requires e.ds != []
    ensures var n := |e.ds| - 1;
            e.ds[n].inits == [] ==>
              ValueOf(e, n) == if n == 0 then First(e.lead) else ValueOf(Front(e), n - 1) + 1
  {
    if |e.ds| > 1 {
      ValueOfFront(e, |e.ds| - 2);
    }
  }

  // ---------------------------------------------------------------- conversion

  /** A Ruby object handed to to_native: what matters is whether it is a symbol, nil, an integer, or
      something that to_int turns into one. */
  datatype RValue = RSym(name: string) | RNil | RInt(n: int) | RObject(toInt: Option<int>)

  /** Hash#invert over the first n keys: for a value several keys have, the last key wins. */
  function Inverted(h: Hash, n: nat): map<int, Key>
    requires WellFormed(h) && n <= |h.keys|
  {
    if n == 0 then map[] else Inverted(h, n - 1)[h.vals[h.keys[n - 1]] := h.keys[n - 1]]
  }

  /** Key i is the last of the first n to have its value. */
  ghost predicate LastWithValue(h: Hash, n: nat, i: nat)
    requires WellFormed(h) && i < n <= |h.keys|
  {
    forall j :: i < j < n ==> h.vals[h.keys[j]] != h.vals[h.keys[i]]
  }

  lemma {:induction false} InvertedIsLast(h: Hash, n: nat, i: nat)
    requires WellFormed(h) && i < n <= |h.keys|
    ensures h.vals[h.keys[i]] in Inverted(h, n)
    ensures Inverted(h, n)[h.vals[h.keys[i]]] == h.keys[i] <==> LastWithValue(h, n, i)
    decreases n
  {
    if i < n - 1 {
      InvertedIsLast(h, n - 1, i);
    }
  }

  lemma {:induction false} InvertedComesFromKeys(h: Hash, n: nat, v: int)
    requires WellFormed(h) && n <= |h.keys| && v in Inverted(h, n)
    ensures Inverted(h, n)[v] in h.vals && h.vals[Inverted(h, n)[v]] == v
    decreases n
  {
    if v != h.vals[h.keys[n - 1]] {
      InvertedComesFromKeys(h, n - 1, v);
    }
  }

  function KeyOf(v: RValue): Option<Key> {
    match v
    case RSym(name) => Some(Some(name))
    case RNil => Some(None)
    case _ => None
  }

  function ToNative(kv: Hash, v: RValue): Result<int, Error> {
    var k := KeyOf(v);
    if k.Some? && k.value in kv.vals then Ok(kv.vals[k.value])
    else
      match v
      case RInt(n) => Ok(n)
      case RObject(Some(n)) => Ok(n)
      case _ => Err(ArgumentError)
  }

  /** What to_native answers: a symbol is converted exactly if it is a key, and then to that key's value, nil
      likewise; an integer is itself, whether it has a name or not; any other object is what to_int makes of
      it, if it has one. */
  lemma ToNativeAnswers(kv: Hash, name: string, n: int, toInt: Option<int>)
    requires WellFormed(kv)
    ensures ToNative(kv, RSym(name)).Ok? <==> Some(name) in kv.keys
    ensures Some(name) in kv.keys ==> ToNative(kv, RSym(name)) == Ok(kv.vals[Some(name)])
    ensures ToNative(kv, RNil).Ok? <==> None in kv.keys
    ensures None in kv.keys ==> ToNative(kv, RNil) == Ok(kv.vals[None])
    ensures ToNative(kv, RInt(n)) == Ok(n)
    ensures ToNative(kv, RObject(toInt)).Ok? <==> toInt.Some?
    ensures toInt.Some? ==> ToNative(kv, RObject(toInt)) == Ok(toInt.value)
  {
    assert Some(name) in kv.keys <==> Some(name) in kv.vals by {
      KeysAreDomain(kv, Some(name));
    }
    assert None in kv.keys <==> None in kv.vals by {
      KeysAreDomain(kv, None);
    }
  }

  lemma KeysAreDomain(kv: Hash, k: Key)
    requires WellFormed(kv)
    ensures k in kv.keys <==> k in kv.vals
  {
    if k in kv.keys {
      var i :| 0 <= i < |kv.keys| && kv.keys[i] == k;
    }
  }

  /** A value without a symbol, or whose key is nil, stays a number. */
  function FromNative(vk: map<int, Key>, v: int): RValue {
    if v in vk && vk[v].Some? then RSym(vk[v].value) else RInt(v)
  }

  /** Every integer survives the way to Ruby and back, named or not. */
  lemma IntegersSurvive(h: Hash, v: int)
    requires WellFormed(h)
    ensures ToNative(h, FromNative(Inverted(h, |h.keys|), v)) == Ok(v)
  {
    if v in Inverted(h, |h.keys|) {
      InvertedComesFromKeys(h, |h.keys|, v);
    }
  }

  /** A symbol survives the way to C and back exactly when no later key shares its value. */
  lemma SymbolSurvives(h: Hash, i: nat)
    requires WellFormed(h) && i < |h.keys| && h.keys[i].Some?
    ensures var s := RSym(h.keys[i].value);
            && ToNative(h, s).Ok?
            && (FromNative(Inverted(h, |h.keys|), ToNative(h, s).value) == s <==> LastWithValue(h, |h.keys|, i))
  {
    InvertedIsLast(h, |h.keys|, i);
  }

  /** Key i is a symbol, and the last key with value v. */
  ghost predicate NamesValue(h: Hash, i: nat, v: int)
    requires WellFormed(h) && i < |h.keys|
  {
    h.keys[i].Some? && h.vals[h.keys[i]] == v && LastWithValue(h, |h.keys|, i)
  }

  /** from_native yields a symbol exactly for the values of a last key that is one, namely that key, and
      otherwise the number itself. */
  lemma {:induction false} FromNativeAnswers(h: Hash, v: int)
    requires WellFormed(h)
    ensures var r := FromNative(Inverted(h, |h.keys|), v);
            if exists i :: 0 <= i < |h.keys| && NamesValue(h, i, v)
            then r.RSym? && Some(r.name) in h.vals && h.vals[Some(r.name)] == v
            else r == RInt(v)
  {
    var n := |h.keys|;
    if v in Inverted(h, n) {
      InvertedComesFromKeys(h, n, v);
      KeysAreDomain(h, Inverted(h, n)[v]);
      var i :| 0 <= i < n && h.keys[i] == Inverted(h, n)[v];
      InvertedIsLast(h, n, i);
      assert h.keys[i].Some? ==> NamesValue(h, i, v);
    }
    forall i | 0 <= i < n && h.vals[h.keys[i]] == v && LastWithValue(h, n, i)
      ensures v in Inverted(h, n) && Inverted(h, n)[v] == h.keys[i]
    {
      InvertedIsLast(h, n, i);
    }
  }

  // ---------------------------------------------------------------- the class

  class Enum {
    var kvMap: Hash
    var vkMap: map<int, Key>

    ghost predicate Valid()
      reads this
    {
      WellFormed(kvMap) && vkMap == Inverted(kvMap, |kvMap.keys|)
    }

    constructor ()
      ensures Valid()
    {
      kvMap, vkMap := EMPTY, map[];
    }

    /** The body of initialize: number the constants, then invert the map. */
    method Initialize(info: seq<Token>) returns (error: Option<Error>)
      modifies this
      ensures match Number(info)
              case Ok(s) => error == None && Valid() && kvMap == s.kv
              case Err(e) => error == Some(e)
    {
      NumberIsWellFormed(info);
      kvMap := EMPTY;
      var lastCst: Key, value := None, 0;
      for i := 0 to |info|
        invariant Number(info[..i]) == Ok(State(kvMap, lastCst, value))
      {
        NumberNext(info, i);
        match info[i]
        case Sym(name) =>
          if Some(name) in kvMap.vals {
            NumberPrefix(info, i + 1);
            return Some(ArgumentError);
          }
          kvMap := Assign(kvMap, Some(name), value);
          lastCst := Some(name);
          value := value + 1;
        case Num(n) =>
          kvMap := Assign(kvMap, lastCst, n);
          value := n + 1;
      }
      assert info[..|info|] == info;
      vkMap := Invert(kvMap);
      error := None;
    }

    method Convert(v: RValue) returns (r: Result<int, Error>)
      ensures r == ToNative(kvMap, v)
    {
      var k := KeyOf(v);
      if k.Some? && k.value in kvMap.vals {
        return Ok(kvMap.vals[k.value]);
      }
      match v
      case RInt(n) => r := Ok(n);
      case RObject(Some(n)) => r := Ok(n);
      case _ => r := Err(ArgumentError);
    }
  }

  lemma {:induction false} NumberNext(ts: seq<Token>, i: nat)
    requires i < |ts|
    ensures Number(ts[..i + 1]) == match Number(ts[..i]) case Err(e) => Err(e) case Ok(s) => Step(s, ts[i])
  {
    assert ts[..i + 1] == ts[..i] + [ts[i]];
    NumberAppend(ts[..i], ts[i]);
  }

  /** A list whose beginning is refused is refused. */
  lemma {:induction false} NumberPrefix(ts: seq<Token>, n: nat)
    requires n <= |ts| && Number(ts[..n]).Err?
    ensures Number(ts) == Number(ts[..n])
    decreases |ts|
  {
    if n == |ts| {
      assert ts[..n] == ts;
    } else {
      assert ts[..|ts| - 1][..n] == ts[..n];
      NumberPrefix(ts[..|ts| - 1], n);
    }
  }

  method Invert(kv: Hash) returns (vk: map<int, Key>)
    requires WellFormed(kv)
    ensures vk == Inverted(kv, |kv.keys|)
  {
    vk := map[];
    for i := 0 to |kv.keys|
      invariant vk == Inverted(kv, i)
    {
      vk := vk[kv.vals[kv.keys[i]] := kv.keys[i]];
    }
  }
}
