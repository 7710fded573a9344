/** The 256-row cache in front of a struct layout's field map. */
module FieldCache {
  import opened Wrappers
  import opened Bits

  /** A Ruby object reference, as the word that identifies it while it does not move. */
  type Value = nat

  /** The identity of a field. */
  type FieldId = nat

  datatype Error = ArgumentError

  datatype Entry = Entry(name: Value, field: FieldId)

  const ROWS := 256

  /** FIELD_CACHE_LOOKUP: the row a name selects. */
  function Row(name: Value): (r: int)
    ensures 0 <= r < ROWS
  {
    RowIsInRange(name);
    And(Shr(name, 8), 0xff)
  }

  lemma RowIsInRange(name: Value)
    ensures 0 <= And(Shr(name, 8), 0xff) < 256
  {
    assert Pow2(8) == 256;
    AndLowMask(Shr(name, 8), 8);
  }

  /** A layout as field accesses see it: its field map, the words that are symbols, and the cache. */
  datatype State = State(fields: map<Value, FieldId>, symbols: set<Value>, rows: seq<Option<Entry>>)

  /** struct_field. */
  function Field(s: State, name: Value): (State, Result<FieldId, Error>)
    requires |s.rows| == ROWS
  {
    var e := s.rows[Row(name)];
    if name !in s.symbols || e.None? || e.value.name != name then
      if name !in s.fields then (s, Err(ArgumentError))
      else
        var f := s.fields[name];
        (s.(rows := s.rows[Row(name) := Some(Entry(name, f))]), Ok(f))
    else (s, Ok(e.value.field))
  }

  /** A compaction of the heap: objects move, each to a place of its own. */
  type Move = map<Value, Value>

  ghost predicate Moves(move: Move, s: State) {
    && s.fields.Keys <= move.Keys && s.symbols <= move.Keys
    && forall a, b :: a in move && b in move && a != b ==> move[a] != move[b]
  }

  function MovedFields(fields: map<Value, FieldId>, move: Move): map<Value, FieldId>
    requires fields.Keys <= move.Keys
    requires forall a, b :: a in move && b in move && a != b ==> move[a] != move[b]
  {
    map k | k in fields :: move[k] := fields[k]
  }

  function EmptyRows(): (r: seq<Option<Entry>>)
    ensures |r| == ROWS && forall i :: 0 <= i < ROWS ==> r[i] == None
  {
    seq(ROWS, i => None)
  }

  /** struct_layout_compact: the keys get their new words and the cache is cleared. */
  function Compact(s: State, move: Move): State
    requires Moves(move, s)
  {
    State(MovedFields(s.fields, move), set k | k in s.symbols :: move[k], EmptyRows())
  }

  // ---------------------------------------------------------------- the cache is invisible

  /** What is cached is what the field map says. */
  ghost predicate Agrees(s: State) {
    && |s.rows| == ROWS
    && forall i :: 0 <= i < ROWS && s.rows[i].Some? ==>
         s.rows[i].value.name in s.fields && s.fields[s.rows[i].value.name] == s.rows[i].value.field
  }

  /** The hash lookup alone. */
  function HashLookup(fields: map<Value, FieldId>, name: Value): Result<FieldId, Error> {
    if name in fields then Ok(fields[name]) else Err(ArgumentError)
  }

  lemma FieldIsHashLookup(s: State, name: Value)
    requires Agrees(s)
    ensures Field(s, name).1 == HashLookup(s.fields, name)
    ensures Agrees(Field(s, name).0) && Field(s, name).0.fields == s.fields && Field(s, name).0.symbols == s.symbols
  {
  }

  /** A symbol's row is its second byte, and once a field has been looked up by a symbol its row holds it. */
  lemma LookupFillsRow(s: State, name: Value)
    requires Agrees(s) && name in s.symbols && name in s.fields
    ensures Row(name) == name / 256 % 256
    ensures Field(s, name).0.rows[Row(name)] == Some(Entry(name, s.fields[name]))
    ensures forall i :: 0 <= i < ROWS && i != Row(name) ==> Field(s, name).0.rows[i] == s.rows[i]
  {
    assert Pow2(8) == 256;
    AndLowMask(Shr(name, 8), 8);
  }

  datatype Op = Access(name: Value) | Compaction(move: Move)

  ghost predicate Allowed(s: State, op: Op) {
    op.Compaction? ==> Moves(op.move, s)
  }

  function Step(s: State, op: Op): (State, Option<Result<FieldId, Error>>)
    requires |s.rows| == ROWS && Allowed(s, op)
  {
    match op
    case Access(name) => var (n, r) := Field(s, name); (n, Some(r))
    case Compaction(move) => (Compact(s, move), None)
  }

  /** A run, and what its accesses answer. */
  ghost predicate Runs(s: State, ops: seq<Op>, answers: seq<Option<Result<FieldId, Error>>>)
    requires |s.rows| == ROWS
    decreases |ops|
  {
    if ops == [] then answers == []
    else
      && Allowed(s, ops[0]) && answers != []
      && var (n, r) := Step(s, ops[0]);
         answers[0] == r && |n.rows| == ROWS && Runs(n, ops[1..], answers[1..])
  }

  /** The same run with no cache at all. */
  ghost predicate RunsUncached(fields: map<Value, FieldId>, ops: seq<Op>, answers: seq<Option<Result<FieldId, Error>>>)
    decreases |ops|
  {
    if ops == [] then answers == []
    else
      && answers != []
      && match ops[0]
         case Access(name) =>
           answers[0] == Some(HashLookup(fields, name)) && RunsUncached(fields, ops[1..], answers[1..])
         case Compaction(move) =>
           && fields.Keys <= move.Keys
           && (forall a, b :: a in move && b in move && a != b ==> move[a] != move[b])
           && answers[0] == None
           && RunsUncached(MovedFields(fields, move), ops[1..], answers[1..])
  }

  /** Over any run of accesses, by colliding symbols, by symbols that are not fields and by other objects,
      and of compactions, the answers are those of the hash alone. */
  lemma {:induction false} CacheIsInvisible(s: State, ops: seq<Op>, answers: seq<Option<Result<FieldId, Error>>>)
    requires Agrees(s) && Runs(s, ops, answers)
    ensures RunsUncached(s.fields, ops, answers)
    decreases |ops|
  {
    if ops != [] {
      if ops[0].Access? {
        FieldIsHashLookup(s, ops[0].name);
      }
      CacheIsInvisible(Step(s, ops[0]).0, ops[1..], answers[1..]);
    }
  }

  /** A compaction changes no answer: the name an object moved to finds what the object's name found before,
      and a word that no object moved to finds nothing. */
  lemma MovedNamesFind(s: State, move: Move, name: Value, other: Value)
    requires Agrees(s) && Moves(move, s) && name in move && other !in move.Values
    ensures var t := Compact(s, move);
            && |t.rows| == ROWS
            && Field(t, move[name]).1 == Field(s, name).1
            && Field(t, other).1 == Err(ArgumentError)
            && (name in s.symbols <==> move[name] in t.symbols)
  {
    var t := Compact(s, move);
    FieldIsHashLookup(s, name);
    FieldIsHashLookup(t, move[name]);
    FieldIsHashLookup(t, other);
    assert name in s.fields <==> move[name] in t.fields;
    assert forall k :: k in s.fields ==> move[k] in move.Values;
  }

  /** Clearing the cache is what makes that true: had the rows been kept, two fields whose names trade
      places would be taken for each other. */
  lemma UnclearedCacheErrs(a: Value, b: Value)
    requires a != b
    ensures var s := Field(State(map[a := 1, b := 2], {a, b}, EmptyRows()), a).0;
            var kept := State(MovedFields(s.fields, map[a := b, b := a]), {a, b}, s.rows);
            |kept.rows| == ROWS && Field(kept, a).1 == Ok(1) && HashLookup(kept.fields, a) == Ok(2)
  {
    var s := Field(State(map[a := 1, b := 2], {a, b}, EmptyRows()), a).0;
    var moved := MovedFields(s.fields, map[a := b, b := a]);
    assert b in s.fields && map[a := b, b := a][b] == a;
    assert a in moved;
  }

  // ---------------------------------------------------------------- in place

  class StructLayout {
    var fields: map<Value, FieldId>
    var symbols: set<Value>
    const rows: array<Option<Entry>>

    function Contents(): State
      reads this, rows
    {
      State(fields, symbols, rows[..])
    }

    ghost predicate Valid()
      reads this, rows
    {
      rows.Length == ROWS && Agrees(Contents())
    }

    constructor (fields: map<Value, FieldId>, symbols: set<Value>)
      ensures Valid() && this.fields == fields && this.symbols == symbols && fresh(rows)
    {
      this.fields, this.symbols := fields, symbols;
      rows := new Option<Entry>[ROWS](_ => None);
    }

    method Lookup(name: Value) returns (r: Result<FieldId, Error>)
      requires Valid()
      modifies rows
      ensures Valid() && (Contents(), r) == Field(old(Contents()), name)
    {
      FieldIsHashLookup(Contents(), name);
      var i := Row(name);
      if name !in symbols || rows[i] == None || rows[i].value.name != name {
        if name !in fields {
          return Err(ArgumentError);
        }
        rows[i] := Some(Entry(name, fields[name]));
      }
      r := Ok(rows[i].value.field);
    }

    method CompactAll(move: Move)
      requires Valid() && Moves(move, Contents())
      modifies this, rows
      ensures Valid() && Contents() == Compact(old(Contents()), move)
    {
      fields := MovedFields(fields, move);
      symbols := set k | k in symbols :: move[k];
      forall i | 0 <= i < rows.Length {
        rows[i] := None;
      }
      assert rows[..] == EmptyRows();
    }
  }
}
