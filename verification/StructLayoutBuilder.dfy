/** The mutable builder behind Struct.layout, and the two loops that drive and finish it. */
module StructLayoutBuilders {
  import opened Wrappers
  import opened StructLayout

  // ---------------------------------------------------------------- what a layout specification says

  /** One element of the list given to Struct.layout: a symbol, a string, a type or an integer. */
  datatype Token = Sym(name: string) | Str(name: string) | Ty(ty: FieldType) | Int(n: int)

  /** A field's name may be a symbol or a string, which is interned. */
  predicate IsName(t: Token) {
    t.Sym? || t.Str?
  }

  /** The types a struct's module knows by name. */
  type Typedefs = map<string, FieldType>

  function FindType(t: Token, defs: Typedefs): Option<FieldType> {
    match t
    case Sym(name) => if name in defs then Some(defs[name]) else None
    case Ty(ty) => Some(ty)
    case Str(_) => None
    case Int(_) => None
  }

  /** How many elements the first field takes: a name, a type, and an offset if an integer comes next. */
  function FieldLength(spec: seq<Token>): nat {
    if |spec| > 2 && spec[2].Int? then 3 else 2
  }

  function FirstField(spec: seq<Token>, defs: Typedefs): Option<FieldSpec> {
    if |spec| < 2 || !IsName(spec[0]) then None
    else
      match FindType(spec[1], defs)
      case None => None
      case Some(ty) => Some(FieldSpec(spec[0].name, ty, if FieldLength(spec) == 3 then Some(spec[2].n) else None))
  }

  /** A specification that starts with a run of well-formed fields and then perhaps something else. */
  datatype Parsed = Parsed(fields: seq<FieldSpec>, complete: bool)

  function Parse(spec: seq<Token>, defs: Typedefs): Parsed
    decreases |spec|
  {
    if spec == [] then Parsed([], true)
    else
      match FirstField(spec, defs)
      case None => Parsed([], false)
      case Some(f) =>
        var rest := Parse(spec[FieldLength(spec)..], defs);
        Parsed([f] + rest.fields, rest.complete)
  }

  /** The list a programmer writes for these fields, giving some of the names as strings. */
  function Written(fields: seq<FieldSpec>, strings: set<string>): seq<Token> {
    if fields == [] then []
    else
      var f := fields[0];
      [if f.name in strings then Str(f.name) else Sym(f.name), Ty(f.ty)]
      + (if f.offset.Some? then [Int(f.offset.value)] else [])
      + Written(fields[1..], strings)
  }

  /** Reading a specification back gives the fields it was written from, each with its own offset. */
  lemma {:induction false} ParseReadsWhatIsWritten(fields: seq<FieldSpec>, strings: set<string>, defs: Typedefs)
    ensures Parse(Written(fields, strings), defs) == Parsed(fields, true)
  {
    if fields != [] {
      var spec := Written(fields, strings);
      ParseReadsWhatIsWritten(fields[1..], strings, defs);
      WrittenStartsWithName(fields[1..], strings);
      assert FirstField(spec, defs) == Some(fields[0]);
      assert spec[FieldLength(spec)..] == Written(fields[1..], strings);
      assert [fields[0]] + fields[1..] == fields;
    }
  }

  lemma WrittenStartsWithName(fields: seq<FieldSpec>, strings: set<string>)
    ensures fields != [] ==> Written(fields, strings) != [] && IsName(Written(fields, strings)[0])
    ensures fields == [] ==> Written(fields, strings) == []
  {
  }

  /** A token stands for a type: the type itself, or a symbol that names it. */
  predicate Denotes(t: Token, ty: FieldType, defs: Typedefs) {
    t == Ty(ty) || (t.Sym? && t.name in defs && defs[t.name] == ty)
  }

  /** The specification spells these fields: each by its name, something that stands for its type, and its
      offset if it has one. */
  predicate Spells(spec: seq<Token>, fields: seq<FieldSpec>, defs: Typedefs)
    decreases |fields|
  {
    if fields == [] then spec == []
    else
      var f := fields[0];
      var n := if f.offset.Some? then 3 else 2;
      && |spec| >= n && IsName(spec[0]) && spec[0].name == f.name && Denotes(spec[1], f.ty, defs)
      && (f.offset.Some? ==> spec[2] == Int(f.offset.value))
      && Spells(spec[n..], fields[1..], defs)
  }

  /** The loop reads fields from a specification exactly if it spells them. */
  lemma {:induction false} ParseReadsExactly(spec: seq<Token>, fields: seq<FieldSpec>, defs: Typedefs)
    ensures Parse(spec, defs) == Parsed(fields, true) <==> Spells(spec, fields, defs)
    decreases |spec|
  {
    if spec != [] && fields != [] {
      var first := FirstField(spec, defs);
      if first == Some(fields[0]) {
        ParseReadsExactly(spec[FieldLength(spec)..], fields[1..], defs);
        assert fields == [fields[0]] + fields[1..];
      } else if first.Some? {
        assert Parse(spec, defs).fields[0] == first.value;
      }
      if Spells(spec, fields, defs) {
        SpellsStart(spec, fields, defs);
      }
    }
  }

  /** What follows a field without an offset is no integer, so the first field is read as it was spelt. */
  lemma {:induction false} SpellsStart(spec: seq<Token>, fields: seq<FieldSpec>, defs: Typedefs)
    requires fields != [] && Spells(spec, fields, defs)
    ensures FirstField(spec, defs) == Some(fields[0])
    ensures FieldLength(spec) == if fields[0].offset.Some? then 3 else 2
  {
    if fields[0].offset.None? && |spec| > 2 {
      assert spec[2..][0] == spec[2];
      assert fields[1..] != [] && IsName(spec[2..][0]);
    }
  }

  /** Adding what was parsed, then failing if something else followed. */
  function AddParsed(b: Builder, p: Parsed): Result<Builder, Error> {
    match AddAll(b, p.fields)
    case Err(e) => Err(e)
    case Ok(c) => if p.complete then Ok(c) else Err(TypeError)
  }

  lemma {:induction false} AddAllFromFront(b: Builder, f: FieldSpec, rest: seq<FieldSpec>)
    ensures AddAll(b, [f] + rest) == match Add(b, f) case Err(e) => Err(e) case Ok(c) => AddAll(c, rest)
    decreases |rest|
  {
    var all := [f] + rest;
    if rest == [] {
      assert all[..|all| - 1] == [];
      assert all == [f];
    } else {
      assert all[..|all| - 1] == [f] + rest[..|rest| - 1];
      AddAllFromFront(b, f, rest[..|rest| - 1]);
    }
  }

  /** A specification is added one field at a time. */
  lemma AddParsedUnfolds(b: Builder, spec: seq<Token>, defs: Typedefs)
    requires spec != []
    ensures AddParsed(b, Parse(spec, defs)) ==
            match FirstField(spec, defs)
            case None => Err(TypeError)
            case Some(f) =>
              match Add(b, f)
              case Err(e) => Err(e)
              case Ok(c) => AddParsed(c, Parse(spec[FieldLength(spec)..], defs))
  {
    match FirstField(spec, defs)
    case None =>
      assert AddAll(b, []) == Ok(b);
    case Some(f) =>
      AddAllFromFront(b, f, Parse(spec[FieldLength(spec)..], defs).fields);
  }

  // ---------------------------------------------------------------- the builder

  class StructLayoutBuilder {
    var size: int
    var alignment: int
    var minAlignment: int
    var packed: Option<int>
    var union: bool
    var fields: seq<Field>

    function State(): Builder
      reads this
    {
      Builder(size, alignment, minAlignment, packed, union, fields)
    }

    constructor ()
      ensures State() == Initial()
    {
      size, alignment, minAlignment, packed, union, fields := 0, 1, 1, None, false, [];
    }

    method SetSize(n: int)
      modifies `size
      ensures State() == WithSize(old(State()), n)
    {
      if n > size {
        size := n;
      }
    }

    method SetAlignment(align: int)
      modifies `alignment, `minAlignment
      ensures State() == WithAlignment(old(State()), align)
    {
      if align > alignment {
        alignment := align;
      }
      minAlignment := align;
    }

    method SetUnion(isUnion: bool)
      modifies `union
      ensures State() == old(State()).(union := isUnion)
    {
      union := isUnion;
    }

    method SetPacked(p: PackedArg)
      modifies `alignment, `packed
      ensures State() == WithPacked(old(State()), p)
    {
      match p
      case PackedInt(n) =>
        alignment := n;
        packed := Some(n);
      case PackedFlag(on) =>
        packed := Some(if on then 1 else 0);
    }

    method AddField(name: string, ty: FieldType, offset: Option<int>) returns (error: Option<Error>)
      modifies this
      ensures match Add(old(State()), FieldSpec(name, ty, offset))
              case Ok(b) => error == None && State() == b
              case Err(e) => error == Some(e) && State() == old(State())
    {
      var o := 0;
      if offset == None || offset == Some(-1) {
        if !union {
          var align := if packed.Some? then Min(packed.value, ty.align) else Max(minAlignment, ty.align);
          o := RubyAlign(size, align);
        }
      } else {
        o := offset.value;
      }
      match ToUInt(o) {
        case Err(e) =>
          return Some(e);
        case Ok(stored) =>
          fields := fields + [Field(name, stored, ty)];
          if packed == None {
            alignment := Max(alignment, ty.align);
          }
          size := Max(size, ty.size + if union then 0 else stored);
          return None;
      }
    }

    /** The loop over a layout specification, reading two or three elements at a time. */
    method ArrayLayout(spec: seq<Token>, defs: Typedefs) returns (error: Option<Error>)
      modifies this
      ensures match AddParsed(old(State()), Parse(spec, defs))
              case Ok(b) => error == None && State() == b
              case Err(e) => error == Some(e)
    {
      var i := 0;
      assert spec[0..] == spec;
      while i < |spec|
        invariant 0 <= i <= |spec|
        invariant AddParsed(State(), Parse(spec[i..], defs)) == AddParsed(old(State()), Parse(spec, defs))
      {
        ghost var rest := spec[i..];
        ghost var before := State();
        AddParsedUnfolds(State(), rest, defs);
        var name := spec[i];
        if i + 1 == |spec| || !IsName(name) {
          return Some(TypeError);
        }
        var ty := FindType(spec[i + 1], defs);
        if ty == None {
          return Some(TypeError);
        }
        i := i + 2;
        var offset: Option<int> := None;
        if i < |spec| && spec[i].Int? {
          offset := Some(spec[i].n);
          i := i + 1;
        }
        assert FirstField(rest, defs) == Some(FieldSpec(name.name, ty.value, offset));
        assert rest[FieldLength(rest)..] == spec[i..];
        error := AddField(name.name, ty.value, offset);
        if error != None {
          return;
        }
      }
      error := None;
    }

    method BuildLayout() returns (r: Result<Layout, Error>)
      ensures r == Build(State())
    {
      var total := if packed.Some? then size else RubyAlign(size, alignment);
      r := Initialize(fields, total, alignment);
    }
  }

  /** StructLayout#initialize: the loop that checks the fields and files them by name. */
  method Initialize(fields: seq<Field>, size: int, align: int) returns (r: Result<Layout, Error>)
    ensures r == Initialized(fields, size, align)
  {
    if !FitsInt(size) || !FitsInt(align) {
      return Err(RangeError);
    }
    var total := ToInt32(CAlign(size, align));
    var fieldMap := map[];
    var i := 0;
    while i < |fields|
      invariant 0 <= i <= |fields|
      invariant fieldMap == FieldMap(fields[..i])
      invariant forall j :: 0 <= j < i && j < |fields| - 1 ==> fields[j].ty.size != 0
    {
      if fields[i].ty.size == 0 && i < |fields| - 1 {
        return Err(TypeError);
      }
      fieldMap := fieldMap[fields[i].name := fields[i]];
      assert fields[..i + 1][..i] == fields[..i];
      i := i + 1;
    }
    assert fields[..i] == fields;
    if total == 0 {
      return Err(RuntimeError);
    }
    r := Ok(Layout(fields, fieldMap, total, align));
  }

  /** Struct.layout for one class: its settings, then its fields, then its size. */
  method LayOut(s: Settings, spec: seq<Token>, defs: Typedefs) returns (r: Result<Layout, Error>)
    ensures match AddParsed(Prepared(s), Parse(spec, defs))
            case Ok(_) => r == LayoutOf(s, Parse(spec, defs).fields)
            case Err(e) => r == Err(e)
  {
    var builder := new StructLayoutBuilder();
    builder.SetUnion(s.union);
    if s.packed.Some? {
      builder.SetPacked(s.packed.value);
    }
    if s.min.Some? {
      builder.SetAlignment(s.min.value);
    }
    assert builder.State() == Prepared(s);
    var error := builder.ArrayLayout(spec, defs);
    if error.Some? {
      return Err(error.value);
    }
    if s.size.Some? && s.size.value > builder.size {
      builder.SetSize(s.size.value);
    }
    r := builder.BuildLayout();
  }
}
