/** Struct objects: field accesses carried out on the memory object behind the struct. */
module Structs {
  import opened Wrappers
  import opened Bits
  import opened Bytes
  import L = StructLayout
  import opened Memory
  import opened StructAccess
  import B = Buffers

  function ErrorOf(r: Result<Storage, Error>): Option<Error> {
    match r case Ok(_) => None case Err(e) => Some(e)
  }

  class Struct {
    const layout: L.Layout
    const members: seq<Member>
    const pointer: B.AbstractMemory

    /** A new struct over memory of its own, of the size its layout has. */
    constructor (layout: L.Layout, members: seq<Member>, base: nat)
      requires LaidOut(layout, members) && Members(members)
      ensures Valid() && this.layout == layout && this.members == members && fresh(pointer)
      ensures forall i :: pointer.address <= i < pointer.address + pointer.size ==> pointer.storage[i] == 0
    {
      this.layout, this.members := layout, members;
      pointer := new B.AbstractMemory.Malloc(layout.size, base, true);
    }

    ghost predicate Valid()
      reads pointer, pointer.storage
    {
      && LaidOut(layout, members) && Members(members)
      && Holds(pointer.storage[..], pointer.AsView(), layout)
    }

    /** []= on a number or on an element of an inline array. */
    method AsetCell(i: nat, j: int, x: int) returns (error: Option<Error>)
      requires Valid() && Names(members, SetCell(i, j, x))
      modifies pointer.storage
      ensures Valid()
      ensures error == None <==> Acceptable(members, SetCell(i, j, x))
      ensures error == ErrorOf(Written(old(pointer.storage[..]), pointer.AsView(), layout, members, SetCell(i, j, x)))
      ensures pointer.storage[..]
           == After(old(pointer.storage[..]), pointer.AsView(), layout, members, SetCell(i, j, x))
    {
      AccessesStayInBounds(pointer.storage[..], pointer.AsView(), layout, members, SetCell(i, j, x));
      assert IsCType(members[i].ctype);
      var offset := CellOffset(layout.fields[i], members[i].ctype, j);
      if offset.Err? {
        return Some(offset.error);
      }
      error := pointer.PutNumber(members[i].ctype.k, offset.value, x);
    }

    /** [] on a number or on an element of an inline array. */
    method ArefCell(i: nat, j: int) returns (r: Result<int, Error>)
      requires Valid() && i < |members|
      ensures r == ReadCell(pointer.storage[..], pointer.AsView(), layout, members, i, j)
    {
      assert IsCType(members[i].ctype);
      var offset := CellOffset(layout.fields[i], members[i].ctype, j);
      if offset.Err? {
        return Err(offset.error);
      }
      r := pointer.GetNumber(members[i].ctype.k, offset.value);
    }

    /** Assigning a string to a char array: put_string when it is shorter, put_bytes when it just fits. */
    method AsetString(i: nat, str: seq<Byte>) returns (error: Option<Error>)
      requires Valid() && Names(members, SetString(i, str)) && FitsLong(|str| + 1)
      modifies pointer.storage
      ensures Valid()
      ensures error == None <==> Acceptable(members, SetString(i, str))
      ensures error == ErrorOf(Written(old(pointer.storage[..]), pointer.AsView(), layout, members, SetString(i, str)))
      ensures pointer.storage[..]
           == After(old(pointer.storage[..]), pointer.AsView(), layout, members, SetString(i, str))
    {
      AccessesStayInBounds(pointer.storage[..], pointer.AsView(), layout, members, SetString(i, str));
      var off, n := layout.fields[i].offset, members[i].ctype.count;
      if |str| < n {
        error := pointer.PutStringAt(off, str);
      } else if |str| == n {
        error := pointer.PutBytesAt(off, str);
      } else {
        error := Some(IndexError);
      }
    }

    /** to_s of a char array. */
    method CharArrayToS(i: nat) returns (r: Result<seq<Byte>, Error>)
      requires Valid() && i < |members|
      ensures r == ReadString(pointer.storage[..], pointer.AsView(), layout, members, i)
    {
      r := pointer.GetStringAt(layout.fields[i].offset, members[i].ctype.count);
    }
  }
}
