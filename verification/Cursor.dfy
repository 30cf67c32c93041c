/** The bounds-checked cursor every parser advances. */
module Cursor {
  import opened Wire

  class SliceCursor {
    const data: Bytes
    var pos: nat

    ghost predicate Valid()
      reads this
    {
      pos <= |data|
    }

    constructor (data: Bytes)
      ensures Valid() && this.data == data && pos == 0
    {
      this.data := data;
      pos := 0;
    }

    predicate IsEmpty()
      reads this
    {
      pos >= |data|
    }

    /** Reads exactly `n` bytes; a failed read does not move the cursor. */
    method ReadSlice(n: nat) returns (r: Result<Bytes>)
      requires Valid()
      modifies this
      ensures Valid()
      ensures r.Ok? <==> old(pos) + n <= |data|
      ensures r.Ok? ==> r.value == data[old(pos)..old(pos) + n] && pos == old(pos) + n
      ensures r.Err? ==> r.error == UnexpectedEof && pos == old(pos)
    {
      var end := pos + n;
      if end > |data| {
        return Err(UnexpectedEof);
      }
      r := Ok(data[pos..end]);
      pos := end;
    }

    method ReadU16() returns (r: Result<U16>)
      requires Valid()
      modifies this
      ensures Valid()
      ensures r.Ok? <==> old(pos) + 2 <= |data|
      ensures r.Ok? ==> r.value == U16At(data, old(pos)) && pos == old(pos) + 2
      ensures r.Err? ==> r.error == UnexpectedEof && pos == old(pos)
    {
      var b :- ReadSlice(2);
      r := Ok(U16At(b, 0));
    }

    method ReadU32() returns (r: Result<U32>)
      requires Valid()
      modifies this
      ensures Valid()
      ensures r.Ok? <==> old(pos) + 4 <= |data|
      ensures r.Ok? ==> r.value == U32At(data, old(pos)) && pos == old(pos) + 4
      ensures r.Err? ==> r.error == UnexpectedEof && pos == old(pos)
    {
      var b :- ReadSlice(4);
      r := Ok(U32At(b, 0));
    }

    /** Looks at the next `n` bytes without advancing. */
    method PeekBytes(n: nat) returns (r: Option<Bytes>)
      requires Valid()
      ensures r.Some? <==> pos + n <= |data|
      ensures r.Some? ==> r.value == data[pos..pos + n]
    {
      var end := pos + n;
      if end > |data| {
        return None;
      }
      return Some(data[pos..end]);
    }

    /** A cursor over the next `n` bytes, which this cursor skips. */
    method SubCursor(n: nat) returns (r: Result<SliceCursor>)
      requires Valid()
      modifies this
      ensures Valid()
      ensures r.Ok? <==> old(pos) + n <= |data|
      ensures r.Ok? ==> fresh(r.value) && r.value.Valid() && r.value.pos == 0
                        && r.value.data == data[old(pos)..old(pos) + n] && pos == old(pos) + n
      ensures r.Err? ==> r.error == UnexpectedEof && pos == old(pos)
    {
      var slice :- ReadSlice(n);
      var sub := new SliceCursor(slice);
      return Ok(sub);
    }
  }
}
