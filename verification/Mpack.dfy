/**
 The two mpack objects every codec drives step by step: a reader over a buffer in memory
 and a growable writer.  Their methods are proved against the reader state of module Wire.
 Tracking (MPACK_READ_TRACKING, MPACK_WRITE_TRACKING) is off, so the done_ and finish_
 calls have no effect and do not appear.
 */
module Mpack {
  import opened Wire

  class MpackReader {
    const data: Bytes
    var pos: nat
    var end: nat
    var error: bool

    ghost predicate Valid()
      reads this
    {
      pos <= end <= |data| && (error ==> pos == end)
    }

    ghost function View(): (r: Reader)
      requires Valid()
      reads this
      ensures r.Valid()
    {
      Reader(data[pos..end], error)
    }

    constructor (data: Bytes)
      ensures Valid() && View() == Reader(data, false)
      ensures this.data == data && end == |data|
    {
      this.data := data;
      pos, end, error := 0, |data|, false;
    }

    /** mpack_reader_flag_error. */
    method Flag()
      requires Valid()
      modifies this
      ensures Valid() && View() == FAILED
    {
      if !error {
        error, end := true, pos;
      }
    }

    method ReadTag() returns (tag: Tag)
      requires Valid()
      modifies this
      ensures Valid() && (tag, View()) == Wire.ReadTag(old(View()))
    {
      if error {
        return TNil;
      }
      var parsed := ParseTag(data[pos..end]);
      if parsed.None? {
        Flag();
        return TNil;
      }
      assert data[pos..end][parsed.value.1..] == data[pos + parsed.value.1..end];
      pos := pos + parsed.value.1;
      tag := parsed.value.0;
    }

    method PeekTag() returns (tag: Tag)
      requires Valid()
      modifies this
      ensures Valid() && (tag, View()) == Wire.PeekTag(old(View()))
    {
      if error {
        return TNil;
      }
      var parsed := ParseTag(data[pos..end]);
      if parsed.None? {
        Flag();
        return TNil;
      }
      tag := parsed.value.0;
    }

    method ReadBytes(n: nat) returns (bytes: Bytes)
      requires Valid()
      modifies this
      ensures Valid() && (bytes, View()) == Wire.ReadBytes(old(View()), n)
    {
      if error || end - pos < n {
        Flag();
        return Zeros(n);
      }
      bytes := data[pos..pos + n];
      assert data[pos..end][..n] == bytes;
      assert data[pos..end][n..] == data[pos + n..end];
      pos := pos + n;
    }

    /** mpack_reader_remaining. */
    method Remaining() returns (n: nat)
      requires Valid()
      ensures n == |View().rest|
    {
      n := if error then 0 else end - pos;
    }
  }

  class MpackWriter {
    var buffer: Bytes
    var error: bool

    constructor ()
      ensures buffer == [] && !error
    {
      buffer, error := [], false;
    }

    method Flag()
      modifies this`error
      ensures error
    {
      error := true;
    }

    method Tag(t: Tag)
      modifies this`buffer
      ensures buffer == old(buffer) + WriteTag(t)
    {
      buffer := buffer + WriteTag(t);
    }

    method Raw(bytes: Bytes)
      modifies this`buffer
      ensures buffer == old(buffer) + bytes
    {
      buffer := buffer + bytes;
    }
  }
}
