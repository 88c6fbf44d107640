/** The output `ErlNifBinary`: an owned byte array whose length is the
    allocated size (`o.size`), allocated by `enif_alloc_binary`, filled by the
    codec, and resized by `enif_realloc_binary`. */
module NifBinary {
  import opened ErlTerms
  import opened SnappyCodec

  /** Fresh memory. The allocator leaves it uninitialised; the model reads it
      as zeros. */
  function Zeros(n: nat): seq<byte>
  {
    seq(n, _ => 0)
  }

  /** The buffer `buf` after the codec stored `out` at its start; bytes past
      the end of the buffer are not stored. */
  function Overwrite(buf: seq<byte>, out: seq<byte>): seq<byte>
  {
    seq(|buf|, k requires 0 <= k < |buf| => if k < |out| then out[k] else buf[k])
  }

  /** The buffer after a successful `enif_realloc_binary` to `n` bytes: the
      common prefix is kept, any growth is fresh memory. */
  function Resize(buf: seq<byte>, n: nat): seq<byte>
  {
    seq(n, k requires 0 <= k < n => if k < |buf| then buf[k] else 0)
  }

  /** The step `os == o.size || enif_realloc_binary(&o, os)`: keep the buffer
      when it already has the reported length, otherwise ask the allocator to
      resize it. The result, when there is one, has exactly `n` bytes and
      starts with what the buffer held; it is missing exactly when the lengths
      differ and the allocator refuses. */
  function Shrink(buf: seq<byte>, n: nat, heap: Heap): (r: Option<seq<byte>>)
    ensures r.None? <==> n != |buf| && !heap.realloc(|buf|, n)
    ensures r.Some? ==> |r.value| == n
    ensures r.Some? ==> forall k :: 0 <= k < n && k < |buf| ==> r.value[k] == buf[k]
  {
    if n == |buf| then Some(buf)
    else if heap.realloc(|buf|, n) then Some(Resize(buf, n))
    else None
  }

  class Buffer {
    var data: array<byte>

    /** `enif_alloc_binary(size, &o)` once the allocator has agreed. */
    constructor (size: nat)
      ensures fresh(data) && data[..] == Zeros(size)
    {
      data := new byte[size](_ => 0);
    }

    /** The codec stores `out` at the start of the buffer; the allocated size
        does not change. */
    method Store(out: seq<byte>)
      modifies data
      ensures data[..] == Overwrite(old(data[..]), out)
    {
      forall k | 0 <= k < data.Length && k < |out| {
        data[k] := out[k];
      }
    }

    /** `enif_realloc_binary(&o, size)`: on success the buffer has `size`
        bytes and keeps its common prefix; on failure it is left as it was. */
    method Realloc(size: nat, heap: Heap) returns (ok: bool)
      modifies this
      ensures ok == heap.realloc(old(data.Length), size)
      ensures ok ==> fresh(data) && data[..] == Resize(old(data[..]), size)
      ensures !ok ==> data == old(data) && data[..] == old(data[..])
    {
      ok := heap.realloc(data.Length, size);
      if ok {
        var was := data[..];
        data := new byte[size](k requires 0 <= k < size => if k < |was| then was[k] else 0);
      }
    }

    /** `os == o.size || enif_realloc_binary(&o, os)`, with the
        short-circuit: the allocator is asked only when the lengths differ. */
    method FitTo(n: nat, heap: Heap) returns (ok: bool)
      modifies this
      ensures ok == Shrink(old(data[..]), n, heap).Some?
      ensures ok ==> data[..] == Shrink(old(data[..]), n, heap).value
      ensures !ok ==> data[..] == old(data[..])
    {
      ok := n == data.Length;
      if !ok {
        ok := Realloc(n, heap);
      }
    }
  }

  /** `enif_alloc_binary(size, &o)`: a fresh zeroed buffer of `size` bytes,
      or null when the allocator refuses. */
  method Alloc(size: nat, heap: Heap) returns (o: Buffer?)
    ensures (o != null) == heap.alloc(size)
    ensures o != null ==> fresh(o) && fresh(o.data) && o.data[..] == Zeros(size)
  {
    if heap.alloc(size) {
      o := new Buffer(size);
    } else {
      o := null;
    }
  }
}
