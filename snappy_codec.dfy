/** The external pieces the NIFs call but do not contain: the Snappy C codec
    (`snappy-c.h`) and the Erlang binary allocator. Both are modelled only by
    the outcomes they can report, as total functions chosen by the caller of
    the model. */
module SnappyCodec {
  import opened ErlTerms

  /** `snappy_status`: the three named values, plus any other value the enum
      might carry. */
  datatype Status = Ok | InvalidInput | BufferTooSmall | Unrecognised(code: int)

  /** What `snappy_compress` / `snappy_uncompress` report: the status, the
      length written back through the `size_t *` argument, and the bytes stored
      into the output buffer (only the first `capacity` of them fit). */
  datatype Written = Written(status: Status, size: nat, bytes: seq<byte>)

  /** What `snappy_uncompressed_length` reports: the status and the length. */
  datatype Report = Report(status: Status, size: nat)

  /** The codec, seen only through what each entry point returns for an input
      (and, for the two that write, for the capacity of the buffer given). */
  datatype Codec = Codec(
    maxCompressedLength: nat -> nat,
    compress: (seq<byte>, nat) -> Written,
    uncompressedLength: seq<byte> -> Report,
    uncompress: (seq<byte>, nat) -> Written,
    validate: seq<byte> -> Status)

  /** The allocator: whether `enif_alloc_binary(size)` succeeds, and whether
      `enif_realloc_binary` from one size to another succeeds. */
  datatype Heap = Heap(alloc: nat -> bool, realloc: (nat, nat) -> bool)

  /** The contract the Snappy library documents for one input `x`: compressing
      into a buffer of `snappy_max_compressed_length` bytes succeeds, reports a
      length that fits the buffer and writes at least that many bytes; the
      result then validates, announces `|x|` as its uncompressed length, and
      decompresses into a buffer of that length to exactly `x`. */
  ghost predicate LawfulOn(c: Codec, x: seq<byte>)
  {
    var cap := c.maxCompressedLength(|x|);
    var w := c.compress(x, cap);
    w.status == Ok && w.size <= cap && w.size <= |w.bytes| &&
    var y := w.bytes[..w.size];
    c.validate(y) == Ok &&
    c.uncompressedLength(y) == Report(Ok, |x|) &&
    c.uncompress(y, |x|) == Written(Ok, |x|, x)
  }

  /** A codec that keeps that contract on every input. */
  ghost predicate Lawful(c: Codec)
  {
    forall x :: LawfulOn(c, x)
  }

  /** An allocator that never refuses. */
  ghost predicate Ample(h: Heap)
  {
    (forall n :: h.alloc(n)) && (forall m, n :: h.realloc(m, n))
  }
}
