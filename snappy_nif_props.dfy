/** What the NIF decision logic guarantees, stated over all codec, allocator
    and argument outcomes. */
module SnappyNifProps {
  import opened ErlTerms
  import opened SnappyCodec
  import opened NifBinary
  import opened SnappyNif

  /** The bare reply of zip/unzip turned into the tagged reply of
      compress/uncompress: a binary is wrapped in `{ok, _}`, everything else
      is passed on unchanged. */
  function Tagged(r: Reply): Reply
  {
    match r
    case Returns(Binary(b)) => Returns(MakeOk(Binary(b)))
    case _ => r
  }

  /** zip and compress run the same decision logic and differ only in the
      `{ok, _}` wrapper around a successful result. */
  lemma ZipCompressAgree(arg: Arg, codec: Codec, heap: Heap)
    ensures CompressReply(arg, codec, heap) == Tagged(ZipReply(arg, codec, heap))
  {
  }

  /** unzip and uncompress run the same decision logic and differ only in the
      `{ok, _}` wrapper around a successful result. */
  lemma UnzipUncompressAgree(arg: Arg, codec: Codec, heap: Heap)
    ensures UncompressReply(arg, codec, heap) == Tagged(UnzipReply(arg, codec, heap))
  {
  }

  /** The full decision table of the compress paths: which allocator and
      codec outcomes give a binary, `insufficient_memory` or `unknown`. An
      `SNAPPY_OK` whose shrink fails is reported as `insufficient_memory`, and
      `SNAPPY_INVALID_INPUT` from the compressor as `unknown`. A binary is never
      longer than the allocated maximum when the codec's reported size fits
      the buffer it was given. */
  lemma CompressDecisionTable(input: seq<byte>, codec: Codec, heap: Heap)
    ensures var cap := codec.maxCompressedLength(|input|);
            var w := codec.compress(input, cap);
            var o := CompressOutcome(input, codec, heap);
            && (o.Produced? <==>
                  heap.alloc(cap) && w.status == Ok && (w.size == cap || heap.realloc(cap, w.size)))
            && (o == Failed(AtomInsufficientMemory) <==>
                  !heap.alloc(cap) || w.status == BufferTooSmall ||
                  (w.status == Ok && w.size != cap && !heap.realloc(cap, w.size)))
            && (o == Failed(AtomUnknown) <==>
                  heap.alloc(cap) && w.status != Ok && w.status != BufferTooSmall)
            && (o.Produced? && w.size <= cap ==> |o.bytes| <= cap)
  {
  }

  /** The full decision table of the decompress paths. `invalid_input` comes
      from the length query, and also from a failed output allocation, which
      falls through into the `SNAPPY_INVALID_INPUT` case. */
  lemma DecompressDecisionTable(input: seq<byte>, codec: Codec, heap: Heap)
    ensures var q := codec.uncompressedLength(input);
            var w := codec.uncompress(input, q.size);
            var o := DecompressOutcome(input, codec, heap);
            && (o.Produced? <==>
                  q.status == Ok && heap.alloc(q.size) && w.status == Ok &&
                  (w.size == q.size || heap.realloc(q.size, w.size)))
            && (o == Failed(AtomInvalidInput) <==>
                  q.status == InvalidInput || (q.status == Ok && !heap.alloc(q.size)))
            && (o == Failed(AtomInsufficientMemory) <==>
                  q.status == Ok && heap.alloc(q.size) &&
                  (w.status == BufferTooSmall ||
                   (w.status == Ok && w.size != q.size && !heap.realloc(q.size, w.size))))
            && (o == Failed(AtomUnknown) <==>
                  (q.status != Ok && q.status != InvalidInput) ||
                  (q.status == Ok && heap.alloc(q.size) && w.status != Ok && w.status != BufferTooSmall))
  {
  }

  /** When the length query does not say `SNAPPY_OK`, the decompress paths
      never reach the allocator: their outcome is the same whatever the
      allocator would have done, and is the error uncompressed_length gives. */
  lemma FailedQueryNeverAllocates(arg: Arg, codec: Codec, heap1: Heap, heap2: Heap)
    requires arg.Bin? && codec.uncompressedLength(arg.bytes).status != Ok
    ensures DecompressOutcome(arg.bytes, codec, heap1) == DecompressOutcome(arg.bytes, codec, heap2)
    ensures UnzipReply(arg, codec, heap1) == UncompressedLengthReply(arg, codec)
  {
  }

  /** A length query that succeeds but announces more than the allocator
      grants is reported by unzip and uncompress as `{error, invalid_input}`,
      not as `insufficient_memory`. */
  lemma AllocationFailureReportsInvalidInput(arg: Arg, codec: Codec, heap: Heap)
    requires arg.Bin?
    requires codec.uncompressedLength(arg.bytes).status == Ok
    requires !heap.alloc(codec.uncompressedLength(arg.bytes).size)
    ensures UnzipReply(arg, codec, heap) == Returns(MakeError(AtomInvalidInput))
    ensures UncompressReply(arg, codec, heap) == Returns(MakeError(AtomInvalidInput))
    ensures UncompressedLengthReply(arg, codec) == Returns(ULong(codec.uncompressedLength(arg.bytes).size))
  {
  }

  /** The inner switch over `snappy_uncompress` has no
      `SNAPPY_INVALID_INPUT` case: when the length header parses but the codec
      then rejects the body, unzip and uncompress reply `{error, unknown}`,
      not `{error, invalid_input}`. */
  lemma CorruptBodyReportsUnknown(arg: Arg, codec: Codec, heap: Heap)
    requires arg.Bin?
    requires codec.uncompressedLength(arg.bytes).status == Ok
    requires heap.alloc(codec.uncompressedLength(arg.bytes).size)
    requires codec.uncompress(arg.bytes, codec.uncompressedLength(arg.bytes).size).status == InvalidInput
    ensures UnzipReply(arg, codec, heap) == Returns(MakeError(AtomUnknown))
    ensures UncompressReply(arg, codec, heap) == Returns(MakeError(AtomUnknown))
  {
  }

  /** Consequently `{error, invalid_input}` from unzip is not a verdict on the
      data: for every input there are codec and allocator outcomes under which
      validate answers `true`, uncompressed_length answers a length, and unzip
      still answers `invalid_input`. */
  lemma InvalidInputIsNotAVerdict(x: seq<byte>)
    ensures exists codec: Codec, heap: Heap ::
              && ValidateReply(Bin(x), codec) == Returns(Atom("true"))
              && UncompressedLengthReply(Bin(x), codec).Returns?
              && UncompressedLengthReply(Bin(x), codec).term.ULong?
              && UnzipReply(Bin(x), codec, heap) == Returns(MakeError(AtomInvalidInput))
  {
    var codec := Codec(
      n => n,
      (i, cap) => Written(Ok, 0, []),
      i => Report(Ok, |x|),
      (i: seq<byte>, cap: nat) => Written(Ok, cap, []),
      i => Ok);
    var heap := Heap(n => false, (m, n) => false);
    assert ValidateReply(Bin(x), codec) == Returns(Atom("true"));
    assert UncompressedLengthReply(Bin(x), codec) == Returns(ULong(|x|));
    assert UnzipReply(Bin(x), codec, heap) == Returns(MakeError(AtomInvalidInput));
  }

  /** validate's decision table for any iolist. */
  lemma ValidateDecisionTable(arg: Arg, codec: Codec)
    requires !arg.NotIoData?
    ensures var v := codec.validate(InspectIolist(arg).value);
            && (ValidateReply(arg, codec) == Returns(Atom("true")) <==> v == Ok)
            && (ValidateReply(arg, codec) == Returns(Atom("false")) <==> v == InvalidInput)
            && (ValidateReply(arg, codec) == Returns(MakeError(AtomUnknown)) <==> v != Ok && v != InvalidInput)
  {
  }

  /** uncompressed_length's decision table for any iolist: the codec's
      reported length on `SNAPPY_OK`. */
  lemma UncompressedLengthDecisionTable(arg: Arg, codec: Codec)
    requires !arg.NotIoData?
    ensures var q := codec.uncompressedLength(InspectIolist(arg).value);
            && (UncompressedLengthReply(arg, codec) == Returns(ULong(q.size)) <==> q.status == Ok)
            && (UncompressedLengthReply(arg, codec) == Returns(MakeError(AtomInvalidInput)) <==> q.status == InvalidInput)
            && (UncompressedLengthReply(arg, codec) == Returns(MakeError(AtomUnknown)) <==>
                  q.status != Ok && q.status != InvalidInput)
  {
  }

  /** The bytes the codec produced for `x`: the first `size` bytes it stored. */
  function CodecOutput(codec: Codec, x: seq<byte>): seq<byte>
    requires LawfulOn(codec, x)
  {
    var w := codec.compress(x, codec.maxCompressedLength(|x|));
    w.bytes[..w.size]
  }

  /** On a buffer of `cap` bytes into which the codec stored at least `size`
      bytes, with `size` within the buffer, a successful shrink step yields
      exactly the first `size` bytes the codec stored. */
  lemma ShrinkKeepsCodecOutput(cap: nat, w: Written, heap: Heap)
    requires w.size <= cap && w.size <= |w.bytes|
    requires w.size == cap || heap.realloc(cap, w.size)
    ensures Shrink(Filled(cap, w), w.size, heap) == Some(w.bytes[..w.size])
  {
    var b := Shrink(Filled(cap, w), w.size, heap).value;
    assert |b| == w.size;
    forall k | 0 <= k < w.size
      ensures b[k] == w.bytes[..w.size][k]
    {
      assert Filled(cap, w)[k] == w.bytes[k];
    }
    assert b == w.bytes[..w.size];
  }

  /** Decompressing into a buffer of exactly the decoded length: the shrink
      step keeps the buffer, which holds exactly the decoded bytes. */
  lemma ShrinkKeepsExactOutput(x: seq<byte>, heap: Heap)
    ensures Shrink(Filled(|x|, Written(Ok, |x|, x)), |x|, heap) == Some(x)
  {
    var f := Filled(|x|, Written(Ok, |x|, x));
    assert |f| == |x|;
    forall k | 0 <= k < |x|
      ensures f[k] == x[k]
    {
    }
    assert f == x;
  }

  /** The compress path's outcome under a lawful codec and an ample
      allocator: exactly the codec's output. */
  lemma CompressOutcomeLawful(x: seq<byte>, codec: Codec, heap: Heap)
    requires LawfulOn(codec, x) && Ample(heap)
    ensures CompressOutcome(x, codec, heap) == Produced(CodecOutput(codec, x))
  {
    var cap := codec.maxCompressedLength(|x|);
    var w := codec.compress(x, cap);
    assert heap.alloc(cap) && heap.realloc(cap, w.size);
    ShrinkKeepsCodecOutput(cap, w, heap);
  }

  /** The decompress path's outcome on the codec's output for `x` under a
      lawful codec and an ample allocator: exactly `x`. */
  lemma DecompressOutcomeLawful(x: seq<byte>, codec: Codec, heap: Heap)
    requires LawfulOn(codec, x) && Ample(heap)
    ensures DecompressOutcome(CodecOutput(codec, x), codec, heap) == Produced(x)
  {
    assert heap.alloc(|x|);
    ShrinkKeepsExactOutput(x, heap);
  }

  /** With a codec that keeps its contract on `x` and an allocator that never
      refuses, zip returns exactly the codec's output, and unzip of that
      binary returns `x`: the bridge neither loses nor adds bytes. */
  lemma ZipUnzipRoundTrip(x: seq<byte>, codec: Codec, heap: Heap)
    requires LawfulOn(codec, x) && Ample(heap)
    ensures ZipReply(Bin(x), codec, heap) == Returns(Binary(CodecOutput(codec, x)))
    ensures UnzipReply(Bin(CodecOutput(codec, x)), codec, heap) == Returns(Binary(x))
  {
    CompressOutcomeLawful(x, codec, heap);
    DecompressOutcomeLawful(x, codec, heap);
  }

  /** The same round trip through the tagged variants. */
  lemma CompressUncompressRoundTrip(x: seq<byte>, codec: Codec, heap: Heap)
    requires LawfulOn(codec, x) && Ample(heap)
    ensures CompressReply(Bin(x), codec, heap) == Returns(MakeOk(Binary(CodecOutput(codec, x))))
    ensures UncompressReply(Bin(CodecOutput(codec, x)), codec, heap) == Returns(MakeOk(Binary(x)))
  {
    CompressOutcomeLawful(x, codec, heap);
    DecompressOutcomeLawful(x, codec, heap);
  }

  /** Under the codec's contract, validate accepts what zip returned and
      uncompressed_length reports the original length. */
  lemma ZippedValidatesWithLength(x: seq<byte>, codec: Codec)
    requires LawfulOn(codec, x)
    ensures ValidateReply(Bin(CodecOutput(codec, x)), codec) == Returns(Atom("true"))
    ensures UncompressedLengthReply(Bin(CodecOutput(codec, x)), codec) == Returns(ULong(|x|))
  {
  }

  /** Lookup finds the row at `k` when no earlier row has the same name and
      arity. */
  lemma {:induction false} LookupFinds(table: seq<Entry>, k: nat, name: string, arity: nat)
    requires k < |table| && table[k].name == name && table[k].arity == arity
    requires forall j :: 0 <= j < k ==> table[j].name != name
    ensures Lookup(table, name, arity) == Some(table[k].fun)
  {
    if k > 0 {
      LookupFinds(table[1..], k - 1, name, arity);
    }
  }

  /** No two rows of a table share a name. */
  predicate DistinctNames(table: seq<Entry>)
  {
    forall i, j :: 0 <= i < j < |table| ==> table[i].name != table[j].name
  }

  /** `nif_functions` registers seven distinct names. */
  lemma NifFunctionsDistinct()
    ensures DistinctNames(NifFunctions)
  {
    forall i, j | 0 <= i < j < |NifFunctions|
      ensures NifFunctions[i].name != NifFunctions[j].name
    {
      assert NifFunctions[i].name[0] != NifFunctions[j].name[0]
          || |NifFunctions[i].name| != |NifFunctions[j].name|;
    }
  }

  /** Every row of `nif_functions` is what the loader binds its name and
      arity to; all arities are 1. */
  lemma RegisteredName(k: nat)
    requires k < |NifFunctions|
    ensures NifFunctions[k].arity == 1
    ensures Lookup(NifFunctions, NifFunctions[k].name, 1) == Some(NifFunctions[k].fun)
  {
    NifFunctionsDistinct();
    LookupFinds(NifFunctions, k, NifFunctions[k].name, 1);
  }

  /** `decompress/1` is bound to the same C function as `uncompress/1`, so
      the two always give the same reply. */
  lemma DecompressIsUncompress(arg: Arg, codec: Codec, heap: Heap)
    ensures Lookup(NifFunctions, "decompress", 1) == Some(SnappyUncompress1)
    ensures Lookup(NifFunctions, "uncompress", 1) == Some(SnappyUncompress1)
    ensures Call(Lookup(NifFunctions, "decompress", 1).value, arg, codec, heap)
         == Call(Lookup(NifFunctions, "uncompress", 1).value, arg, codec, heap)
  {
    assert Lookup(NifFunctions, "uncompress", 1) == Some(SnappyUncompress1) by {
      RegisteredName(5);
      assert NifFunctions[5].name == "uncompress";
    }
    assert Lookup(NifFunctions, "decompress", 1) == Some(SnappyUncompress1) by {
      RegisteredName(6);
      assert NifFunctions[6].name == "decompress";
    }
  }
}
