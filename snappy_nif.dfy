/** The six NIF entry points of `c_src/snappy.c` and the `nif_functions`
    table. Each entry point is given twice: as a pure decision function over
    the oracle outcomes (the `...Reply` functions), and as the step-by-step
    method that mirrors the C body, proved to return exactly that reply. */
module SnappyNif {
  import opened ErlTerms
  import opened SnappyCodec
  import opened NifBinary

  const AtomInsufficientMemory := "insufficient_memory"
  const AtomInvalidInput := "invalid_input"
  const AtomUnknown := "unknown"

  /** The three reasons `make_error` is ever called with by the codec paths. */
  predicate IsReason(s: string)
  {
    s == AtomInsufficientMemory || s == AtomInvalidInput || s == AtomUnknown
  }

  /** What the compress or decompress body produces before it is wrapped:
      the output binary's bytes, or the error string `s`. */
  datatype Outcome = Produced(bytes: seq<byte>) | Failed(reason: string)

  /** The argument check of zip, unzip, compress and uncompress:
      `!enif_inspect_binary(..) || !enif_inspect_iolist_as_binary(..)` raises
      badarg, so only a binary gets through; an iolist that is not a binary
      fails the first test. */
  function StrictInput(a: Arg): (r: Option<seq<byte>>)
    ensures r.Some? <==> a.Bin?
    ensures r.Some? ==> r.value == a.bytes
  {
    match InspectBinary(a)
    case None => None
    case Some(_) => InspectIolist(a)
  }

  /** The buffer the codec leaves behind in an output binary of `cap` bytes. */
  function Filled(cap: nat, w: Written): seq<byte>
  {
    Overwrite(Zeros(cap), w.bytes)
  }

  /** The body of `snappy_zip_1` / `snappy_compress_1` after the argument
      check. A produced binary has exactly the length the codec reported and
      holds the bytes the codec stored; it is produced only when allocation
      succeeded, the codec said `SNAPPY_OK` and the shrink step succeeded. */
  function CompressOutcome(input: seq<byte>, codec: Codec, heap: Heap): (o: Outcome)
    ensures var cap := codec.maxCompressedLength(|input|);
            var w := codec.compress(input, cap);
            o.Produced? ==>
              heap.alloc(cap) && w.status == Ok && |o.bytes| == w.size &&
              forall k :: 0 <= k < w.size && k < cap && k < |w.bytes| ==> o.bytes[k] == w.bytes[k]
    ensures o.Failed? ==> o.reason == AtomInsufficientMemory || o.reason == AtomUnknown
  {
    var cap := codec.maxCompressedLength(|input|);
    if !heap.alloc(cap) then Failed(AtomInsufficientMemory)
    else
      var w := codec.compress(input, cap);
      match w.status
      case Ok =>
        (match Shrink(Filled(cap, w), w.size, heap)
         case Some(b) => Produced(b)
         case None => Failed(AtomInsufficientMemory))
      case BufferTooSmall => Failed(AtomInsufficientMemory)
      case _ => Failed(AtomUnknown)
  }

  /** The body of `snappy_unzip_1` / `snappy_uncompress_1` after the argument
      check. A produced binary has exactly the length `snappy_uncompress`
      reported and holds the bytes it stored; it needs the length query to say
      `SNAPPY_OK` and the allocation of that many bytes to succeed. */
  function DecompressOutcome(input: seq<byte>, codec: Codec, heap: Heap): (o: Outcome)
    ensures var q := codec.uncompressedLength(input);
            var w := codec.uncompress(input, q.size);
            o.Produced? ==>
              q.status == Ok && heap.alloc(q.size) && w.status == Ok && |o.bytes| == w.size &&
              forall k :: 0 <= k < w.size && k < q.size && k < |w.bytes| ==> o.bytes[k] == w.bytes[k]
    ensures o.Failed? ==> IsReason(o.reason)
  {
    var q := codec.uncompressedLength(input);
    match q.status
    case Ok =>
      if heap.alloc(q.size) then
        var w := codec.uncompress(input, q.size);
        match w.status
        case Ok =>
          (match Shrink(Filled(q.size, w), w.size, heap)
           case Some(b) => Produced(b)
           case None => Failed(AtomInsufficientMemory))
        case BufferTooSmall => Failed(AtomInsufficientMemory)
        case _ => Failed(AtomUnknown)
      else
        // no `break` inside the failed `if`: control falls into the
        // SNAPPY_INVALID_INPUT case
        Failed(AtomInvalidInput)
    case InvalidInput => Failed(AtomInvalidInput)
    case _ => Failed(AtomUnknown)
  }

  /** `zip/1`: the bare binary, or `{error, Reason}`; badarg unless the
      argument is a binary. */
  function ZipReply(arg: Arg, codec: Codec, heap: Heap): (r: Reply)
    ensures r == Badarg <==> !arg.Bin?
    ensures r.Returns? ==> r.term.Binary? || ErrorReason(r.term).Some?
  {
    match StrictInput(arg)
    case None => Badarg
    case Some(i) =>
      match CompressOutcome(i, codec, heap)
      case Produced(b) => Returns(Binary(b))
      case Failed(s) => Returns(MakeError(s))
  }

  /** `compress/1`: `{ok, Binary}`, or `{error, Reason}`; badarg unless the
      argument is a binary. */
  function CompressReply(arg: Arg, codec: Codec, heap: Heap): (r: Reply)
    ensures r == Badarg <==> !arg.Bin?
    ensures r.Returns? ==> OkPayload(r.term).Some? || ErrorReason(r.term).Some?
  {
    match StrictInput(arg)
    case None => Badarg
    case Some(i) =>
      match CompressOutcome(i, codec, heap)
      case Produced(b) => Returns(MakeOk(Binary(b)))
      case Failed(s) => Returns(MakeError(s))
  }

  /** `unzip/1`: the bare binary, or `{error, Reason}`; badarg unless the
      argument is a binary. */
  function UnzipReply(arg: Arg, codec: Codec, heap: Heap): (r: Reply)
    ensures r == Badarg <==> !arg.Bin?
    ensures r.Returns? ==> r.term.Binary? || ErrorReason(r.term).Some?
  {
    match StrictInput(arg)
    case None => Badarg
    case Some(i) =>
      match DecompressOutcome(i, codec, heap)
      case Produced(b) => Returns(Binary(b))
      case Failed(s) => Returns(MakeError(s))
  }

  /** `uncompress/1` and `decompress/1`: `{ok, Binary}`, or
      `{error, Reason}`; badarg unless the argument is a binary. */
  function UncompressReply(arg: Arg, codec: Codec, heap: Heap): (r: Reply)
    ensures r == Badarg <==> !arg.Bin?
    ensures r.Returns? ==> OkPayload(r.term).Some? || ErrorReason(r.term).Some?
  {
    match StrictInput(arg)
    case None => Badarg
    case Some(i) =>
      match DecompressOutcome(i, codec, heap)
      case Produced(b) => Returns(MakeOk(Binary(b)))
      case Failed(s) => Returns(MakeError(s))
  }

  /** `validate/1`: the atom `true` or `false`, or `{error, unknown}`; accepts
      any iolist and never touches the allocator. */
  function ValidateReply(arg: Arg, codec: Codec): (r: Reply)
    ensures r == Badarg <==> arg.NotIoData?
    ensures r.Returns? ==> r.term in {Atom("true"), Atom("false"), MakeError(AtomUnknown)}
  {
    match InspectIolist(arg)
    case None => Badarg
    case Some(i) =>
      match codec.validate(i)
      case Ok => Returns(Atom("true"))
      case InvalidInput => Returns(Atom("false"))
      case _ => Returns(MakeError(AtomUnknown))
  }

  /** `uncompressed_length/1`: the length as an integer, or
      `{error, invalid_input}` / `{error, unknown}`; accepts any iolist. */
  function UncompressedLengthReply(arg: Arg, codec: Codec): (r: Reply)
    ensures r == Badarg <==> arg.NotIoData?
    ensures r.Returns? ==>
              r.term.ULong? || r.term == MakeError(AtomInvalidInput) || r.term == MakeError(AtomUnknown)
  {
    match InspectIolist(arg)
    case None => Badarg
    case Some(i) =>
      var q := codec.uncompressedLength(i);
      match q.status
      case Ok => Returns(ULong(q.size))
      case InvalidInput => Returns(MakeError(AtomInvalidInput))
      case _ => Returns(MakeError(AtomUnknown))
  }

  /** `snappy_zip_1`. */
  method Zip(arg: Arg, codec: Codec, heap: Heap) returns (r: Reply)
    ensures r == ZipReply(arg, codec, heap)
  {
    var s := AtomInsufficientMemory;
    var i := InspectBinary(arg);
    if i.Some? {
      i := InspectIolist(arg);
    }
    if i.None? {
      return Badarg;
    }
    var os := codec.maxCompressedLength(|i.value|);
    var o := Alloc(os, heap);
    if o != null {
      var w := codec.compress(i.value, o.data.Length);
      o.Store(w.bytes);
      os := w.size;
      match w.status {
        case Ok =>
          var kept := o.FitTo(os, heap);
          if kept {
            return Returns(Binary(o.data[..]));
          }
          // falls through into the SNAPPY_BUFFER_TOO_SMALL case
        case BufferTooSmall =>
        case _ =>
          s := AtomUnknown;
      }
    }
    return Returns(MakeError(s));
  }

  /** `snappy_compress_1`. */
  method Compress(arg: Arg, codec: Codec, heap: Heap) returns (r: Reply)
    ensures r == CompressReply(arg, codec, heap)
  {
    var s := AtomInsufficientMemory;
    var i := InspectBinary(arg);
    if i.Some? {
      i := InspectIolist(arg);
    }
    if i.None? {
      return Badarg;
    }
    var os := codec.maxCompressedLength(|i.value|);
    var o := Alloc(os, heap);
    if o != null {
      var w := codec.compress(i.value, o.data.Length);
      o.Store(w.bytes);
      os := w.size;
      match w.status {
        case Ok =>
          var kept := o.FitTo(os, heap);
          if kept {
            return Returns(MakeOk(Binary(o.data[..])));
          }
          // falls through into the SNAPPY_BUFFER_TOO_SMALL case
        case BufferTooSmall =>
        case _ =>
          s := AtomUnknown;
      }
    }
    return Returns(MakeError(s));
  }

  /** `snappy_unzip_1`. */
  method Unzip(arg: Arg, codec: Codec, heap: Heap) returns (r: Reply)
    ensures r == UnzipReply(arg, codec, heap)
  {
    var s := AtomInsufficientMemory;
    var i := InspectBinary(arg);
    if i.Some? {
      i := InspectIolist(arg);
    }
    if i.None? {
      return Badarg;
    }
    var q := codec.uncompressedLength(i.value);
    var os := q.size;
    match q.status {
      case Ok =>
        var o := Alloc(os, heap);
        if o != null {
          var w := codec.uncompress(i.value, o.data.Length);
          o.Store(w.bytes);
          os := w.size;
          match w.status {
            case Ok =>
              var kept := o.FitTo(os, heap);
              if kept {
                return Returns(Binary(o.data[..]));
              }
              // falls through into the SNAPPY_BUFFER_TOO_SMALL case
            case BufferTooSmall =>
            case _ =>
              s := AtomUnknown;
          }
          // the outer `break`
          return Returns(MakeError(s));
        }
        // falls through into the SNAPPY_INVALID_INPUT case
        s := AtomInvalidInput;
      case InvalidInput =>
        s := AtomInvalidInput;
      case _ =>
        s := AtomUnknown;
    }
    return Returns(MakeError(s));
  }

  /** `snappy_uncompress_1`, bound to both `uncompress` and `decompress`. */
  method Uncompress(arg: Arg, codec: Codec, heap: Heap) returns (r: Reply)
    ensures r == UncompressReply(arg, codec, heap)
  {
    var s := AtomInsufficientMemory;
    var i := InspectBinary(arg);
    if i.Some? {
      i := InspectIolist(arg);
    }
    if i.None? {
      return Badarg;
    }
    var q := codec.uncompressedLength(i.value);
    var os := q.size;
    match q.status {
      case Ok =>
        var o := Alloc(os, heap);
        if o != null {
          var w := codec.uncompress(i.value, o.data.Length);
          o.Store(w.bytes);
          os := w.size;
          match w.status {
            case Ok =>
              var kept := o.FitTo(os, heap);
              if kept {
                return Returns(MakeOk(Binary(o.data[..])));
              }
              // falls through into the SNAPPY_BUFFER_TOO_SMALL case
            case BufferTooSmall =>
            case _ =>
              s := AtomUnknown;
          }
          // the outer `break`
          return Returns(MakeError(s));
        }
        // falls through into the SNAPPY_INVALID_INPUT case
        s := AtomInvalidInput;
      case InvalidInput =>
        s := AtomInvalidInput;
      case _ =>
        s := AtomUnknown;
    }
    return Returns(MakeError(s));
  }

  /** `snappy_validate_1`. */
  method Validate(arg: Arg, codec: Codec) returns (r: Reply)
    ensures r == ValidateReply(arg, codec)
  {
    var i := InspectIolist(arg);
    if i.None? {
      return Badarg;
    }
    var s;
    match codec.validate(i.value) {
      case Ok =>
        s := "true";
      case InvalidInput =>
        s := "false";
      case _ =>
        return Returns(MakeError(AtomUnknown));
    }
    return Returns(Atom(s));
  }

  /** `snappy_uncompressed_length_1`. */
  method UncompressedLength(arg: Arg, codec: Codec) returns (r: Reply)
    ensures r == UncompressedLengthReply(arg, codec)
  {
    var i := InspectIolist(arg);
    if i.None? {
      return Badarg;
    }
    var s;
    var q := codec.uncompressedLength(i.value);
    match q.status {
      case Ok =>
        return Returns(ULong(q.size));
      case InvalidInput =>
        s := AtomInvalidInput;
      case _ =>
        s := AtomUnknown;
    }
    return Returns(MakeError(s));
  }

  /** The C functions the module registers. */
  datatype NifFun =
    | SnappyValidate1
    | SnappyUncompressedLength1
    | SnappyZip1
    | SnappyUnzip1
    | SnappyCompress1
    | SnappyUncompress1

  /** One row of `nif_functions`: Erlang name, arity, C function. */
  datatype Entry = Entry(name: string, arity: nat, fun: NifFun)

  const NifFunctions: seq<Entry> := [
    Entry("validate", 1, SnappyValidate1),
    Entry("uncompressed_length", 1, SnappyUncompressedLength1),
    Entry("zip", 1, SnappyZip1),
    Entry("unzip", 1, SnappyUnzip1),
    Entry("compress", 1, SnappyCompress1),
    Entry("uncompress", 1, SnappyUncompress1),
    Entry("decompress", 1, SnappyUncompress1)
  ]

  /** The C function the loader binds `name/arity` to: the first matching row. */
  function Lookup(table: seq<Entry>, name: string, arity: nat): (r: Option<NifFun>)
    ensures r.Some? <==> exists k :: 0 <= k < |table| && table[k].name == name && table[k].arity == arity
    ensures r.Some? ==> Entry(name, arity, r.value) in table
  {
    if table == [] then None
    else if table[0].name == name && table[0].arity == arity then Some(table[0].fun)
    else
      var rest := Lookup(table[1..], name, arity);
      assert forall k :: 1 <= k < |table| ==> table[k] == table[1..][k - 1];
      rest
  }

  /** What calling a registered C function returns. */
  function Call(f: NifFun, arg: Arg, codec: Codec, heap: Heap): Reply
  {
    match f
    case SnappyValidate1 => ValidateReply(arg, codec)
    case SnappyUncompressedLength1 => UncompressedLengthReply(arg, codec)
    case SnappyZip1 => ZipReply(arg, codec, heap)
    case SnappyUnzip1 => UnzipReply(arg, codec, heap)
    case SnappyCompress1 => CompressReply(arg, codec, heap)
    case SnappyUncompress1 => UncompressReply(arg, codec, heap)
  }
}
