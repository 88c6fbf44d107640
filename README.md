# esnappyc NIF bridge, modelled in Dafny

esnappyc exposes the Snappy block codec to Erlang as a NIF library
(`c_src/snappy.c`). Its own logic is small but tangled. Each of the six
entry points checks its argument, sizes and allocates an output
`ErlNifBinary`, calls the codec, shrinks the binary to the reported size,
and turns the codec's status into an Erlang term. The control flow runs
through `switch` fall-through and nested `break`s.

This project models that logic. It treats everything the NIFs call but do
not contain as inputs chosen by the caller of the model:

- **The argument** (`ErlTerms.Arg`): a binary, an iolist that is not a
  binary, or neither. The two inspection calls, `enif_inspect_binary` and
  `enif_inspect_iolist_as_binary`, are functions of it.
- **The codec** (`SnappyCodec.Codec`): total functions giving what
  `snappy_max_compressed_length`, `snappy_compress`,
  `snappy_uncompressed_length`, `snappy_uncompress` and
  `snappy_validate_compressed_buffer` return. That is a status (`SNAPPY_OK`,
  `SNAPPY_INVALID_INPUT`, `SNAPPY_BUFFER_TOO_SMALL` or any other value), a
  reported size, and, for the two writers, the bytes they store.
- **The allocator** (`SnappyCodec.Heap`): whether `enif_alloc_binary` of a
  given size succeeds, and whether `enif_realloc_binary` from one size to
  another succeeds.

The output binary is a class over a byte array (`NifBinary.Buffer`). It is
allocated, filled by the codec, and resized in place by the shrink step
`os == o.size || enif_realloc_binary(&o, os)`.

Each entry point appears twice:

- a pure decision function (`SnappyNif.ZipReply` and its siblings), and
- a method that follows the C body step by step, with the error string `s`
  overwritten as the C code overwrites it. Each method is proved to return
  exactly its decision function's reply.

The lemmas in `SnappyNifProps` state the decision tables and the facts that
follow from them. These include:

- the zip/compress and unzip/uncompress pairs differ only in the
  `{ok, _}` wrapper;
- a returned binary has exactly the length the codec reported;
- a failed length query never reaches the allocator;
- a failed output allocation in the decompress paths is reported as
  `invalid_input`;
- under the codec's documented contract and an allocator that never
  refuses, zip then unzip gives back the input.

Three outcomes of the code are easy to misread:

- **Failed allocation in the decompress paths.** unzip and uncompress
  report a failed output allocation as `{error, invalid_input}`. There is no
  `break` after the failed `enif_alloc_binary` at `c_src/snappy.c:78` and
  `:137`, so control falls into the `SNAPPY_INVALID_INPUT` case. See
  `AllocationFailureReportsInvalidInput` and `InvalidInputIsNotAVerdict`.
- **Corrupt body in the decompress paths.** The inner `switch` over
  `snappy_uncompress` (`c_src/snappy.c:79-88` and `:138-147`) has no
  `SNAPPY_INVALID_INPUT` case. When the length header parses but the codec
  rejects the body, the reply is `{error, unknown}`, not `invalid_input`. See
  `CorruptBodyReportsUnknown`.
- **Argument check.** Only binaries pass the argument check of zip, unzip,
  compress and uncompress (the `||` at `c_src/snappy.c:48`); validate and
  uncompressed_length accept any iolist. See `StrictInput`.

A failed shrink after a successful `SNAPPY_OK` discards the result and
reports `insufficient_memory`.

## Model

| member | source | states |
|---|---|---|
| `ErlTerms.InspectBinary` | c_src/snappy.c:48 | `enif_inspect_binary` succeeds exactly on binaries and yields their bytes |
| `ErlTerms.InspectIolist` | c_src/snappy.c:165 | `enif_inspect_iolist_as_binary` succeeds on every iolist, binaries included, and yields a binary's own bytes |
| `ErlTerms.MakeOk` | c_src/snappy.c:32-35 | `make_ok` builds `{ok, Msg}`: a caller reading it back recovers exactly `Msg`, and it never reads as an error |
| `ErlTerms.MakeError` | c_src/snappy.c:37-40 | `make_error` builds `{error, Reason}`: a caller reading it back recovers exactly the reason atom, and it never reads as `{ok, _}` |
| `ErlTerms.WrappersDecode` | c_src/snappy.c:32-40 | `{ok, Msg}` and `{error, Reason}` never coincide, and neither is a bare binary or an atom, so a bare zip/unzip result or a validate atom is never mistaken for an error |
| `SnappyNif.StrictInput` | c_src/snappy.c:48-49 | the two-inspection argument guard admits exactly binaries, yielding their bytes; an iolist that is not a binary is rejected |
| `NifBinary.Shrink` | c_src/snappy.c:55 | the shrink step fails exactly when the reported size differs from the allocated size and the reallocation is refused; on success the binary has exactly the reported length and keeps the stored prefix |
| `NifBinary.Buffer.constructor` | c_src/snappy.c:52 | a successful `enif_alloc_binary` gives a fresh buffer of the requested size |
| `NifBinary.Alloc` | c_src/snappy.c:52 | the allocation yields a buffer exactly when the allocator grants the size |
| `NifBinary.Buffer.Store` | c_src/snappy.c:53 | the codec's bytes land at the start of the buffer, truncated to its size, and the size is unchanged |
| `NifBinary.Buffer.Realloc` | c_src/snappy.c:55 | `enif_realloc_binary` succeeds as the allocator decides; on success the buffer has the new size and keeps the common prefix, on failure it is unchanged |
| `NifBinary.Buffer.FitTo` | c_src/snappy.c:55 | the shrink step in place: succeeds exactly when `Shrink` does and leaves the buffer as `Shrink` describes, or unchanged |
| `SnappyNif.CompressOutcome` | c_src/snappy.c:51-64 | a produced binary requires a granted allocation and `SNAPPY_OK`, has exactly the reported length and holds the codec's bytes; otherwise the reason is `insufficient_memory` or `unknown` |
| `SnappyNif.DecompressOutcome` | c_src/snappy.c:76-97 | a produced binary requires the length query and `snappy_uncompress` to say `SNAPPY_OK` and the allocation to be granted, has exactly the reported length and holds the codec's bytes; a failure reason is one of the three atoms |
| `SnappyNif.ZipReply` | c_src/snappy.c:42-65 | zip raises badarg exactly when the argument is not a binary; otherwise it returns a bare binary or `{error, Reason}` |
| `SnappyNif.CompressReply` | c_src/snappy.c:101-124 | compress raises badarg exactly when the argument is not a binary; otherwise it returns `{ok, _}` or `{error, Reason}` |
| `SnappyNif.UnzipReply` | c_src/snappy.c:67-99 | unzip raises badarg exactly when the argument is not a binary; otherwise it returns a bare binary or `{error, Reason}` |
| `SnappyNif.UncompressReply` | c_src/snappy.c:126-158 | uncompress raises badarg exactly when the argument is not a binary; otherwise it returns `{ok, _}` or `{error, Reason}` |
| `SnappyNif.ValidateReply` | c_src/snappy.c:160-179 | validate raises badarg exactly when the argument is not an iolist; otherwise it returns `true`, `false` or `{error, unknown}` |
| `SnappyNif.UncompressedLengthReply` | c_src/snappy.c:181-201 | uncompressed_length raises badarg exactly when the argument is not an iolist; otherwise it returns an integer, `{error, invalid_input}` or `{error, unknown}` |
| `SnappyNif.Zip` | c_src/snappy.c:42-65 | the step-by-step body, including the fall-through from a failed shrink into the `SNAPPY_BUFFER_TOO_SMALL` case, returns exactly `ZipReply` |
| `SnappyNif.Compress` | c_src/snappy.c:101-124 | the step-by-step body returns exactly `CompressReply` |
| `SnappyNif.Unzip` | c_src/snappy.c:67-99 | the step-by-step body, including the nested `break` and the fall-through from a failed allocation into `SNAPPY_INVALID_INPUT`, returns exactly `UnzipReply` |
| `SnappyNif.Uncompress` | c_src/snappy.c:126-158 | the step-by-step body returns exactly `UncompressReply` |
| `SnappyNif.Validate` | c_src/snappy.c:160-179 | the step-by-step body returns exactly `ValidateReply` |
| `SnappyNif.UncompressedLength` | c_src/snappy.c:181-201 | the step-by-step body returns exactly `UncompressedLengthReply` |
| `SnappyNif.Lookup` | c_src/snappy.c:219-227 | a name and arity resolve exactly when some row of the table carries them, and then to that row's function |
| `SnappyNifProps.ZipCompressAgree` | c_src/snappy.c:42-65 | for every argument, codec and allocator, compress replies what zip replies with a binary wrapped in `{ok, _}` and everything else unchanged |
| `SnappyNifProps.UnzipUncompressAgree` | c_src/snappy.c:67-99 | for every argument, codec and allocator, uncompress replies what unzip replies with a binary wrapped in `{ok, _}` and everything else unchanged |
| `SnappyNifProps.CompressDecisionTable` | c_src/snappy.c:46-64 | binary iff allocation granted, `SNAPPY_OK` and shrink succeeds; `insufficient_memory` iff allocation refused, `SNAPPY_BUFFER_TOO_SMALL`, or `SNAPPY_OK` with a refused shrink; `unknown` iff any other status; a binary fits the maximum when the reported size does |
| `SnappyNifProps.DecompressDecisionTable` | c_src/snappy.c:71-97 | binary iff both codec calls say `SNAPPY_OK`, allocation granted and shrink succeeds; `invalid_input` iff the query says so or the allocation is refused; `insufficient_memory` iff `SNAPPY_BUFFER_TOO_SMALL` or a refused shrink; `unknown` iff any other status at either step |
| `SnappyNifProps.FailedQueryNeverAllocates` | c_src/snappy.c:76 | when the length query does not say `SNAPPY_OK`, the decompress outcome does not depend on the allocator and unzip replies what uncompressed_length replies |
| `SnappyNifProps.AllocationFailureReportsInvalidInput` | c_src/snappy.c:77-93 | a successful length query followed by a refused allocation makes unzip and uncompress reply `{error, invalid_input}` while uncompressed_length reports the length |
| `SnappyNifProps.CorruptBodyReportsUnknown` | c_src/snappy.c:79-88 | a successful length query and allocation followed by `SNAPPY_INVALID_INPUT` from `snappy_uncompress` make unzip and uncompress reply `{error, unknown}` |
| `SnappyNifProps.InvalidInputIsNotAVerdict` | c_src/snappy.c:76-93 | for every input, some codec and allocator outcomes make validate say `true` and uncompressed_length give a length while unzip says `invalid_input` |
| `SnappyNifProps.ValidateDecisionTable` | c_src/snappy.c:168-178 | for any iolist: `true` iff `SNAPPY_OK`, `false` iff `SNAPPY_INVALID_INPUT`, `{error, unknown}` iff any other status |
| `SnappyNifProps.UncompressedLengthDecisionTable` | c_src/snappy.c:190-200 | for any iolist: the reported length iff `SNAPPY_OK`, `invalid_input` iff `SNAPPY_INVALID_INPUT`, `unknown` iff any other status |
| `SnappyNifProps.ShrinkKeepsCodecOutput` | c_src/snappy.c:53-55 | when the codec stored at least the reported number of bytes within the buffer, a successful shrink yields exactly those bytes |
| `SnappyNifProps.ShrinkKeepsExactOutput` | c_src/snappy.c:79-81 | decoding into a buffer of exactly the decoded length keeps the buffer, which holds exactly the decoded bytes |
| `SnappyNifProps.CompressOutcomeLawful` | c_src/snappy.c:51-56 | under the codec's contract and an ample allocator, the compress path produces exactly the codec's output |
| `SnappyNifProps.DecompressOutcomeLawful` | c_src/snappy.c:76-82 | under the codec's contract and an ample allocator, the decompress path on that output produces exactly the original input |
| `SnappyNifProps.ZipUnzipRoundTrip` | c_src/snappy.c:42-99 | under the codec's contract and an ample allocator, zip returns the codec's output and unzip of it returns the input |
| `SnappyNifProps.CompressUncompressRoundTrip` | c_src/snappy.c:101-158 | the same round trip through `{ok, _}` |
| `SnappyNifProps.ZippedValidatesWithLength` | c_src/snappy.c:160-201 | under the codec's contract alone, validate answers `true` on zip's output and uncompressed_length answers the input's length |
| `SnappyNifProps.LookupFinds` | c_src/snappy.c:219-227 | a row is found by its name and arity when no earlier row has that name |
| `SnappyNifProps.NifFunctionsDistinct` | c_src/snappy.c:219-227 | the seven registered names are pairwise distinct |
| `SnappyNifProps.RegisteredName` | c_src/snappy.c:219-227 | every row is what its name resolves to at arity 1 |
| `SnappyNifProps.DecompressIsUncompress` | c_src/snappy.c:225-226 | `decompress/1` and `uncompress/1` resolve to the same C function and therefore give the same reply |

## Left out

- The Snappy algorithm is not modelled. Its five entry points are arbitrary
  total functions. The round-trip lemmas assume the contract the library
  documents (`SnappyCodec.LawfulOn`); they do not prove it.
- Erlang term construction (`enif_make_tuple2`, `enif_make_atom`,
  `enif_make_binary`, `enif_make_ulong`, `enif_make_badarg`) is a datatype
  (`ErlTerms.Term`, `ErlTerms.Reply`). Badarg is a reply value, not a raised
  exception.
- Iolist flattening is not modelled. An argument is classified by what the
  two inspection calls return, and an iolist carries its flattened bytes.
- The allocator is a pure function of the requested sizes. Allocation
  failures that depend on the history of earlier calls are covered only in
  that every outcome per call is allowed.
- Memory that `enif_alloc_binary` and a growing `enif_realloc_binary` hand
  back is uninitialised. The model reads it as zeros.
- The widths of `size_t` and `unsigned long` are not modelled. Sizes and the
  integer that uncompressed_length returns are unbounded naturals.
- The error paths never call `enif_release_binary` after a successful
  allocation, so the binary leaks. Memory release is not modelled.
- Module lifecycle (`on_load`, `on_reload`, `on_upgrade`, `ERL_NIF_INIT`) is
  left out as registration glue. Only the `nif_functions` table is
  modelled.
- The `env` and `argc` parameters of the NIFs play no part in the decisions.
  They are not modelled.
