/** The slice of the Erlang term world that the snappy NIFs read and build. */
module ErlTerms {

  datatype Option<T> = None | Some(value: T)

  newtype byte = x: int | 0 <= x < 256

  /** An Erlang term as the NIFs return it. `ULong` is what `enif_make_ulong`
      builds; it is unbounded here (the width of `unsigned long` is not modelled). */
  datatype Term =
    | Atom(name: string)
    | Tuple(fst: Term, snd: Term)
    | Binary(bytes: seq<byte>)
    | ULong(value: nat)

  /** What a NIF hands back: either a term, or the `badarg` exception raised by
      `enif_make_badarg`. */
  datatype Reply = Badarg | Returns(term: Term)

  /** The argument of a NIF, classified by what the two inspection calls make of
      it. A binary is also an iolist; an iolist that is not a binary flattens to
      the bytes it carries; anything else is neither. */
  datatype Arg =
    | Bin(bytes: seq<byte>)
    | IoList(flat: seq<byte>)
    | NotIoData

  /** `enif_inspect_binary`: succeeds on binaries only. */
  function InspectBinary(a: Arg): (r: Option<seq<byte>>)
    ensures r.Some? <==> a.Bin?
    ensures r.Some? ==> r.value == a.bytes
  {
    match a
    case Bin(b) => Some(b)
    case _ => None
  }

  /** `enif_inspect_iolist_as_binary`: succeeds on every iolist, binaries
      included, and yields the flattened bytes. */
  function InspectIolist(a: Arg): (r: Option<seq<byte>>)
    ensures r.Some? <==> !a.NotIoData?
    ensures a.Bin? ==> r == Some(a.bytes)
  {
    match a
    case Bin(b) => Some(b)
    case IoList(f) => Some(f)
    case NotIoData => None
  }

  /** `make_ok`: the tuple `{ok, Msg}`. */
  function MakeOk(msg: Term): (t: Term)
    ensures OkPayload(t) == Some(msg) && ErrorReason(t) == None
  {
    Tuple(Atom("ok"), msg)
  }

  /** `make_error`: the tuple `{error, Reason}` with `Reason` an atom. */
  function MakeError(reason: string): (t: Term)
    ensures ErrorReason(t) == Some(reason) && OkPayload(t) == None
  {
    Tuple(Atom("error"), Atom(reason))
  }

  /** How a caller reads `{ok, Msg}` back: the payload, or nothing. */
  function OkPayload(t: Term): Option<Term>
  {
    if t.Tuple? && t.fst == Atom("ok") then Some(t.snd) else None
  }

  /** How a caller reads `{error, Reason}` back: the reason, or nothing. */
  function ErrorReason(t: Term): Option<string>
  {
    if t.Tuple? && t.fst == Atom("error") && t.snd.Atom? then Some(t.snd.name) else None
  }

  /** The two wrappers never coincide, and neither shape is a bare binary or
      an atom, so a reply of zip or validate can always be told from an error. */
  lemma WrappersDecode(msg: Term, reason: string)
    ensures MakeOk(msg) != MakeError(reason)
    ensures !MakeOk(msg).Binary? && !MakeError(reason).Binary?
    ensures !MakeOk(msg).Atom? && !MakeError(reason).Atom?
  {
  }
}
