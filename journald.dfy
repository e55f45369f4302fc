/** `_journald.sendv(*fields)`: marshal the Python arguments into an iovec
    array and hand it to `sd_journal_sendv` in one call. */
module Journald {
  import opened Host

  /** A Unicode code point, as a Python `str` holds it: surrogates included. */
  type CodePoint = c: int | 0 <= c < 0x11_0000

  /** One positional argument of `sendv`. Text is a Python `str`, a sequence
      of code points; bytes is a Python `bytes` object; anything else is
      `Other`. */
  datatype Arg = Text(cps: seq<CodePoint>) | Bytes(obj: PyBytes) | Other

  /** Strict UTF-8 encoding: `None` when it raises, as it does for a lone
      surrogate. Only its results matter here, not its algorithm. */
  type Encoder = seq<CodePoint> -> Option<seq<byte>>

  /** What `sendv` returns: `None` on success, or the Python exception it
      raises. */
  datatype SendResult =
    | Ok
    | NoMemory
    | EncodeError
    | TypeError
    | IOError(errno: int)
    | ValueError

  /** Why an argument does not convert: its text does not encode, or it is
      not a bytes object once text has been encoded. */
  datatype ConversionError = Unencodable | NotBytes

  /** The exception `sendv` raises for a conversion error. */
  function Raised(e: ConversionError): (r: SendResult)
    ensures r == EncodeError || r == TypeError
    ensures r == EncodeError <==> e == Unencodable
  {
    match e
    case Unencodable => EncodeError
    case NotBytes => TypeError
  }

  /** The bytes argument `a` contributes to the entry, or why it does not
      convert. */
  function Field(a: Arg, encode: Encoder): (r: Result<seq<byte>, ConversionError>)
    ensures r.Success? <==> a.Bytes? || (a.Text? && encode(a.cps).Some?)
    ensures r == Failure(Unencodable) <==> a.Text? && encode(a.cps).None?
    ensures a.Bytes? ==> r == Success(a.obj.data)
  {
    match a
    case Text(cps) => if encode(cps).Some? then Success(encode(cps).value) else Failure(Unencodable)
    case Bytes(o) => Success(o.data)
    case Other => Failure(NotBytes)
  }

  /** The fields of the whole entry, converted left to right; the first
      argument that does not convert decides the error. */
  function Fields(args: seq<Arg>, encode: Encoder): (r: Result<seq<seq<byte>>, ConversionError>)
    ensures r.Success? ==> |r.value| == |args|
  {
    if args == [] then Success([])
    else
      match Field(args[0], encode)
      case Failure(e) => Failure(e)
      case Success(f) =>
        match Fields(args[1..], encode)
        case Failure(e) => Failure(e)
        case Success(fs) => Success([f] + fs)
  }

  /** How many leading arguments convert: the index at which the fill loop
      stops, or `|args|` when it runs to the end. */
  function Converted(args: seq<Arg>, encode: Encoder): (k: nat)
    ensures k <= |args|
    ensures forall i :: 0 <= i < k ==> Field(args[i], encode).Success?
    ensures k < |args| ==> Field(args[k], encode).Failure?
  {
    if args == [] || Field(args[0], encode).Failure? then 0
    else 1 + Converted(args[1..], encode)
  }

  /** The three-way split on the status of `sd_journal_sendv` and on
      `errno` after it. */
  function Classify(status: int, errno: int): (r: SendResult)
    ensures r == Ok <==> status == 0
    ensures r == IOError(errno) <==> status != 0 && errno != 0
    ensures r == ValueError <==> status != 0 && errno == 0
    ensures r == Ok || r == ValueError || r.IOError?
  {
    if status == 0 then Ok
    else if errno != 0 then IOError(errno)
    else ValueError
  }

  /** `sendv` reaches `sd_journal_sendv`: both arrays were allocated and
      every argument converted. */
  predicate Submits(args: seq<Arg>, encode: Encoder, budget: nat) {
    budget >= 2 && Fields(args, encode).Success?
  }

  /** The result of `sendv`, given the arguments, how many allocations the
      heap will grant and how the journal answers. `errno` is cleared before
      the send, so the value it had on entry plays no part. */
  function SendvResult(args: seq<Arg>, encode: Encoder, budget: nat, reply: Reply): (r: SendResult)
    ensures r == NoMemory <==> budget < 2
    ensures budget >= 2 ==> r == EntryResult(args, encode, reply)
  {
    if budget < 2 then NoMemory else EntryResult(args, encode, reply)
  }

  /** The result once both arrays are allocated: the first conversion error,
      or the journal's answer classified with `errno` cleared beforehand. */
  function EntryResult(args: seq<Arg>, encode: Encoder, reply: Reply): (r: SendResult)
    ensures r != NoMemory
    ensures r == EncodeError || r == TypeError <==> Fields(args, encode).Failure?
    ensures Fields(args, encode).Success? ==> r == Classify(reply.status, ErrnoAfter(0, reply))
  {
    match Fields(args, encode)
    case Failure(e) => Raised(e)
    case Success(_) => Classify(reply.status, ErrnoAfter(0, reply))
  }

  /** Descriptor `d` is the one the fill loop writes for argument `a`:
      it covers the whole of the argument's bytes; for bytes it points at
      the caller's own object, for text at the encoding `own` holds. */
  predicate DescribesField(d: Iovec, a: Arg, encode: Encoder, own: Option<PyBytes>) {
    && WellFormed(d)
    && d.len == |d.base.data|
    && Field(a, encode) == Success(d.base.data)
    && match a
       case Bytes(o) => d.base == o && own == None
       case Text(_) => own.Some? && own.value == d.base
       case Other => false
  }

  predicate Describes(ds: seq<Iovec>, args: seq<Arg>, encode: Encoder, owned: seq<Option<PyBytes>>) {
    && |ds| == |args| == |owned|
    && forall i :: 0 <= i < |ds| ==> DescribesField(ds[i], args[i], encode, owned[i])
  }

  /** The fill loop of `journald_sendv`: convert the arguments in order,
      storing each text argument's encoding in `encoded` and a descriptor
      for every argument in `iov`. It stops at the first argument that does
      not convert; `n` is that index (or `|args|`) and `err` the error it
      raises. `encoded` comes in zeroed, so every entry not written stays
      NULL. */
  method Fill(args: seq<Arg>, encode: Encoder, encoded: array<Option<PyBytes>>, iov: array<Iovec>,
              mem: Allocator)
    returns (n: nat, err: ConversionError)
    requires encoded in mem.live && iov in mem.live
    requires encoded.Length == iov.Length == |args|
    requires forall j :: 0 <= j < |args| ==> encoded[j] == None
    modifies encoded, iov
    ensures n == Converted(args, encode)
    ensures n < |args| ==> Field(args[n], encode) == Failure(err)
    ensures forall j :: 0 <= j < |args| ==> (encoded[j].Some? <==> j < n && args[j].Text?)
    ensures forall j :: 0 <= j < |args| && encoded[j].Some? ==>
      fresh(encoded[j].value) && encoded[j].value.refcnt == 1
    ensures forall j, k :: 0 <= j < k < |args| && encoded[j].Some? && encoded[k].Some? ==>
      encoded[j].value != encoded[k].value
    ensures forall j :: 0 <= j < n ==> DescribesField(iov[j], args[j], encode, encoded[j])
  {
    n, err := 0, NotBytes;
    while n < |args|
      invariant n <= |args|
      invariant forall j :: 0 <= j < n ==> Field(args[j], encode).Success?
      invariant forall j :: 0 <= j < |args| ==> (encoded[j].Some? <==> j < n && args[j].Text?)
      invariant forall j :: 0 <= j < |args| && encoded[j].Some? ==>
        fresh(encoded[j].value) && encoded[j].value.refcnt == 1
      invariant forall j, k :: 0 <= j < k < |args| && encoded[j].Some? && encoded[k].Some? ==>
        encoded[j].value != encoded[k].value
      invariant forall j :: 0 <= j < n ==> DescribesField(iov[j], args[j], encode, encoded[j])
    {
      var item: Option<PyBytes> := if args[n].Bytes? then Some(args[n].obj) else None;
      if args[n].Text? {
        var e := encode(args[n].cps);
        if e.None? {
          err := Unencodable;
          break;
        }
        var o := new PyBytes(e.value);
        encoded[n] := Some(o);
        item := Some(o);
      }
      if item.None? {
        err := NotBytes;
        break;
      }
      iov[n] := Iovec(item.value, |item.value.data|);
      n := n + 1;
    }
    ConvertedIsFirstFailure(args, encode, n);
  }

  /** The cleanup loop of `journald_sendv`: `Py_XDECREF` every entry of
      `encoded`, which drops one reference from each non-NULL entry and does
      nothing for NULL ones. */
  method ReleaseAll(encoded: array<Option<PyBytes>>, mem: Allocator)
    requires encoded in mem.live
    requires forall j :: 0 <= j < encoded.Length && encoded[j].Some? ==> encoded[j].value.refcnt > 0
    requires forall j, k :: 0 <= j < k < encoded.Length && encoded[j].Some? && encoded[k].Some? ==>
      encoded[j].value != encoded[k].value
    modifies set j | 0 <= j < encoded.Length && encoded[j].Some? :: encoded[j].value
    ensures forall j :: 0 <= j < encoded.Length && encoded[j].Some? ==>
      encoded[j].value.refcnt == old(encoded[j].value.refcnt) - 1
  {
    var i := 0;
    while i < encoded.Length
      invariant 0 <= i <= encoded.Length
      invariant forall j :: 0 <= j < encoded.Length && encoded[j].Some? ==>
        encoded[j].value.refcnt == old(encoded[j].value.refcnt) - (if j < i then 1 else 0)
    {
      match encoded[i] {
        case Some(o) => o.refcnt := o.refcnt - 1;
        case None =>
      }
      i := i + 1;
    }
  }

  /** The body of `journald_sendv` between allocation and cleanup: fill
      both arrays, clear `errno`, send, and classify the answer. `staleErrno`
      is the value `errno` holds on entry; it is cleared before the send, so
      it cannot reach the result. */
  method FillAndSend(args: seq<Arg>, encode: Encoder, encoded: array<Option<PyBytes>>,
                     iov: array<Iovec>, journal: Journal, staleErrno: int, mem: Allocator)
    returns (ret: SendResult, ghost sent: seq<Iovec>)
    requires encoded in mem.live && iov in mem.live
    requires encoded.Length == iov.Length == |args|
    requires forall j :: 0 <= j < |args| ==> encoded[j] == None
    requires forall j :: 0 <= j < |args| && args[j].Bytes? ==> args[j].obj.refcnt > 0
    modifies encoded, iov, journal`calls
    ensures ret == EntryResult(args, encode, journal.reply)
    ensures Fields(args, encode).Success? ==>
      && journal.calls == old(journal.calls) + [sent]
      && Describes(sent, args, encode, encoded[..])
      && Payload(sent) == Fields(args, encode).value
    ensures Fields(args, encode).Failure? ==> journal.calls == old(journal.calls)
    ensures forall j :: 0 <= j < |args| ==>
      (encoded[j].Some? <==> j < Converted(args, encode) && args[j].Text?)
    ensures forall j :: 0 <= j < |args| && encoded[j].Some? ==>
      && fresh(encoded[j].value)
      && encoded[j].value.refcnt == 1
      && Field(args[j], encode) == Success(encoded[j].value.data)
    ensures forall j, k :: 0 <= j < k < |args| && encoded[j].Some? && encoded[k].Some? ==>
      encoded[j].value != encoded[k].value
  {
    sent := [];
    FieldsAgreeWithConverted(args, encode);
    var n, err := Fill(args, encode, encoded, iov, mem);
    if n < |args| {
      return Raised(err), sent;
    }

    // sd_journal_sendv sets errno only when one of its system calls fails.
    var errno := staleErrno;
    errno := 0;
    var r;
    r, errno := journal.Sendv(iov, |args|, errno, mem.live);
    sent := iov[..|args|];
    PayloadOfDescribed(sent, args, encode, encoded[..]);
    if r != 0 {
      if errno != 0 {
        ret := IOError(errno);
      } else {
        ret := ValueError;
      }
      return;
    }
    ret := Ok;
  }

  /** `journald_sendv`. `staleErrno` is whatever `errno` held on entry.
      `owned` is a ghost copy of the `encoded` array (all NULL when it was
      never allocated); `sent` is the descriptor array handed to the
      journal, if any. */
  method Sendv(args: seq<Arg>, encode: Encoder, staleErrno: int, mem: Allocator, journal: Journal)
    returns (ret: SendResult, ghost owned: seq<Option<PyBytes>>, ghost sent: seq<Iovec>)
    requires forall i :: 0 <= i < |args| && args[i].Bytes? ==> args[i].obj.refcnt > 0
    modifies mem, journal`calls
    ensures ret == SendvResult(args, encode, old(mem.budget), journal.reply)
    // both arrays are freed exactly once on every path
    ensures mem.live == old(mem.live)
    ensures mem.budget == if old(mem.budget) >= 2 then old(mem.budget) - 2 else 0
    // at most one send, with one descriptor per argument, in argument order
    ensures Submits(args, encode, old(mem.budget)) ==>
      && journal.calls == old(journal.calls) + [sent]
      && Describes(sent, args, encode, owned)
      && Payload(sent) == Fields(args, encode).value
    ensures !Submits(args, encode, old(mem.budget)) ==> journal.calls == old(journal.calls)
    // the encodings created are exactly those of the converted text arguments,
    // and each is released exactly once
    ensures |owned| == |args|
    ensures forall i :: 0 <= i < |args| ==>
      (owned[i].Some? <==> old(mem.budget) >= 2 && i < Converted(args, encode) && args[i].Text?)
    ensures forall i :: 0 <= i < |args| && owned[i].Some? ==>
      && fresh(owned[i].value)
      && owned[i].value.refcnt == 0
      && Field(args[i], encode) == Success(owned[i].value.data)
    // the caller's bytes objects are referenced, never released
    ensures forall i :: 0 <= i < |args| && args[i].Bytes? ==> args[i].obj.refcnt == old(args[i].obj.refcnt)
  {
    var argc := |args|;
    var iov: Option<array<Iovec>> := None;
    owned, sent := seq(argc, _ => None), [];

    label out1: {
      var encoded := mem.Calloc<Option<PyBytes>>(argc, None);
      if encoded.None? {
        ret := NoMemory;
        break out1;
      }
      var enc := encoded.value;

      label out: {
        iov := mem.Malloc<Iovec>(argc);
        if iov.None? {
          ret := NoMemory;
          break out;
        }
        ret, sent := FillAndSend(args, encode, enc, iov.value, journal, staleErrno, mem);
      }

      owned := enc[..];
      ReleaseAll(enc, mem);
      mem.Free(encoded);
    }

    mem.Free(iov);
  }

  /** `Converted` is the one index where the run of converting arguments
      ends. */
  lemma ConvertedIsFirstFailure(args: seq<Arg>, encode: Encoder, n: nat)
    requires n <= |args|
    requires forall j :: 0 <= j < n ==> Field(args[j], encode).Success?
    requires n < |args| ==> Field(args[n], encode).Failure?
    ensures Converted(args, encode) == n
  {
  }

  /** The recursive definition of the entry agrees with the first-failure
      reading of the fill loop: it succeeds exactly when every argument
      converts, then holds each argument's bytes at its own index, and
      otherwise fails with the error of the first argument that does not
      convert. */
  lemma {:induction false} FieldsAgreeWithConverted(args: seq<Arg>, encode: Encoder)
    ensures Fields(args, encode).Success? <==> Converted(args, encode) == |args|
    ensures Fields(args, encode).Success? ==>
      forall i :: 0 <= i < |args| ==> Field(args[i], encode) == Success(Fields(args, encode).value[i])
    ensures Fields(args, encode).Failure? ==>
      && Converted(args, encode) < |args|
      && Field(args[Converted(args, encode)], encode) == Failure(Fields(args, encode).error)
  {
    if args != [] && Field(args[0], encode).Success? {
      var tail := args[1..];
      FieldsAgreeWithConverted(tail, encode);
      if Fields(args, encode).Success? {
        forall i | 0 <= i < |args|
          ensures Field(args[i], encode) == Success(Fields(args, encode).value[i])
        {
          if i > 0 {
            assert args[i] == tail[i - 1];
          }
        }
      }
    }
  }

  /** The journal receives the entry's fields in argument order. */
  lemma PayloadOfDescribed(ds: seq<Iovec>, args: seq<Arg>, encode: Encoder, owned: seq<Option<PyBytes>>)
    requires Describes(ds, args, encode, owned)
    ensures Fields(args, encode).Success?
    ensures Payload(ds) == Fields(args, encode).value
  {
    FieldsAgreeWithConverted(args, encode);
    ConvertedIsFirstFailure(args, encode, |args|);
    var fs := Fields(args, encode).value;
    forall i | 0 <= i < |ds|
      ensures Payload(ds)[i] == fs[i]
    {
      assert Field(args[i], encode) == Success(ds[i].base.data);
    }
  }

  /** Every result `sendv` can give, and exactly when: no memory when an
      allocation fails; the first unconvertible argument's error (encoding
      for text, type for anything else) without a send; otherwise the
      journal's answer, where a failure is an I/O error carrying `errno` if
      the journal set it and a format error if it did not. */
  lemma SendvOutcomes(args: seq<Arg>, encode: Encoder, budget: nat, reply: Reply)
    ensures SendvResult(args, encode, budget, reply) == NoMemory <==> budget < 2
    ensures SendvResult(args, encode, budget, reply) == EncodeError <==>
      budget >= 2 && Converted(args, encode) < |args| && args[Converted(args, encode)].Text?
    ensures SendvResult(args, encode, budget, reply) == TypeError <==>
      budget >= 2 && Converted(args, encode) < |args| && args[Converted(args, encode)].Other?
    ensures SendvResult(args, encode, budget, reply) == Ok <==>
      Submits(args, encode, budget) && reply.status == 0
    ensures SendvResult(args, encode, budget, reply).IOError? <==>
      Submits(args, encode, budget) && reply.status != 0 && reply.errno.Some? && reply.errno.value != 0
    ensures SendvResult(args, encode, budget, reply).IOError? ==>
      SendvResult(args, encode, budget, reply).errno == reply.errno.value
    ensures SendvResult(args, encode, budget, reply) == ValueError <==>
      Submits(args, encode, budget) && reply.status != 0 && (reply.errno == None || reply.errno == Some(0))
  {
    FieldsAgreeWithConverted(args, encode);
  }

  /** Text that does not encode stops `sendv` before the send; when every
      argument before it converts, the result is the encoding error (or no
      memory, which is decided first). */
  lemma EncodeFailureNeverSends(args: seq<Arg>, encode: Encoder, budget: nat, reply: Reply, k: nat)
    requires k < |args| && args[k].Text? && encode(args[k].cps).None?
    ensures !Submits(args, encode, budget)
    ensures SendvResult(args, encode, budget, reply) in {NoMemory, EncodeError, TypeError}
    ensures (forall j :: 0 <= j < k ==> Field(args[j], encode).Success?) ==>
      SendvResult(args, encode, budget, reply) == if budget < 2 then NoMemory else EncodeError
  {
    FieldsAgreeWithConverted(args, encode);
    assert Field(args[k], encode).Failure?;
    if forall j :: 0 <= j < k ==> Field(args[j], encode).Success? {
      ConvertedIsFirstFailure(args, encode, k);
    }
  }

  /** Text-only entries that encode never fail on conversion: `sendv` either
      runs out of memory or sends them and reports the journal's answer. */
  lemma TextOnlyNeverConversionError(args: seq<Arg>, encode: Encoder, budget: nat, reply: Reply)
    requires forall i :: 0 <= i < |args| ==> args[i].Text? && encode(args[i].cps).Some?
    ensures budget >= 2 ==> Submits(args, encode, budget)
    ensures SendvResult(args, encode, budget, reply) != EncodeError
    ensures SendvResult(args, encode, budget, reply) != TypeError
  {
    FieldsAgreeWithConverted(args, encode);
    ConvertedIsFirstFailure(args, encode, |args|);
  }

  /** An empty call still reaches the journal, with no fields, and reports
      exactly what it answers. */
  lemma EmptyEntryIsSent(encode: Encoder, budget: nat, reply: Reply)
    requires budget >= 2
    ensures Submits([], encode, budget) && Fields([], encode) == Success([])
    ensures SendvResult([], encode, budget, reply) == Classify(reply.status, ErrnoAfter(0, reply))
  {
  }

  /** Why `errno` is cleared before the send: when the journal fails without
      touching `errno`, the cleared value gives a format error, whereas a
      stale nonzero value would have been reported as an I/O error. */
  lemma ErrnoResetSeparatesFailures(status: int, stale: int)
    requires status != 0 && stale != 0
    ensures Classify(status, ErrnoAfter(0, Reply(status, None))) == ValueError
    ensures Classify(status, ErrnoAfter(stale, Reply(status, None))) == IOError(stale)
  {
  }
}
