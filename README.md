# journald `sendv` bridge, modelled in Dafny

`_journald.sendv('FIELD=value', ...)` is the one operation of python-systemd's
C extension `journald/_journald.c`. It takes the call's positional arguments,
each a Python `str` or `bytes`, and builds an array of `struct iovec`
descriptors, one per argument and in argument order. A text argument's
descriptor points into its strict UTF-8 encoding, which the function owns.
A bytes argument's descriptor points straight into the caller's object.
The function submits the array with a single call to libsystemd's
`sd_journal_sendv` and turns the outcome into `None` or a Python exception.
On every exit it releases each encoding it made and frees both heap arrays.

The project has two modules:

- `Host` (`host.dfy`) models what the C function works against:
  - a Python bytes object (`PyBytes`: contents plus reference count);
  - the C heap (`Allocator`: `calloc`, `malloc`, `free`). A `budget` oracle
    decides which allocations fail. A ghost `live` set tracks the blocks
    not yet freed, so a double `free` cannot be called;
  - libsystemd's journal (`Journal`). It records every descriptor array it
    receives and answers with a `Reply`: a return status, plus the `errno`
    value it wrote, if it wrote one.
- `Journald` (`journald.dfy`) holds the bridge itself:
  - `Arg`, the `Text` / `Bytes` / `Other` argument, where text is a
    sequence of Unicode code points (surrogates included, as in a Python
    `str`);
  - `ConversionError`, why an argument does not convert (`Unencodable`,
    `NotBytes`), and `Raised`, the exception each one becomes;
  - `SendResult`: `Ok`, `NoMemory`, `EncodeError`, `TypeError`,
    `IOError(errno)`, `ValueError`;
  - the specification functions `Field`, `Fields`, `Converted`, `Classify`,
    `EntryResult`, `SendvResult` and `Submits`;
  - the imperative model `Sendv`, built from `Fill`, `FillAndSend` and
    `ReleaseAll`. The C `goto out` and `goto out1` become breaks out of
    Dafny blocks labelled `out` and `out1`;
  - lemmas about the specification.

Strict UTF-8 encoding is a parameter `encode: seq<CodePoint> -> Option<seq<bv8>>`.
It returns `None` when encoding raises, as it does for a lone surrogate.

Three facts about the C code shape the model:
- With zero arguments the code still calls `calloc` and `malloc`. If either
  fails, the result is `NoMemory` and nothing is sent.
- The code fills each descriptor as it converts its argument. Nothing is
  sent until the loop ends.
- Besides encoding, I/O and format failures, it raises `MemoryError` when an
  allocation fails and `TypeError` for an argument that is neither `str` nor
  `bytes`.

Each array is used only while it is live. `Fill`, `FillAndSend`,
`ReleaseAll` and the journal's `Sendv` all require the arrays they touch to be
in the allocator's `live` set. So the model proves that the descriptors are
used before `free(iov)` and that the encodings are released before
`free(encoded)`.

## Model

| member | source | states |
|---|---|---|
| Journald.Sendv | journald/_journald.c:10-80 | The result equals `SendvResult` of the arguments, the allocation budget and the journal's reply; the stale `errno` on entry plays no part. Both arrays are freed exactly once on every path. The journal receives at most one call, and only when both allocations succeed and every argument converts. That call carries one descriptor per argument, in argument order, and its payload is the entry's fields. It acquires one owned reference per text argument before the first failure, and releases each of them exactly once. The caller's bytes objects keep their reference counts. |
| Journald.FillAndSend | journald/_journald.c:31-66 | Given both arrays, still live, the result is `EntryResult`. A send happens exactly when `Fields` succeeds, and the array sent describes the arguments. `errno` is cleared before the send, so its incoming value does not reach the result. `encoded` ends up holding one owned reference per converted text argument and NULL everywhere else. |
| Journald.Fill | journald/_journald.c:31-47 | Both arrays must still be live. The loop stops at index `Converted(args)`, and any failure is that argument's error. For every index before the stop, the descriptor covers the whole of the argument's bytes. For bytes it points at the caller's object; for text it points at the new encoding held in `encoded`. Entries not written stay NULL. |
| Journald.ReleaseAll | journald/_journald.c:68-70 | `Py_XDECREF` on each entry drops exactly one reference from every non-NULL entry and touches nothing else. The array must still be live, and its entries distinct and alive. |
| Host.Allocator.Calloc | journald/_journald.c:17-21 | The call returns NULL when out of memory. Otherwise it returns a fresh, zero-filled block of `n` entries, which becomes live. |
| Host.Allocator.Malloc | journald/_journald.c:24-28 | The call returns NULL when out of memory. Otherwise it returns a fresh block of `n` entries with unspecified contents, which becomes live. |
| Host.Allocator.Free | journald/_journald.c:72-77 | `free(NULL)` does nothing. Freeing a live block makes it no longer live, and only a live block may be freed. |
| Host.Journal.Sendv | journald/_journald.c:54 | `sd_journal_sendv(iov, n)` needs `iov` to be a block not yet freed. It reads `n` well-formed descriptors into live objects and records them as one call. It returns the reply's status, and `errno` afterwards is what the journal wrote, or the old value if it wrote nothing. |
| Host.PyBytes.constructor | journald/_journald.c:37 | The encoding holds the given bytes and comes with one owned reference. |
| Journald.Field | journald/_journald.c:36-46 | An argument converts exactly when it is bytes, or text that encodes. Text that does not encode fails as `Unencodable`. A bytes argument contributes its own bytes unchanged. |
| Journald.SendvResult | journald/_journald.c:10-80 | The reference result of `sendv`. It is `NoMemory` exactly when one of the two allocations fails; otherwise it is `EntryResult`. |
| Journald.EntryResult | journald/_journald.c:31-66 | The reference result once both arrays exist. It is never `NoMemory`. It is an encoding or type error exactly when some argument does not convert. Otherwise it is the journal's status and `errno`, classified with `errno` cleared before the send. |
| Journald.Fields | journald/_journald.c:31-47 | A converted entry has one field per argument. |
| Journald.Raised | journald/_journald.c:36-43 | A text argument that does not encode raises the encoding error; an argument that is not bytes once text is encoded raises `TypeError`. Nothing else is raised during conversion. |
| Journald.Converted | journald/_journald.c:31-43 | The index where conversion stops. Every argument before it converts, and the argument at it, if any, does not. |
| Journald.Classify | journald/_journald.c:56-66 | Status 0 gives `Ok`. A nonzero status with nonzero `errno` gives `IOError(errno)`. A nonzero status with `errno` 0 gives `ValueError`. No other result is possible. |
| Journald.FieldsAgreeWithConverted | journald/_journald.c:31-47 | The recursive entry succeeds exactly when every argument converts, and then holds argument `i`'s bytes at index `i`. Otherwise it fails with the error of the first argument that does not convert. |
| Journald.PayloadOfDescribed | journald/_journald.c:45-54 | A descriptor array that describes the arguments hands the journal exactly the entry's fields, in argument order. |
| Journald.SendvOutcomes | journald/_journald.c:17-66 | Each result holds exactly under its own condition: `NoMemory` when an allocation fails; `EncodeError` or `TypeError` when the first failing argument is text or other; `Ok` when sent and the status is 0; `IOError(e)` when sent, failed, and the journal set `errno` to a nonzero `e`; `ValueError` when sent, failed, and `errno` was left at 0. |
| Journald.EncodeFailureNeverSends | journald/_journald.c:36-39 | A text argument that does not encode means no send and a failure result. When every earlier argument converts, the result is `EncodeError`, or `NoMemory` if allocation failed first. |
| Journald.TextOnlyNeverConversionError | journald/_journald.c:31-47 | An entry of encodable text arguments only never gives `EncodeError` or `TypeError`, and it is sent whenever allocation succeeds. |
| Journald.EmptyEntryIsSent | journald/_journald.c:17-54 | With no arguments and successful allocation, an empty entry is sent and the journal's answer is reported as it is. |
| Journald.ErrnoResetSeparatesFailures | journald/_journald.c:49-60 | When the journal fails without writing `errno`, clearing `errno` first gives `ValueError`. A stale nonzero value would have been reported as `IOError`. |

## Left out

- Module registration (`PyMethodDef`, `Py_InitModule`, `PyModule_Create`, journald/_journald.c:82-111). It is host integration with no behaviour to state.
- The inside of `sd_journal_sendv` (socket and memfd I/O in libsystemd). The `Journal` oracle stands for it and answers with a chosen `Reply`.
- A UTF-8 encoder. The C code calls `PyUnicode_AsEncodedString(..., "strict")`, so encoding is the `encode` parameter.
- Python reference counting beyond the encodings. The argument tuple, the borrowed references from `PyTuple_GetItem` and `Py_INCREF(Py_None)` are not modelled. A bytes argument only needs to be alive (count above 0), and the model proves its count is unchanged.
- `errno` as a process-global, thread-local variable, and concurrency. `errno` is a value passed into and out of the send.
- Why allocation fails. The allocator's `budget` oracle decides, so `calloc(0)`/`malloc(0)` returning NULL is covered as an ordinary failure, not as platform behaviour.
- Which exception encoding raises. `encode` returning `None` stands for any exception `PyUnicode_AsEncodedString` raises, `MemoryError` included, and all are reported as `EncodeError`. The encoder is otherwise unconstrained, so the model does not fix which code-point sequences fail.
- Truncation of `PyTuple_Size` to `int argc` and overflow in `argc * sizeof(struct iovec)`. Integers are unbounded here, so the argument count is assumed to fit.
- The exception objects themselves. `SendResult` gives the kind and, for `IOError`, the errno. The `ValueError` message "invalid message format" and the strerror text are not carried.
- Signal handlers on `EINTR`. When the journal fails with `errno == EINTR`, `PyErr_SetFromErrno` (journald/_journald.c:58) first runs `PyErr_CheckSignals()`. If a Python signal handler raises, say `KeyboardInterrupt`, that exception replaces the `IOError`. The model always reports `IOError(errno)` there.
- Shared encodings. The model represents each owned reference as a fresh `PyBytes` with count 1. CPython may instead return a cached, shared object for a 0- or 1-byte encoding, so `sendv("a", "a")` can hold two references to one object. The model proves exactly-once release per reference under this reduction, not per object.
- Python 2 builds, where `str` is a bytes type. `Text` stands for the type `PyUnicode_Check` accepts. `Bytes` stands for `bytes` and its subclasses, and anything else (such as `bytearray`) is `Other`.
