/** The collaborators of the journald bridge that live outside its own source
    file: the Python bytes objects it is handed or creates, the C heap it
    allocates its two arrays from, and libsystemd's `sd_journal_sendv`.
    Each is reduced to the state the bridge can observe. */
module Host {

  datatype Option<+T> = None | Some(value: T)

  datatype Result<+T, +E> = Success(value: T) | Failure(error: E)

  type byte = bv8

  /** A Python `bytes` object: immutable contents and a reference count.
      A count of zero means the object has been handed back to Python. */
  class PyBytes {
    const data: seq<byte>
    var refcnt: nat

    /** A new (owned) reference, modelled as a new object with count 1.
        CPython may share a cached object for a short encoding; the model
        counts references, not objects. */
    constructor (data: seq<byte>)
      ensures this.data == data && refcnt == 1
    {
      this.data := data;
      refcnt := 1;
    }
  }

  /** The C heap. `budget` is how many more allocations will succeed: an
      oracle standing for whatever makes `malloc` return NULL. `live` is the
      set of blocks handed out and not yet freed. */
  class Allocator {
    var budget: nat
    ghost var live: set<object>

    /** `calloc(n, size)`: NULL when out of memory, otherwise a fresh block
        whose every entry is the zero value. */
    method Calloc<T>(n: nat, zero: T) returns (p: Option<array<T>>)
      modifies this
      ensures old(budget) == 0 ==> p == None && budget == 0 && live == old(live)
      ensures old(budget) > 0 ==>
        && p.Some? && fresh(p.value) && p.value.Length == n
        && (forall i :: 0 <= i < n ==> p.value[i] == zero)
        && budget == old(budget) - 1
        && live == old(live) + {p.value}
    {
      if budget == 0 {
        p := None;
      } else {
        var a := new T[n](_ => zero);
        p := Some(a);
        budget := budget - 1;
        live := live + {a};
      }
    }

    /** `malloc(n * size)`: NULL when out of memory, otherwise a fresh block
        whose entries are unspecified. */
    method Malloc<T(0)>(n: nat) returns (p: Option<array<T>>)
      modifies this
      ensures old(budget) == 0 ==> p == None && budget == 0 && live == old(live)
      ensures old(budget) > 0 ==>
        && p.Some? && fresh(p.value) && p.value.Length == n
        && budget == old(budget) - 1
        && live == old(live) + {p.value}
    {
      if budget == 0 {
        p := None;
      } else {
        var a := new T[n];
        p := Some(a);
        budget := budget - 1;
        live := live + {a};
      }
    }

    /** `free(p)`: a no-op on NULL; otherwise `p` must be a live block, and
        it is live no more, so a second `free` of it cannot be called. */
    method Free<T>(p: Option<array<T>>)
      requires p.Some? ==> p.value in live
      modifies this
      ensures budget == old(budget)
      ensures p.None? ==> live == old(live)
      ensures p.Some? ==> live == old(live) - {p.value}
    {
      if p.Some? {
        live := live - {p.value};
      }
    }
  }

  /** A `struct iovec`: a base pointer (NULL or into a bytes object) and a
      length. */
  datatype Iovec = Iovec(base: PyBytes?, len: int)

  /** The descriptor points at the start of a bytes object and its length
      stays within that object. */
  predicate WellFormed(d: Iovec) {
    d.base != null && 0 <= d.len <= |d.base.data|
  }

  /** The bytes a well-formed descriptor refers to. */
  function Contents(d: Iovec): seq<byte>
    requires WellFormed(d)
  {
    d.base.data[..d.len]
  }

  /** The fields a descriptor array hands to the journal, in array order. */
  function Payload(ds: seq<Iovec>): seq<seq<byte>>
    requires forall i :: 0 <= i < |ds| ==> WellFormed(ds[i])
  {
    seq(|ds|, i requires 0 <= i < |ds| => Contents(ds[i]))
  }

  /** What one `sd_journal_sendv` call answers: its return status and, if a
      system call inside it failed, the value it left in `errno`. `None`
      means the call did not write `errno` at all. */
  datatype Reply = Reply(status: int, errno: Option<int>)

  /** The value of `errno` after a call that found it at `before`. */
  function ErrnoAfter(before: int, reply: Reply): int {
    match reply.errno
    case None => before
    case Some(e) => e
  }

  /** libsystemd's journal, seen through `sd_journal_sendv`: it records every
      descriptor array it is given and answers with `reply`. */
  class Journal {
    var reply: Reply
    var calls: seq<seq<Iovec>>

    /** `sd_journal_sendv(iov, n)`. It reads the first `n` descriptors, so
        each must be well formed and point into a bytes object that is still
        alive. `errno` is passed in and out because the C call reads and
        writes the global. `live` is the set of heap blocks not yet freed:
        the array must be one of them. */
    method Sendv(iov: array<Iovec>, n: int, errno: int, ghost live: set<object>) returns (r: int, errnoOut: int)
      requires iov in live
      requires 0 <= n <= iov.Length
      requires forall i :: 0 <= i < n ==> WellFormed(iov[i]) && iov[i].base.refcnt > 0
      modifies this`calls
      ensures calls == old(calls) + [iov[..n]]
      ensures r == reply.status && errnoOut == ErrnoAfter(errno, reply)
    {
      calls := calls + [iov[..n]];
      r := reply.status;
      errnoOut := ErrnoAfter(errno, reply);
    }
  }
}
