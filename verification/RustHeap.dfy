/** The buffers that Rust owns, as the bindings see them.

    A `RustBuffer` is passed by value: a capacity, a length and a pointer. The three foreign
    functions are given the contracts the bindings rely on, over a ledger of the buffers that are
    allocated and not yet freed. `Free` demands a live buffer, so a verified caller neither frees
    twice nor frees a buffer that `Reserve` has already consumed; a caller that restores the ledger
    has leaked nothing. */
module RustHeap {
  import opened Bytes

  datatype RustBuffer = RustBuffer(capacity: nat, len: nat, data: array<byte>)

  class Heap {
    ghost var live: set<array<byte>>

    constructor ()
      ensures live == {}
    {
      live := {};
    }

    ghost predicate Holds(buf: RustBuffer)
      reads this
    {
      buf.data in live && buf.capacity == buf.data.Length && buf.len <= buf.capacity
    }

    ghost function Payload(buf: RustBuffer): bytes
      requires buf.len <= buf.data.Length
      reads buf.data
    {
      buf.data[..buf.len]
    }

    /** A buffer of the requested length, and at least as much room. */
    method Alloc(size: nat) returns (buf: RustBuffer)
      modifies this
      ensures fresh(buf.data) && Holds(buf) && buf.len == size
      ensures live == old(live) + {buf.data}
    {
      var capacity :| capacity >= size;
      var data := new byte[capacity];
      buf := RustBuffer(capacity, size, data);
      live := live + {data};
    }

    /** Consumes `buf`. The result keeps its payload and has room for `additional` more bytes. */
    method Reserve(buf: RustBuffer, additional: nat) returns (grown: RustBuffer)
      requires Holds(buf)
      modifies this
      ensures fresh(grown.data) && Holds(grown)
      ensures grown.len == buf.len && grown.capacity >= buf.len + additional
      ensures Payload(grown) == Payload(buf)
      ensures live == old(live) - {buf.data} + {grown.data}
    {
      var capacity :| capacity >= buf.len + additional;
      var data := new byte[capacity];
      forall i | 0 <= i < buf.len {
        data[i] := buf.data[i];
      }
      grown := RustBuffer(capacity, buf.len, data);
      live := live - {buf.data} + {data};
    }

    method Free(buf: RustBuffer)
      requires buf.data in live
      modifies this
      ensures live == old(live) - {buf.data}
    {
      live := live - {buf.data};
    }
  }
}
