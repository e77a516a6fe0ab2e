/** The Python binding's growable buffer builder and offset-checked reader. */
module PythonBuffers {
  import opened Wrappers
  import opened Bytes
  import opened WireFormat
  import opened RustHeap

  const INITIAL_CAPACITY := 16

  class RustBufferBuilder {
    const heap: Heap
    var rbuf: Option<RustBuffer>
    ghost var contents: bytes  // the bytes written so far

    ghost function Storage(): set<object>
      reads this
    {
      if rbuf.Some? then {rbuf.value.data} else {}
    }

    ghost predicate Valid()
      reads this, heap, Storage()
    {
      rbuf.Some? && heap.Holds(rbuf.value) && heap.Payload(rbuf.value) == contents
    }

    /** Every live buffer except the builder's own. */
    ghost function Others(): set<array<byte>>
      requires rbuf.Some?
      reads this, heap
    {
      heap.live - {rbuf.value.data}
    }

    /** The builder still owns exactly one buffer and has touched no other buffer's ownership. */
    twostate predicate Kept()
      requires old(Valid())
      reads this, heap, Storage()
    {
      && Valid()
      && (rbuf.value.data == old(rbuf.value.data) || fresh(rbuf.value.data))
      && Others() == old(Others())
    }

    /** What a converter's `write` does: it appends the encoding, or it fails because the value has
        none, having at most appended something. */
    twostate predicate Wrote<T>(c: Codec<T>, v: T, ok: bool)
      requires old(Valid())
      reads this, heap, Storage()
    {
      && Kept()
      && (ok <==> c.ok(v))
      && (ok ==> contents == old(contents) + c.enc(v))
    }

    constructor (heap: Heap)
      modifies heap
      ensures this.heap == heap && Valid() && contents == [] && fresh(rbuf.value.data)
      ensures rbuf.value.capacity >= 16
      ensures heap.live == old(heap.live) + {rbuf.value.data}
    {
      this.heap := heap;
      var buf := heap.Alloc(INITIAL_CAPACITY);
      rbuf := Some(buf.(len := 0));
      contents := [];
    }

    /** Gives up ownership of the buffer. */
    method Finalize() returns (buf: RustBuffer)
      requires Valid()
      modifies this
      ensures rbuf == None && old(rbuf) == Some(buf) && contents == old(contents)
    {
      buf := rbuf.value;
      rbuf := None;
    }

    method Discard()
      requires rbuf.Some? ==> Valid()
      modifies this, heap
      ensures rbuf == None
      ensures heap.live == old(heap.live) - old(if rbuf.Some? then {rbuf.value.data} else {})
    {
      if rbuf.Some? {
        var buf := Finalize();
        heap.Free(buf);
      }
    }

    method Reserve(numBytes: nat)
      requires Valid()
      modifies this, heap
      ensures Kept() && contents == old(contents)
      ensures rbuf.value.len + numBytes <= rbuf.value.capacity
      ensures old(rbuf.value.len) + numBytes <= old(rbuf.value.capacity) ==> rbuf == old(rbuf)
    {
      if rbuf.value.len + numBytes > rbuf.value.capacity {
        var grown := heap.Reserve(rbuf.value, numBytes);
        rbuf := Some(grown);
      }
    }

    /** Stores the bytes after the payload, then advances the length. */
    method Store(value: bytes)
      requires Valid() && rbuf.value.len + |value| <= rbuf.value.capacity
      modifies this, rbuf.value.data
      ensures Kept() && contents == old(contents) + value && rbuf.value.data == old(rbuf.value.data)
    {
      var buf := rbuf.value;
      var i := 0;
      while i < |value|
        invariant 0 <= i <= |value|
        invariant buf.data[..buf.len] == contents
        invariant buf.data[buf.len..buf.len + i] == value[..i]
        modifies buf.data
      {
        buf.data[buf.len + i] := value[i];
        i := i + 1;
      }
      rbuf := Some(buf.(len := buf.len + |value|));
      contents := contents + value;
      assert buf.data[..buf.len + |value|] == buf.data[..buf.len] + buf.data[buf.len..buf.len + |value|];
    }

    method Write(value: bytes)
      requires Valid()
      modifies this, heap, rbuf.value.data
      ensures Kept() && contents == old(contents) + value
      ensures old(rbuf.value.len) + |value| <= old(rbuf.value.capacity) ==> rbuf.value.data == old(rbuf.value.data)
    {
      Reserve(|value|);
      Store(value);
    }

    /** Room is reserved before `struct.pack` runs, so a value out of range may cost a reallocation
        but writes nothing. */
    method PackInto(size: nat, signed: bool, value: int) returns (ok: bool)
      requires Valid()
      modifies this, heap, rbuf.value.data
      ensures ok <==> InRange(size, signed, value)
      ensures Kept() && contents == old(contents) + if ok then BigEndian(size, value) else []
    {
      Reserve(size);
      ok := InRange(size, signed, value);
      if ok {
        Store(BigEndian(size, value));
      }
    }

    method WriteI32(value: int) returns (ok: bool)
      requires Valid()
      modifies this, heap, rbuf.value.data
      ensures Wrote(I32(), value, ok)
    {
      ok := PackInto(4, true, value);
    }

    method WriteU8(value: int) returns (ok: bool)
      requires Valid()
      modifies this, heap, rbuf.value.data
      ensures Wrote(IntCodec(1, false), value, ok)
    {
      ok := PackInto(1, false, value);
    }

    method WriteU64(value: int) returns (ok: bool)
      requires Valid()
      modifies this, heap, rbuf.value.data
      ensures Wrote(U64(), value, ok)
    {
      ok := PackInto(8, false, value);
    }
  }

  class RustBufferStream {
    const data: array<byte>
    const len: nat
    var offset: nat
    ghost var rest: bytes  // the bytes not read yet

    ghost predicate Valid()
      reads this, data
    {
      offset <= len <= data.Length && rest == data[offset..len]
    }

    /** Reading does to the remaining bytes what `p` says, and never steps back. */
    twostate predicate Follows<T>(new p: Parsed<T>, new r: Result<T, WireError>)
      requires old(Valid())
      reads this, data
    {
      && Valid()
      && offset >= old(offset)
      && match p
         case Done(v, after) => r == Ok(v) && rest == after
         case Fail(e) => r == Err(e)
    }

    /** What a converter's `read` does: exactly what the decoder does to the remaining bytes. */
    twostate predicate Read<T>(c: Codec<T>, new r: Result<T, WireError>)
      requires old(Valid())
      reads this, data
    {
      Follows(c.dec(old(rest)), r)
    }

    constructor FromRustBuffer(buf: RustBuffer)
      requires buf.len <= buf.data.Length
      ensures data == buf.data && Valid() && rest == buf.data[..buf.len]
    {
      data, len, offset := buf.data, buf.len, 0;
      rest := buf.data[..buf.len];
    }

    method RemainingCount() returns (n: nat)
      requires Valid()
      ensures n == |rest|
    {
      n := len - offset;
    }

    method ReadBytes(size: nat) returns (r: Result<bytes, WireError>)
      requires Valid()
      modifies this
      ensures Follows(TakeBytes(size, old(rest)), r)
    {
      if offset + size > len {
        return Err(PastEnd);
      }
      r := Ok(data[offset..offset + size]);
      assert r.value == rest[..size];
      offset, rest := offset + size, rest[size..];
    }

    method UnpackFrom(size: nat, signed: bool) returns (r: Result<int, WireError>)
      requires Valid()
      modifies this
      ensures Read(IntCodec(size, signed), r)
    {
      if offset + size > len {
        return Err(PastEnd);
      }
      var raw := data[offset..offset + size];
      assert raw == rest[..size];
      r := Ok(Interpret(signed, raw));
      offset, rest := offset + size, rest[size..];
    }

    method ReadI32() returns (r: Result<int, WireError>)
      requires Valid()
      modifies this
      ensures Read(I32(), r)
    {
      r := UnpackFrom(4, true);
    }

    method ReadU8() returns (r: Result<int, WireError>)
      requires Valid()
      modifies this
      ensures Read(IntCodec(1, false), r)
    {
      r := UnpackFrom(1, false);
    }

    method ReadU64() returns (r: Result<int, WireError>)
      requires Valid()
      modifies this
      ensures Read(U64(), r)
    {
      r := UnpackFrom(8, false);
    }
  }
}
