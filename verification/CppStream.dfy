/** The C++ binding's stream over a pre-allocated buffer. */
module CppStream {
  import opened Wrappers
  import opened Bytes
  import opened WireFormat
  import opened RustHeap

  /** The bytes of an integer in the memory of a little-endian host. */
  function LittleEndian(w: nat, v: int): (s: bytes)
    ensures |s| == w
  {
    if w == 0 then [] else [v % 256] + LittleEndian(w - 1, v / 256)
  }

  function FromLittleEndian(s: bytes): nat {
    if s == [] then 0 else s[0] + 256 * FromLittleEndian(s[1..])
  }

  function Reverse(s: bytes): (r: bytes)
    ensures |r| == |s|
  {
    if s == [] then [] else Reverse(s[1..]) + [s[0]]
  }

  /** An integer as the host keeps it in memory, and back. */
  function ToNative(bigEndianHost: bool, w: nat, v: int): bytes {
    if bigEndianHost then BigEndian(w, v) else LittleEndian(w, v)
  }

  function FromNative(bigEndianHost: bool, signed: bool, s: bytes): int {
    var u := if bigEndianHost then FromBigEndian(s) else FromLittleEndian(s);
    if signed then ToSigned(|s|, u) else u
  }

  lemma {:induction false} ReverseLittleEndian(w: nat, v: int)
    ensures Reverse(LittleEndian(w, v)) == BigEndian(w, v)
  {
    if w > 0 {
      ReverseLittleEndian(w - 1, v / 256);
      assert LittleEndian(w, v)[1..] == LittleEndian(w - 1, v / 256);
    }
  }

  lemma {:induction false} FromReversed(s: bytes)
    ensures FromLittleEndian(Reverse(s)) == FromBigEndian(s)
  {
    if s != [] {
      var front, last := s[..|s| - 1], s[|s| - 1];
      FromReversed(front);
      ReverseSnoc(front, last);
      assert front + [last] == s;
      assert Reverse(s)[1..] == Reverse(front);
    }
  }

  lemma {:induction false} ReverseSnoc(s: bytes, b: byte)
    ensures Reverse(s + [b]) == [b] + Reverse(s)
  {
    if s == [] {
      assert s + [b] == [b];
      assert Reverse([b]) == Reverse([]) + [b];
    } else {
      ReverseSnoc(s[1..], b);
      assert (s + [b])[1..] == s[1..] + [b];
    }
  }

  /** What the host endianness makes of an integer on the wire: nothing. Both directions. */
  lemma WireIsBigEndian(bigEndianHost: bool, signed: bool, w: nat, v: int, s: bytes)
    ensures var native := ToNative(bigEndianHost, w, v);
            (if bigEndianHost then native else Reverse(native)) == BigEndian(w, v)
    ensures FromNative(bigEndianHost, signed, if bigEndianHost then s else Reverse(s)) == Interpret(signed, s)
  {
    ReverseLittleEndian(w, v);
    FromReversed(s);
  }

  /** What `resize` leaves in a string before it is read. */
  function Zeros(n: nat): (r: bytes)
    ensures |r| == n
  {
    seq(n, _ => 0)
  }

  ghost predicate Agrees<T>(p: Parsed<T>, r: Result<T, WireError>, rest: bytes) {
    match p
    case Done(v, after) => r == Ok(v) && rest == after
    case Fail(e) => r == Err(e)
  }

  class RustStream {
    const bigEndianHost: bool
    const data: array<byte>
    const len: nat
    var putPos: nat
    var getPos: nat
    var bad: bool
    ghost var offered: bytes  // everything inserted, whether or not there was room for it
    ghost var rest: bytes     // the bytes not extracted yet

    /** The buffer holds as much of what was inserted as fits; the stream is bad from the moment
        something did not fit. */
    ghost predicate Writing()
      reads this, data
    {
      && putPos == (if |offered| <= data.Length then |offered| else data.Length)
      && data[..putPos] == offered[..putPos]
      && (bad <==> |offered| > data.Length)
    }

    ghost predicate Reading()
      reads this, data
    {
      getPos <= len <= data.Length && rest == data[getPos..len]
    }

    twostate predicate Inserted(payload: bytes)
      reads this, data
    {
      Writing() && offered == old(offered) + payload
    }

    /** Extraction does to the remaining bytes what `p` says. When they run out the stream goes bad,
        silently: what is read from then on is unspecified, and nothing makes it good again. */
    twostate predicate Follows<T>(new p: Parsed<T>, new r: Result<T, WireError>)
      reads this, data
    {
      && Reading()
      && getPos >= old(getPos)
      && (old(bad) ==> bad)
      && (!old(bad) ==> if p == Fail(PastEnd) then bad else !bad && Agrees(p, r, rest))
    }

    constructor (buf: RustBuffer, bigEndianHost: bool)
      requires buf.len <= buf.capacity == buf.data.Length
      ensures Writing() && offered == []
      ensures Reading() && !bad && rest == buf.data[..buf.len]
      ensures data == buf.data && this.bigEndianHost == bigEndianHost
    {
      this.bigEndianHost := bigEndianHost;
      data, len, putPos, getPos, bad := buf.data, buf.len, 0, 0, false;
      offered, rest := [], buf.data[..buf.len];
    }

    /** What was inserted first is in the buffer, up to its end. */
    lemma Kept(n: nat)
      requires Writing() && n <= |offered| && n <= data.Length
      ensures data[..n] == offered[..n]
    {
      assert data[..putPos][..n] == data[..n] && offered[..putPos][..n] == offered[..n];
    }

    /** Copies what fits; a stream that has gone bad ignores what follows. */
    method Write(payload: bytes)
      requires Writing()
      modifies this, data
      ensures Inserted(payload)
    {
      if !bad {
        var n := if |payload| <= data.Length - putPos then |payload| else data.Length - putPos;
        forall i | 0 <= i < n {
          data[putPos + i] := payload[i];
        }
        assert data[..putPos] == offered && data[putPos..putPos + n] == payload[..n];
        assert data[..putPos + n] == data[..putPos] + data[putPos..putPos + n] == offered + payload[..n];
        assert (offered + payload)[..putPos + n] == offered + payload[..n];
        putPos := putPos + n;
        bad := n < |payload|;
      } else {
        assert (offered + payload)[..putPos] == offered[..putPos];
      }
      offered := offered + payload;
    }

    /** operator<< : reverses the value's bytes on a host that is not big-endian. */
    method Insert(w: nat, v: int)
      requires Writing()
      modifies this, data
      ensures Inserted(BigEndian(w, v))
    {
      var native := ToNative(bigEndianHost, w, v);
      if !bigEndianHost {
        native := Reverse(native);
      }
      WireIsBigEndian(bigEndianHost, false, w, v, []);
      Write(native);
    }

    /** Overwrites as much of the destination as there are bytes for; a bad stream takes none. */
    method Read(destination: bytes) returns (r: bytes)
      requires Reading()
      modifies this
      ensures Reading() && getPos >= old(getPos)
      ensures old(bad) ==> r == destination && bad && rest == old(rest)
      ensures !old(bad) && |destination| <= |old(rest)| ==>
                r == old(rest)[..|destination|] && !bad && rest == old(rest)[|destination|..]
      ensures !old(bad) && |destination| > |old(rest)| ==>
                r == old(rest) + destination[|old(rest)|..] && bad && rest == []
    {
      if bad {
        return destination;
      }
      var n := if |destination| <= len - getPos then |destination| else len - getPos;
      assert data[getPos..getPos + n] == rest[..n];
      assert n == |destination| ==> rest[..n] + destination[n..] == rest[..n];
      assert n == |rest| ==> rest[..n] == rest && rest[n..] == [];
      r := data[getPos..getPos + n] + destination[n..];
      bad := n < |destination|;
      getPos, rest := getPos + n, rest[n..];
    }

    /** operator>> : the destination is not initialised before. */
    method Extract(w: nat, signed: bool) returns (v: int)
      requires Reading()
      modifies this
      ensures Follows(IntCodec(w, signed).dec(old(rest)), Ok(v))
    {
      assert |Zeros(w)| == w;
      var uninitialised: bytes :| |uninitialised| == w;
      var raw := Read(uninitialised);
      WireIsBigEndian(bigEndianHost, signed, w, 0, raw);
      if !bigEndianHost {
        raw := Reverse(raw);
      }
      v := FromNative(bigEndianHost, signed, raw);
    }
  }
}
