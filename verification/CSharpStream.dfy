/** The C# binding's bounded big-endian stream, with its shift-and-multiply integer loops. */
module CSharpStream {
  import opened Wrappers
  import opened Bytes
  import opened WireFormat
  import opened RustHeap

  // ---------- Bitwise or ----------

  function BitOr(a: nat, b: nat): nat {
    if a == 0 && b == 0 then 0
    else (if a % 2 == 1 || b % 2 == 1 then 1 else 0) + 2 * BitOr(a / 2, b / 2)
  }

  function Pow2(k: nat): (p: nat)
    ensures p >= 1
  {
    if k == 0 then 1 else 2 * Pow2(k - 1)
  }

  lemma {:induction false} BitOrZero(b: nat)
    ensures BitOr(0, b) == b
  {
    if b != 0 {
      BitOrZero(b / 2);
    }
  }

  /** Bit `k` of the or is set exactly when it is set in either number. */
  lemma {:induction false} BitOrBits(a: nat, b: nat, k: nat)
    ensures BitOr(a, b) / Pow2(k) % 2 == 1 <==> a / Pow2(k) % 2 == 1 || b / Pow2(k) % 2 == 1
  {
    if k > 0 {
      BitOrBits(a / 2, b / 2, k - 1);
      DivDiv(a, 2, Pow2(k - 1));
      DivDiv(b, 2, Pow2(k - 1));
      DivDiv(BitOr(a, b), 2, Pow2(k - 1));
      assert BitOr(a, b) / 2 == BitOr(a / 2, b / 2);
    }
  }

  /** The or of numbers that share no bit is their sum. */
  lemma {:induction false} BitOrDisjoint(a: nat, b: nat, k: nat)
    requires a < Pow2(k)
    ensures BitOr(a, b * Pow2(k)) == a + b * Pow2(k)
  {
    if k == 0 {
      BitOrZero(b);
    } else {
      var c := b * Pow2(k - 1);
      assert b * Pow2(k) == 2 * c by {
        assert b * (2 * Pow2(k - 1)) == 2 * (b * Pow2(k - 1));
      }
      BitOrDisjoint(a / 2, b, k - 1);
      assert BitOr(a / 2, c) == a / 2 + c;
    }
  }

  lemma {:induction false} Pow256IsPow2(w: nat)
    ensures Pow256(w) == Pow2(8 * w)
  {
    if w > 0 {
      Pow256IsPow2(w - 1);
      var k := 8 * (w - 1);
      assert Pow2(k + 8) == 2 * Pow2(k + 7) == 4 * Pow2(k + 6) == 8 * Pow2(k + 5);
      assert Pow2(k + 5) == 2 * Pow2(k + 4) == 4 * Pow2(k + 3) == 8 * Pow2(k + 2);
      assert Pow2(k + 2) == 2 * Pow2(k + 1) == 4 * Pow2(k);
    }
  }

  lemma {:induction false} FromBigEndianCons(b: byte, s: bytes)
    ensures FromBigEndian([b] + s) == b * Pow256(|s|) + FromBigEndian(s)
  {
    if s != [] {
      FromBigEndianCons(b, s[..|s| - 1]);
      assert ([b] + s)[..|s|] == [b] + s[..|s| - 1];
      assert b * (256 * Pow256(|s| - 1)) == 256 * (b * Pow256(|s| - 1));
    }
  }

  lemma DigitBelow(b: byte, p: nat)
    requires p >= 1
    ensures 0 <= b * p < 256 * p
  {}

  lemma {:induction false} SmallPower(k: nat, w: nat)
    requires k <= w
    ensures Pow256(k) <= Pow256(w) && (k < w ==> Pow256(k) < Pow256(w))
  {
    if k < w {
      SmallPower(k, w - 1);
    }
  }

  /** One round of a read loop in arithmetic modulo 256^w: the next byte, times its digit's weight,
      is or'ed in. Neither the product nor the weight needed next wraps. */
  lemma ReadRound(buffer: bytes, i: nat, w: nat, multiplier: nat, result: nat)
    requires i < |buffer| <= w
    requires multiplier == Pow256(|buffer| - i - 1) && result == FromBigEndian(buffer[i + 1..])
    ensures BitOr(result, buffer[i] * multiplier % Pow256(w)) == FromBigEndian(buffer[i..])
    ensures i > 0 ==> multiplier * 256 % Pow256(w) == Pow256(|buffer| - i)
  {
    var s := buffer[i + 1..];
    assert buffer[i..] == [buffer[i]] + s;
    FromBigEndianCons(buffer[i], s);
    FromBigEndianBound(s);
    Pow256IsPow2(|s|);
    BitOrDisjoint(result, buffer[i], 8 * |s|);
    DigitBelow(buffer[i], multiplier);
    SmallPower(|s| + 1, w);
    Unwrapped(buffer[i] * multiplier, Pow256(w));
    if i > 0 {
      Unwrapped(multiplier * 256, Pow256(w));
    }
  }

  lemma UnsignedParse(w: nat, b: bytes)
    ensures IntCodec(w, false).dec(b) ==
            match TakeBytes(w, b) case Fail(e) => Fail(e) case Done(s, rest) => Done(FromBigEndian(s), rest)
  {}

  lemma FromBigEndianStart()
    ensures FromBigEndian([]) == 0 && Pow256(0) == 1
  {}

  lemma Unwrapped(x: nat, m: nat)
    requires x < m
    ensures x % m == x
  {}

  // ---------- The stream ----------

  class BigEndianStream {
    const data: array<byte>
    const length: nat
    var position: nat
    ghost var written: bytes
    ghost var rest: bytes

    ghost predicate Writing()
      reads this, data
    {
      position == |written| <= length <= data.Length && data[..position] == written
    }

    ghost predicate Reading()
      reads this, data
    {
      position <= length <= data.Length && rest == data[position..length]
    }

    /** What a converter's `Write` does: it appends the encoding, or throws because there is none or
        no room for it. */
    twostate predicate Wrote<T>(c: Codec<T>, v: T, ok: bool)
      reads this, data
    {
      && Writing()
      && (ok <==> c.ok(v) && old(|written|) + |c.enc(v)| <= length)
      && (ok ==> written == old(written) + c.enc(v))
    }

    twostate predicate Follows<T>(new p: Parsed<T>, new r: Result<T, WireError>)
      reads this, data
    {
      && Reading()
      && position >= old(position)
      && match p
         case Done(v, after) => r == Ok(v) && rest == after
         case Fail(e) => r == Err(e)
    }

    constructor AsStream(buf: RustBuffer)
      requires buf.len <= buf.capacity == buf.data.Length
      ensures data == buf.data && Reading() && rest == buf.data[..buf.len]
    {
      data, length, position := buf.data, buf.len, 0;
      rest := buf.data[..buf.len];
    }

    constructor AsWriteableStream(buf: RustBuffer)
      requires buf.capacity == buf.data.Length
      ensures data == buf.data && length == buf.capacity && Writing() && written == []
    {
      data, length, position := buf.data, buf.capacity, 0;
      written := [];
    }

    method HasRemaining() returns (b: bool)
      requires Reading()
      ensures b <==> rest != []
    {
      b := length - position > 0;
    }

    /** All or nothing: a write that does not fit throws. */
    method WriteBytes(buffer: bytes) returns (ok: bool)
      requires Writing()
      modifies this, data
      ensures Writing()
      ensures ok <==> old(|written|) + |buffer| <= length
      ensures written == old(written) + if ok then buffer else []
    {
      ok := position + |buffer| <= length;
      if ok {
        forall i | 0 <= i < |buffer| {
          data[position + i] := buffer[i];
        }
        position := position + |buffer|;
        written := written + buffer;
      }
    }

    /** The shift is arithmetic, so the low bytes of a negative value are its two's complement. */
    method WriteInt32(value: int, bytesToWrite: nat) returns (ok: bool)
      requires Writing()
      modifies this, data
      ensures Writing()
      ensures ok <==> old(|written|) + bytesToWrite <= length
      ensures written == old(written) + if ok then BigEndian(bytesToWrite, value) else []
    {
      var buffer := new byte[bytesToWrite];
      var posByte := bytesToWrite;
      var v := value;
      while posByte != 0
        invariant posByte <= bytesToWrite
        invariant BigEndian(bytesToWrite, value) == BigEndian(posByte, v) + buffer[posByte..]
        modifies buffer
      {
        posByte := posByte - 1;
        buffer[posByte] := v % 256;
        v := v / 256;
        assert buffer[posByte..] == [buffer[posByte]] + buffer[posByte + 1..];
      }
      ok := WriteBytes(buffer[..]);
    }

    method WriteInt64(value: int) returns (ok: bool)
      requires Writing()
      modifies this, data
      ensures Writing()
      ensures ok <==> old(|written|) + 8 <= length
      ensures written == old(written) + if ok then BigEndian(8, value) else []
    {
      var bytesToWrite := 8;
      var buffer := new byte[bytesToWrite];
      var posByte := bytesToWrite;
      var v := value;
      while posByte != 0
        invariant 0 <= posByte <= bytesToWrite
        invariant BigEndian(bytesToWrite, value) == BigEndian(posByte, v) + buffer[posByte..]
        modifies buffer
      {
        posByte := posByte - 1;
        buffer[posByte] := v % 256;
        v := v / 256;
        assert buffer[posByte..] == [buffer[posByte]] + buffer[posByte + 1..];
      }
      ok := WriteBytes(buffer[..]);
    }

    method ReadBytes(size: int) returns (r: Result<bytes, WireError>)
      requires Reading()
      modifies this
      ensures Follows(if size < 0 then Fail(NegativeString) else TakeBytes(size, old(rest)), r)
    {
      if length - position < size {
        return Err(PastEnd);
      }
      if size < 0 {
        return Err(NegativeString);  // the array cannot be allocated
      }
      r := Ok(data[position..position + size]);
      assert r.value == rest[..size];
      position, rest := position + size, rest[size..];
    }

    /** The or of byte times multiplier, in 32-bit arithmetic that may wrap. */
    method ReadUint32(bytesToRead: nat) returns (r: Result<int, WireError>)
      requires Reading() && bytesToRead <= 4
      modifies this
      ensures Follows(IntCodec(bytesToRead, false).dec(old(rest)), r)
    {
      hide BigEndian, BitOr, Pow256, FromBigEndian, IntCodec;
      UnsignedParse(bytesToRead, rest);
      var read := ReadBytes(bytesToRead);
      if read.Err? { return Err(read.error); }
      var buffer := read.value;
      Pow256Values();
      assert buffer[|buffer|..] == [];
      FromBigEndianStart();
      var result: nat := 0;
      var digitMultiplier := 1;
      var posByte := bytesToRead;
      while posByte != 0
        invariant 0 <= posByte <= bytesToRead == |buffer|
        invariant result == FromBigEndian(buffer[posByte..])
        invariant posByte != 0 ==> digitMultiplier == Pow256(bytesToRead - posByte)
        modifies {}
      {
        posByte := posByte - 1;
        ReadRound(buffer, posByte, 4, digitMultiplier, result);
        result := BitOr(result, buffer[posByte] * digitMultiplier % UINT32_MOD);
        digitMultiplier := digitMultiplier * 256 % UINT32_MOD;
      }
      assert buffer[0..] == buffer;
      r := Ok(result);
    }

    method ReadUInt64() returns (r: Result<int, WireError>)
      requires Reading()
      modifies this
      ensures Follows(U64().dec(old(rest)), r)
    {
      var bytesToRead := 8;
      hide BigEndian, BitOr, Pow256, FromBigEndian, IntCodec;
      UnsignedParse(bytesToRead, rest);
      var read := ReadBytes(bytesToRead);
      if read.Err? { return Err(read.error); }
      var buffer := read.value;
      Pow256Values();
      assert buffer[|buffer|..] == [];
      FromBigEndianStart();
      var result: nat := 0;
      var digitMultiplier := 1;
      var posByte := bytesToRead;
      while posByte != 0
        invariant 0 <= posByte <= bytesToRead == |buffer|
        invariant result == FromBigEndian(buffer[posByte..])
        invariant posByte != 0 ==> digitMultiplier == Pow256(bytesToRead - posByte)
        modifies {}
      {
        posByte := posByte - 1;
        ReadRound(buffer, posByte, 8, digitMultiplier, result);
        result := BitOr(result, buffer[posByte] * digitMultiplier % UINT64_MOD);
        digitMultiplier := digitMultiplier * 256 % UINT64_MOD;
      }
      assert buffer[0..] == buffer;
      r := Ok(result);
    }

    // The casts between signed and unsigned keep the bytes.

    method WriteInt(value: int) returns (ok: bool)
      requires Writing() && InRange(4, true, value)
      modifies this, data
      ensures Wrote(I32(), value, ok)
    {
      hide BigEndian;
      ok := WriteInt32(value, 4);
    }

    method WriteUInt(value: int) returns (ok: bool)
      requires Writing() && InRange(4, false, value)
      modifies this, data
      ensures Wrote(IntCodec(4, false), value, ok)
    {
      BigEndianWraps(4, value - Pow256(4));
      hide BigEndian;
      ok := WriteInt32(ToSigned(4, value), 4);
    }

    method WriteLong(value: int) returns (ok: bool)
      requires Writing() && InRange(8, true, value)
      modifies this, data
      ensures Wrote(IntCodec(8, true), value, ok)
    {
      hide BigEndian;
      ok := WriteInt64(value);
    }

    method WriteULong(value: int) returns (ok: bool)
      requires Writing() && InRange(8, false, value)
      modifies this, data
      ensures Wrote(U64(), value, ok)
    {
      BigEndianWraps(8, value - Pow256(8));
      hide BigEndian;
      ok := WriteInt64(ToSigned(8, value));
    }

    method ReadSByte() returns (r: Result<int, WireError>)
      requires Reading()
      modifies this
      ensures Follows(IntCodec(1, true).dec(old(rest)), r)
    {
      hide FromBigEndian;
      var u := ReadUint32(1);
      r := if u.Ok? then Ok(ToSigned(1, u.value)) else Err(u.error);
    }

    method ReadShort() returns (r: Result<int, WireError>)
      requires Reading()
      modifies this
      ensures Follows(IntCodec(2, true).dec(old(rest)), r)
    {
      hide FromBigEndian;
      var u := ReadUint32(2);
      r := if u.Ok? then Ok(ToSigned(2, u.value)) else Err(u.error);
    }

    method ReadInt() returns (r: Result<int, WireError>)
      requires Reading()
      modifies this
      ensures Follows(I32().dec(old(rest)), r)
    {
      hide FromBigEndian;
      var u := ReadUint32(4);
      r := if u.Ok? then Ok(ToSigned(4, u.value)) else Err(u.error);
    }

    method ReadLong() returns (r: Result<int, WireError>)
      requires Reading()
      modifies this
      ensures Follows(IntCodec(8, true).dec(old(rest)), r)
    {
      hide FromBigEndian;
      var u := ReadUInt64();
      r := if u.Ok? then Ok(ToSigned(8, u.value)) else Err(u.error);
    }
  }
}
