/** The C# binding's converters for `Call`, `string[]` and `ControllerError`: sizes computed in 32-bit
    arithmetic, writes bounded by the buffer, reads, and the ownership of the buffer. */
module CSharpConverters {
  import opened Wrappers
  import opened Bytes
  import opened WireFormat
  import opened Records
  import opened RustHeap
  import opened CSharpStream

  // ---------- AllocationSize ----------

  /** Unchecked 32-bit arithmetic: the `int` that is congruent modulo 2^32. */
  function Wrap32(n: int): (r: int) {
    var m := n % UINT32_MOD;
    if m <= INT32_MAX then m else m - UINT32_MOD
  }

  lemma Wrap32Means(n: int)
    ensures -0x8000_0000 <= Wrap32(n) <= 0x7fff_ffff && (Wrap32(n) - n) % 0x1_0000_0000 == 0
  {}

  predicate IsInt32(n: int) { -INT32_MAX - 1 <= n <= INT32_MAX }

  lemma WrapAdd(a: int, b: int)
    ensures Wrap32(Wrap32(a) + Wrap32(b)) == Wrap32(a + b)
    ensures Wrap32(4) == 4
  {}

  lemma WrapZero()
    ensures Wrap32(0) == 0
  {}

  /** A checked sum of wrapped terms: exact modulo 2^32 when it passes the check, and otherwise the
      true sum is too large. */
  lemma CheckedSum(a: nat, b: nat)
    ensures var s := Wrap32(a) + Wrap32(b);
            if IsInt32(s) then s == Wrap32(a + b) else a + b > INT32_MAX
  {}

  /** `size` is what 32-bit arithmetic makes of `exact`. */
  predicate Sizes(size: Option<int>, exact: int) {
    if size.Some? then size.value == Wrap32(exact) else exact > INT32_MAX
  }

  lemma SizesSmall(size: Option<int>, exact: nat)
    requires Sizes(size, exact)
    ensures exact <= INT32_MAX ==> size == Some(exact)
  {}

  lemma I32Bytes(n: int)
    ensures |I32().enc(n)| == 4
  {}

  lemma StringSize(s: bytes)
    ensures |StringCodec().enc(s)| == 4 + |s|
  {
    hide StringCodec, IntCodec;
    StringLayout(s, []);
    assert [] + StringCodec().enc(s) == StringCodec().enc(s);
    I32Bytes(|s|);
  }

  /** `GetByteCount` throws when the count is no `int`. */
  method AllocationSizeString(value: bytes) returns (size: Option<int>)
    ensures Sizes(size, |StringCodec().enc(value)|)
  {
    hide StringCodec;
    StringSize(value);
    if |value| > INT32_MAX {
      return None;
    }
    size := Some(Wrap32(4 + |value|));
  }

  /** A null array stands for an empty one. */
  function OrEmpty(value: Option<seq<FieldElement>>): seq<FieldElement> {
    if value.None? then [] else value.value
  }

  /** `Sum` is checked; the addition after it is not. */
  method AllocationSizeFields(value: Option<seq<FieldElement>>) returns (size: Option<int>)
    ensures Sizes(size, |FieldsCodec().enc(OrEmpty(value))|)
  {
    hide StringCodec, IntCodec, SeqCodec, EncodeAll, Wrap32;
    var items := OrEmpty(value);
    FieldsSize(items);
    WrapAdd(4, |EncodeAll(StringCodec(), items)|);
    WrapZero();
    EncodeNone(StringCodec(), items);
    if value.None? {
      assert items[..0] == items;
      return Some(4);
    }
    var sizeForItems := 0;
    var i := 0;
    while i < |items|
      invariant 0 <= i <= |items|
      invariant sizeForItems == Wrap32(|EncodeAll(StringCodec(), items[..i])|)
    {
      EncodeAllNext(StringCodec(), items, i);
      EncodeAllGrows(StringCodec(), items, i + 1);
      var item := AllocationSizeString(items[i]);
      if item.None? { return None; }
      CheckedSum(|EncodeAll(StringCodec(), items[..i])|, |StringCodec().enc(items[i])|);
      sizeForItems := sizeForItems + item.value;
      if !IsInt32(sizeForItems) { return None; }
      i := i + 1;
    }
    assert items[..i] == items;
    size := Some(Wrap32(4 + sizeForItems));
  }

  lemma FieldsSize(s: seq<FieldElement>)
    ensures |FieldsCodec().enc(s)| == 4 + |EncodeAll(StringCodec(), s)|
  {
    hide StringCodec, IntCodec, SeqCodec, EncodeAll;
    SeqLayout(StringCodec(), s, []);
    assert [] + FieldsCodec().enc(s) == FieldsCodec().enc(s);
    I32Bytes(|s|);
  }

  lemma {:induction false} EncodeAllGrows<T>(c: Codec<T>, s: seq<T>, i: nat)
    requires i <= |s|
    ensures |EncodeAll(c, s[..i])| <= |EncodeAll(c, s)|
    decreases |s| - i
  {
    if i == |s| {
      assert s[..i] == s;
    } else {
      EncodeAllNext(c, s, i);
      EncodeAllGrows(c, s, i + 1);
    }
  }

  lemma CallSize(v: Call)
    ensures |CallCodec().enc(v)| == |StringCodec().enc(v.contractAddress)| + |StringCodec().enc(v.entrypoint)|
                                    + |FieldsCodec().enc(v.calldata)|
  {
    hide StringCodec, FieldsCodec, CallCodec;
    CallLayout(v, []);
  }

  method AllocationSizeCall(value: Call) returns (size: Option<int>)
    ensures Sizes(size, |CallCodec().enc(value)|)
  {
    hide StringCodec, FieldsCodec, CallCodec, Wrap32;
    CallSize(value);
    ghost var na, nb := |StringCodec().enc(value.contractAddress)|, |StringCodec().enc(value.entrypoint)|;
    WrapAdd(na, nb);
    WrapAdd(na + nb, |FieldsCodec().enc(value.calldata)|);
    var a := AllocationSizeString(value.contractAddress);
    if a.None? { return None; }
    var b := AllocationSizeString(value.entrypoint);
    if b.None? { return None; }
    var c := AllocationSizeFields(Some(value.calldata));
    if c.None? { return None; }
    size := Some(Wrap32(Wrap32(a.value + b.value) + c.value));
  }

  lemma ErrorSize(e: ControllerError)
    ensures |ErrorCodec().enc(e)| == 4 + |StringCodec().enc(e.message)|
  {
    hide StringCodec, IntCodec, ErrorCodec;
    ErrorLayout(e, []);
    I32Bytes(ErrorIndex(e));
  }

  method AllocationSizeError(value: ControllerError) returns (size: Option<int>)
    ensures Sizes(size, |ErrorCodec().enc(value)|)
  {
    hide StringCodec, ErrorCodec, Wrap32;
    ErrorSize(value);
    WrapAdd(4, |StringCodec().enc(value.message)|);
    var a := AllocationSizeString(value.message);
    if a.None? { return None; }
    size := Some(Wrap32(4 + a.value));
  }

  // ---------- Write ----------

  method WriteString(value: bytes, stream: BigEndianStream) returns (ok: bool)
    requires stream.Writing()
    modifies stream, stream.data
    ensures stream.Wrote(StringCodec(), value, ok)
  {
    hide StringCodec, IntCodec;
    StringLayout(value, stream.written);
    StringSize(value);
    I32Bytes(|value|);
    I32Range(|value|);
    if |value| > INT32_MAX {
      return false;
    }
    Int32Range(|value|);
    ok := stream.WriteInt(|value|);
    if ok {
      ok := stream.WriteBytes(value);
    }
  }

  lemma Int32Range(v: int)
    ensures InRange(4, true, v) <==> -INT32_MAX - 1 <= v <= INT32_MAX
  {
    Pow256Values();
  }

  method WriteFields(value: Option<seq<FieldElement>>, stream: BigEndianStream) returns (ok: bool)
    requires stream.Writing()
    modifies stream, stream.data
    ensures stream.Wrote(FieldsCodec(), OrEmpty(value), ok)
  {
    hide StringCodec, IntCodec, SeqCodec, AllOk, EncodeAll;
    var items := OrEmpty(value);
    SeqLayout(StringCodec(), items, stream.written);
    FieldsSize(items);
    I32Bytes(|items|);
    I32Range(|items|);
    if |items| > INT32_MAX {
      return false;
    }
    Int32Range(|items|);
    EncodeNone(StringCodec(), items);
    if value.None? {
      assert items[..0] == items;
      ok := stream.WriteInt(0);
      return;
    }
    ok := stream.WriteInt(|items|);
    if !ok { return; }
    ghost var start := stream.written;
    var i := 0;
    while i < |items|
      invariant 0 <= i <= |items| && stream.Writing()
      invariant AllOk(StringCodec(), items[..i])
      invariant stream.written == start + EncodeAll(StringCodec(), items[..i])
    {
      EncodeAllNext(StringCodec(), items, i);
      EncodeAllGrows(StringCodec(), items, i + 1);
      ok := WriteString(items[i], stream);
      if !ok { return; }
      i := i + 1;
    }
    assert items[..i] == items;
  }

  method WriteCall(value: Call, stream: BigEndianStream) returns (ok: bool)
    requires stream.Writing()
    modifies stream, stream.data
    ensures stream.Wrote(CallCodec(), value, ok)
  {
    hide StringCodec, FieldsCodec, CallCodec;
    CallLayout(value, stream.written);
    CallSize(value);
    ok := WriteString(value.contractAddress, stream);
    if !ok { return; }
    ok := WriteString(value.entrypoint, stream);
    if !ok { return; }
    ok := WriteFields(Some(value.calldata), stream);
  }

  method WriteError(value: ControllerError, stream: BigEndianStream) returns (ok: bool)
    requires stream.Writing()
    modifies stream, stream.data
    ensures stream.Wrote(ErrorCodec(), value, ok)
  {
    hide StringCodec, IntCodec, ErrorCodec;
    ErrorLayout(value, stream.written);
    ErrorSize(value);
    I32Bytes(ErrorIndex(value));
    I32Range(ErrorIndex(value));
    Int32Range(ErrorIndex(value));
    match value {
      case InitializationError(_) => ok := stream.WriteInt(1);
      case SignupError(_) => ok := stream.WriteInt(2);
      case ExecutionError(_) => ok := stream.WriteInt(3);
      case NetworkError(_) => ok := stream.WriteInt(4);
      case StorageError(_) => ok := stream.WriteInt(5);
      case InvalidInput(_) => ok := stream.WriteInt(6);
      case DisconnectError(_) => ok := stream.WriteInt(7);
    }
    if !ok { return; }
    ok := WriteString(value.message, stream);
  }

  // ---------- Read ----------

  method ReadString(stream: BigEndianStream) returns (r: Result<bytes, WireError>)
    requires stream.Reading()
    modifies stream
    ensures stream.Follows(StringCodec().dec(old(stream.rest)), r)
  {
    hide IntCodec, TakeBytes;
    var length := stream.ReadInt();
    if length.Err? { return Err(length.error); }
    r := stream.ReadBytes(length.value);
  }

  method ReadFields(stream: BigEndianStream) returns (r: Result<seq<FieldElement>, WireError>)
    requires stream.Reading()
    modifies stream
    ensures stream.Follows(FieldsCodec().dec(old(stream.rest)), r)
  {
    hide StringCodec, IntCodec, DecodeMany;
    var length := stream.ReadInt();
    if length.Err? { return Err(length.error); }
    ManyEnd(StringCodec(), stream.rest, []);
    ManyStart(StringCodec(), 0, stream.rest);
    if length.value == 0 {
      return Ok([]);
    }
    if length.value < 0 {
      return Err(NegativeSequence);  // the array cannot be allocated
    }
    ghost var all := DecodeMany(StringCodec(), length.value, stream.rest);
    ManyStart(StringCodec(), length.value, stream.rest);
    var result := [];
    var i := 0;
    while i < length.value
      invariant 0 <= i <= length.value && stream.Reading() && stream.position >= old(stream.position)
      invariant all == Prepend(result, DecodeMany(StringCodec(), length.value - i, stream.rest))
    {
      ManyStep(StringCodec(), length.value - i, stream.rest, result);
      var item := ReadString(stream);
      if item.Err? { return Err(item.error); }
      result := result + [item.value];
      i := i + 1;
    }
    ManyEnd(StringCodec(), stream.rest, result);
    r := Ok(result);
  }

  method ReadCall(stream: BigEndianStream) returns (r: Result<Call, WireError>)
    requires stream.Reading()
    modifies stream
    ensures stream.Follows(CallCodec().dec(old(stream.rest)), r)
  {
    hide StringCodec, FieldsCodec, CallCodec;
    CallParse(stream.rest);
    var contractAddress := ReadString(stream);
    if contractAddress.Err? { return Err(contractAddress.error); }
    var entrypoint := ReadString(stream);
    if entrypoint.Err? { return Err(entrypoint.error); }
    var calldata := ReadFields(stream);
    if calldata.Err? { return Err(calldata.error); }
    r := Ok(Call(contractAddress.value, entrypoint.value, calldata.value));
  }

  method ReadError(stream: BigEndianStream) returns (r: Result<ControllerError, WireError>)
    requires stream.Reading()
    modifies stream
    ensures stream.Follows(ErrorCodec().dec(old(stream.rest)), r)
  {
    hide IntCodec, StringCodec, ErrorCodec;
    ErrorParse(stream.rest);
    var value := stream.ReadInt();
    if value.Err? { return Err(value.error); }
    if value.value < 1 || 7 < value.value {
      return Err(BadVariant);
    }
    var v1 := ReadString(stream);
    if v1.Err? { return Err(v1.error); }
    match value.value {
      case 1 => return Ok(InitializationError(v1.value));
      case 2 => return Ok(SignupError(v1.value));
      case 3 => return Ok(ExecutionError(v1.value));
      case 4 => return Ok(NetworkError(v1.value));
      case 5 => return Ok(StorageError(v1.value));
      case 6 => return Ok(InvalidInput(v1.value));
      case _ => return Ok(DisconnectError(v1.value));
    }
  }

  // ---------- LowerIntoRustBuffer and LiftFromRustBuffer ----------

  /** The types that have a converter in this binding. */
  predicate Supported(k: Kind) {
    k.FieldsKind? || k.CallKind? || k.ErrorKind?
  }

  method AllocationSizeValue(value: Value) returns (size: Option<int>)
    requires Supported(value.Kind())
    ensures Sizes(size, |EncodeValue(value)|)
  {
    hide FieldsCodec, CallCodec, ErrorCodec;
    match value {
      case FieldsValue(x) => size := AllocationSizeFields(Some(x));
      case CallValue(x) => size := AllocationSizeCall(x);
      case ErrorValue(x) => size := AllocationSizeError(x);
    }
  }

  method WriteValue(value: Value, stream: BigEndianStream) returns (ok: bool)
    requires stream.Writing() && Supported(value.Kind())
    modifies stream, stream.data
    ensures stream.Wrote(ValueCodec(value.Kind()), value, ok)
  {
    hide FieldsCodec, CallCodec, ErrorCodec, StringCodec;
    match value {
      case FieldsValue(x) => ok := WriteFields(Some(x), stream);
      case CallValue(x) => ok := WriteCall(x, stream);
      case ErrorValue(x) => ok := WriteError(x, stream);
    }
  }

  method ReadValue(kind: Kind, stream: BigEndianStream) returns (r: Result<Value, WireError>)
    requires stream.Reading() && Supported(kind)
    modifies stream
    ensures stream.Follows(DecodeValue(kind, old(stream.rest)), r)
  {
    hide FieldsCodec, CallCodec, ErrorCodec, StringCodec;
    match kind {
      case FieldsKind =>
        var x := ReadFields(stream);
        r := if x.Ok? then Ok(FieldsValue(x.value)) else Err(x.error);
      case CallKind =>
        var x := ReadCall(stream);
        r := if x.Ok? then Ok(CallValue(x.value)) else Err(x.error);
      case ErrorKind =>
        var x := ReadError(stream);
        r := if x.Ok? then Ok(ErrorValue(x.value)) else Err(x.error);
    }
  }

  lemma {:induction false} ItemsFit(s: seq<FieldElement>)
    requires |EncodeAll(StringCodec(), s)| <= INT32_MAX
    ensures AllOk(StringCodec(), s) && |s| <= |EncodeAll(StringCodec(), s)|
  {
    if s != [] {
      var last := |s| - 1;
      StringSize(s[last]);
      ItemsFit(s[..last]);
      EncodeAllNext(StringCodec(), s, last);
      assert s[..last + 1] == s;
    }
  }

  lemma CallFits(c: Call)
    requires |CallCodec().enc(c)| <= INT32_MAX
    ensures CallCodec().ok(c)
  {
    hide StringCodec, CallCodec, FieldsCodec;
    CallSize(c);
    StringSize(c.contractAddress);
    StringSize(c.entrypoint);
    StringLayout(c.contractAddress, []);
    StringLayout(c.entrypoint, []);
    FieldsFits(c.calldata);
    CallLayout(c, []);
  }

  lemma FieldsFits(s: seq<FieldElement>)
    requires |FieldsCodec().enc(s)| <= INT32_MAX
    ensures FieldsCodec().ok(s)
  {
    hide StringCodec, IntCodec, EncodeAll, AllOk;
    FieldsSize(s);
    ItemsFit(s);
    SeqLayout(StringCodec(), s, []);
  }

  lemma ErrorFits(e: ControllerError)
    requires |ErrorCodec().enc(e)| <= INT32_MAX
    ensures ErrorCodec().ok(e)
  {
    hide StringCodec, ErrorCodec;
    ErrorSize(e);
    StringSize(e.message);
    StringLayout(e.message, []);
    ErrorLayout(e, []);
  }

  /** What fits an `int` has an encoding: no length inside it can be larger. */
  lemma FitsIsOk(v: Value)
    requires Supported(v.Kind()) && |EncodeValue(v)| <= INT32_MAX
    ensures ValueOk(v)
  {
    hide FieldsCodec, CallCodec, ErrorCodec;
    match v
    case FieldsValue(x) => FieldsFits(x);
    case CallValue(x) => CallFits(x);
    case ErrorValue(x) => ErrorFits(x);
  }

  /** Lowers a value, or throws and frees what was allocated. A value whose encoding fits an `int` is
      always lowered; and although the size is computed in wrapping arithmetic, no value ever yields
      anything but its complete encoding. */
  method LowerIntoRustBuffer(value: Value, heap: Heap) returns (r: Option<RustBuffer>)
    requires Supported(value.Kind())
    modifies heap
    ensures |EncodeValue(value)| <= INT32_MAX ==> r.Some?
    ensures r.Some? ==>
              && ValueOk(value)
              && fresh(r.value.data) && heap.Holds(r.value)
              && heap.live == old(heap.live) + {r.value.data}
              && heap.Payload(r.value) == EncodeValue(value)
    ensures r.None? ==> heap.live == old(heap.live)
  {
    hide EncodeValue, ValueOk, DecodeValue, Sizes, Wrap32;
    var size := AllocationSizeValue(value);
    SizesSmall(size, |EncodeValue(value)|);
    if size.None? || size.value < 0 {
      return None;
    }
    if |EncodeValue(value)| <= INT32_MAX {
      FitsIsOk(value);
    }
    var rbuf := heap.Alloc(size.value);
    var stream := new BigEndianStream.AsWriteableStream(rbuf);
    var ok := WriteValue(value, stream);
    if ok {
      r := Some(rbuf.(len := stream.position));
    } else {
      heap.Free(rbuf);
      r := None;
    }
  }

  method LiftFromRustBuffer(kind: Kind, rbuf: RustBuffer, heap: Heap) returns (r: Result<Value, WireError>)
    requires heap.Holds(rbuf) && Supported(kind)
    modifies heap
    ensures heap.live == old(heap.live) - {rbuf.data}
    ensures r == Lift(ValueCodec(kind), old(heap.Payload(rbuf)))
  {
    hide DecodeValue;
    var stream := new BigEndianStream.AsStream(rbuf);
    r := ReadValue(kind, stream);
    if r.Ok? {
      var junk := stream.HasRemaining();
      if junk {
        r := Err(Junk);
      }
    }
    heap.Free(rbuf);
  }

  /** A string on its own relies on the foreign allocator having set the buffer's length. */
  method LowerString(value: bytes, heap: Heap) returns (r: Option<RustBuffer>)
    modifies heap
    ensures r.Some? <==> |value| <= INT32_MAX
    ensures r.Some? ==>
              && fresh(r.value.data) && heap.Holds(r.value)
              && heap.live == old(heap.live) + {r.value.data}
              && heap.Payload(r.value) == value
    ensures r.None? ==> heap.live == old(heap.live)
  {
    if |value| > INT32_MAX {
      return None;
    }
    var rbuf := heap.Alloc(|value|);
    var stream := new BigEndianStream.AsWriteableStream(rbuf);
    var ok := stream.WriteBytes(value);
    r := Some(rbuf);
  }
}
