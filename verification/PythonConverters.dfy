/** The Python binding's converters: what each one writes and reads, and the ownership of the
    buffer on every path through `lower` and `lift`. */
module PythonConverters {
  import opened Wrappers
  import opened Bytes
  import opened WireFormat
  import opened Records
  import opened RustHeap
  import opened PythonBuffers

  // ---------- Writers ----------

  method WriteString(value: bytes, buf: RustBufferBuilder) returns (ok: bool)
    requires buf.Valid()
    modifies buf, buf.heap, buf.rbuf.value.data
    ensures buf.Wrote(StringCodec(), value, ok)
  {
    hide StringCodec, IntCodec;
    StringLayout(value, buf.contents);
    I32Range(|value|);
    ok := buf.WriteI32(|value|);
    if ok {
      buf.Write(value);
    }
  }

  method WriteFields(value: seq<FieldElement>, buf: RustBufferBuilder) returns (ok: bool)
    requires buf.Valid()
    modifies buf, buf.heap, buf.rbuf.value.data
    ensures buf.Wrote(FieldsCodec(), value, ok)
  {
    hide StringCodec, IntCodec, SeqCodec, AllOk, EncodeAll;
    SeqLayout(StringCodec(), value, buf.contents);
    I32Range(|value|);
    ok := buf.WriteI32(|value|);
    if !ok { return; }
    ghost var start := buf.contents;
    EncodeNone(StringCodec(), value);
    var i := 0;
    while i < |value|
      invariant 0 <= i <= |value| && buf.Kept()
      invariant AllOk(StringCodec(), value[..i])
      invariant buf.contents == start + EncodeAll(StringCodec(), value[..i])
    {
      EncodeAllNext(StringCodec(), value, i);
      ok := WriteString(value[i], buf);
      if !ok { return; }
      i := i + 1;
    }
    assert value[..i] == value;
  }

  method WriteCall(value: Call, buf: RustBufferBuilder) returns (ok: bool)
    requires buf.Valid()
    modifies buf, buf.heap, buf.rbuf.value.data
    ensures buf.Wrote(CallCodec(), value, ok)
  {
    hide StringCodec, FieldsCodec, CallCodec;
    CallLayout(value, buf.contents);
    ok := WriteString(value.contractAddress, buf);
    if !ok { return; }
    ok := WriteString(value.entrypoint, buf);
    if !ok { return; }
    ok := WriteFields(value.calldata, buf);
  }

  method WritePolicy(value: SessionPolicy, buf: RustBufferBuilder) returns (ok: bool)
    requires buf.Valid()
    modifies buf, buf.heap, buf.rbuf.value.data
    ensures buf.Wrote(PolicyCodec(), value, ok)
  {
    hide StringCodec, PolicyCodec;
    PolicyLayout(value, buf.contents);
    ok := WriteString(value.contractAddress, buf);
    if !ok { return; }
    ok := WriteString(value.entrypoint, buf);
  }

  method WritePolicySeq(value: seq<SessionPolicy>, buf: RustBufferBuilder) returns (ok: bool)
    requires buf.Valid()
    modifies buf, buf.heap, buf.rbuf.value.data
    ensures buf.Wrote(PolicySeqCodec(), value, ok)
  {
    hide PolicyCodec, IntCodec, SeqCodec, AllOk, EncodeAll;
    SeqLayout(PolicyCodec(), value, buf.contents);
    I32Range(|value|);
    ok := buf.WriteI32(|value|);
    if !ok { return; }
    ghost var start := buf.contents;
    EncodeNone(PolicyCodec(), value);
    var i := 0;
    while i < |value|
      invariant 0 <= i <= |value| && buf.Kept()
      invariant AllOk(PolicyCodec(), value[..i])
      invariant buf.contents == start + EncodeAll(PolicyCodec(), value[..i])
    {
      EncodeAllNext(PolicyCodec(), value, i);
      ok := WritePolicy(value[i], buf);
      if !ok { return; }
      i := i + 1;
    }
    assert value[..i] == value;
  }

  method WritePolicies(value: SessionPolicies, buf: RustBufferBuilder) returns (ok: bool)
    requires buf.Valid()
    modifies buf, buf.heap, buf.rbuf.value.data
    ensures buf.Wrote(PoliciesCodec(), value, ok)
  {
    hide StringCodec, PolicySeqCodec, PoliciesCodec;
    PoliciesLayout(value, buf.contents);
    ok := WritePolicySeq(value.policies, buf);
    if !ok { return; }
    ok := WriteString(value.maxFee, buf);
  }

  method WriteError(value: ControllerError, buf: RustBufferBuilder) returns (ok: bool)
    requires buf.Valid()
    modifies buf, buf.heap, buf.rbuf.value.data
    ensures buf.Wrote(ErrorCodec(), value, ok)
  {
    hide StringCodec, IntCodec, ErrorCodec;
    ErrorLayout(value, buf.contents);
    I32Range(ErrorIndex(value));
    match value {
      case InitializationError(_) => ok := buf.WriteI32(1);
      case SignupError(_) => ok := buf.WriteI32(2);
      case ExecutionError(_) => ok := buf.WriteI32(3);
      case NetworkError(_) => ok := buf.WriteI32(4);
      case StorageError(_) => ok := buf.WriteI32(5);
      case InvalidInput(_) => ok := buf.WriteI32(6);
      case DisconnectError(_) => ok := buf.WriteI32(7);
    }
    ok := WriteString(value.message, buf);
  }

  method WriteSigner(value: SignerType, buf: RustBufferBuilder) returns (ok: bool)
    requires buf.Valid()
    modifies buf, buf.heap, buf.rbuf.value.data
    ensures buf.Wrote(SignerCodec(), value, ok)
  {
    hide IntCodec, SignerCodec;
    EnumLayout(value, Latest);
    I32Range(SignerIndex(value));
    match value {
      case Webauthn => ok := buf.WriteI32(1);
      case Starknet => ok := buf.WriteI32(2);
    }
  }

  method WriteVersion(value: Version, buf: RustBufferBuilder) returns (ok: bool)
    requires buf.Valid()
    modifies buf, buf.heap, buf.rbuf.value.data
    ensures buf.Wrote(VersionCodec(), value, ok)
  {
    hide IntCodec, VersionCodec;
    EnumLayout(Webauthn, value);
    I32Range(VersionIndex(value));
    match value {
      case V1_0_4 => ok := buf.WriteI32(1);
      case V1_0_5 => ok := buf.WriteI32(2);
      case V1_0_6 => ok := buf.WriteI32(3);
      case V1_0_7 => ok := buf.WriteI32(4);
      case V1_0_8 => ok := buf.WriteI32(5);
      case V1_0_9 => ok := buf.WriteI32(6);
      case Latest => ok := buf.WriteI32(7);
    }
  }

  method WriteCalls(value: seq<Call>, buf: RustBufferBuilder) returns (ok: bool)
    requires buf.Valid()
    modifies buf, buf.heap, buf.rbuf.value.data
    ensures buf.Wrote(CallsCodec(), value, ok)
  {
    hide CallCodec, IntCodec, SeqCodec, AllOk, EncodeAll;
    SeqLayout(CallCodec(), value, buf.contents);
    I32Range(|value|);
    ok := buf.WriteI32(|value|);
    if !ok { return; }
    ghost var start := buf.contents;
    EncodeNone(CallCodec(), value);
    var i := 0;
    while i < |value|
      invariant 0 <= i <= |value| && buf.Kept()
      invariant AllOk(CallCodec(), value[..i])
      invariant buf.contents == start + EncodeAll(CallCodec(), value[..i])
    {
      EncodeAllNext(CallCodec(), value, i);
      ok := WriteCall(value[i], buf);
      if !ok { return; }
      i := i + 1;
    }
    assert value[..i] == value;
  }

  method WriteOptionalU64(value: Option<int>, buf: RustBufferBuilder) returns (ok: bool)
    requires buf.Valid()
    modifies buf, buf.heap, buf.rbuf.value.data
    ensures buf.Wrote(OptionalU64Codec(), value, ok)
  {
    hide U64, IntCodec, OptionCodec;
    OptionLayout(U64(), value, buf.contents);
    FlagBytes();
    if value.None? {
      ok := buf.WriteU8(0);
      return;
    }
    ok := buf.WriteU8(1);
    ok := buf.WriteU64(value.value);
  }

  method WriteOptionalString(value: Option<bytes>, buf: RustBufferBuilder) returns (ok: bool)
    requires buf.Valid()
    modifies buf, buf.heap, buf.rbuf.value.data
    ensures buf.Wrote(OptionalStringCodec(), value, ok)
  {
    hide StringCodec, IntCodec, OptionCodec;
    OptionLayout(StringCodec(), value, buf.contents);
    FlagBytes();
    if value.None? {
      ok := buf.WriteU8(0);
      return;
    }
    ok := buf.WriteU8(1);
    ok := WriteString(value.value, buf);
  }

  method WriteVariantValue(value: Value, buf: RustBufferBuilder) returns (ok: bool)
    requires buf.Valid()
    requires !value.Kind().IsRecord()
    modifies buf, buf.heap, buf.rbuf.value.data
    ensures buf.Wrote(ValueCodec(value.Kind()), value, ok)
  {
    hide DecodeValue, SeqCodec, StringCodec, PairCodec, VariantCodec, OptionCodec, CallCodec, PolicyCodec,
         PoliciesCodec, IntCodec, ErrorCodec, SignerCodec, VersionCodec, FieldsCodec, CallsCodec, PolicySeqCodec,
         OptionalU64Codec, OptionalStringCodec;
    match value {
      case ErrorValue(x) => ok := WriteError(x, buf);
      case SignerValue(x) => ok := WriteSigner(x, buf);
      case VersionValue(x) => ok := WriteVersion(x, buf);
      case OptionalU64Value(x) => ok := WriteOptionalU64(x, buf);
      case OptionalStringValue(x) => ok := WriteOptionalString(x, buf);
    }
  }

  /** `cls.write`: the class of the value picks the converter. */
  method WriteValue(value: Value, buf: RustBufferBuilder) returns (ok: bool)
    requires buf.Valid()
    modifies buf, buf.heap, buf.rbuf.value.data
    ensures buf.Wrote(ValueCodec(value.Kind()), value, ok)
  {
    hide DecodeValue, SeqCodec, StringCodec, PairCodec, VariantCodec, OptionCodec, CallCodec, PolicyCodec,
         PoliciesCodec, IntCodec, ErrorCodec, SignerCodec, VersionCodec, FieldsCodec, CallsCodec, PolicySeqCodec,
         OptionalU64Codec, OptionalStringCodec;
    match value {
      case FieldsValue(x) => ok := WriteFields(x, buf);
      case CallValue(x) => ok := WriteCall(x, buf);
      case CallsValue(x) => ok := WriteCalls(x, buf);
      case PolicyValue(x) => ok := WritePolicy(x, buf);
      case PolicySeqValue(x) => ok := WritePolicySeq(x, buf);
      case PoliciesValue(x) => ok := WritePolicies(x, buf);
      case _ => ok := WriteVariantValue(value, buf);
    }
  }

  // ---------- Readers ----------

  method ReadString(buf: RustBufferStream) returns (r: Result<bytes, WireError>)
    requires buf.Valid()
    modifies buf
    ensures buf.Read(StringCodec(), r)
  {
    hide IntCodec, TakeBytes;
    var size := buf.ReadI32();
    if size.Err? { return Err(size.error); }
    if size.value < 0 {
      return Err(NegativeString);
    }
    r := buf.ReadBytes(size.value);
  }

  method ReadFields(buf: RustBufferStream) returns (r: Result<seq<FieldElement>, WireError>)
    requires buf.Valid()
    modifies buf
    ensures buf.Read(FieldsCodec(), r)
  {
    hide StringCodec, IntCodec, DecodeMany;
    var count := buf.ReadI32();
    if count.Err? { return Err(count.error); }
    if count.value < 0 {
      return Err(NegativeSequence);
    }
    ghost var all := DecodeMany(StringCodec(), count.value, buf.rest);
    ManyStart(StringCodec(), count.value, buf.rest);
    var items := [];
    var i := 0;
    while i < count.value
      invariant 0 <= i <= count.value && buf.Valid() && buf.offset >= old(buf.offset)
      invariant all == Prepend(items, DecodeMany(StringCodec(), count.value - i, buf.rest))
    {
      ManyStep(StringCodec(), count.value - i, buf.rest, items);
      var item := ReadString(buf);
      if item.Err? { return Err(item.error); }
      items := items + [item.value];
      i := i + 1;
    }
    ManyEnd(StringCodec(), buf.rest, items);
    r := Ok(items);
  }

  method ReadCall(buf: RustBufferStream) returns (r: Result<Call, WireError>)
    requires buf.Valid()
    modifies buf
    ensures buf.Read(CallCodec(), r)
  {
    hide IntCodec, DecodeString, DecodeSeq;
    var contractAddress := ReadString(buf);
    if contractAddress.Err? { return Err(contractAddress.error); }
    var entrypoint := ReadString(buf);
    if entrypoint.Err? { return Err(entrypoint.error); }
    var calldata := ReadFields(buf);
    if calldata.Err? { return Err(calldata.error); }
    r := Ok(Call(contractAddress.value, entrypoint.value, calldata.value));
  }

  method ReadPolicy(buf: RustBufferStream) returns (r: Result<SessionPolicy, WireError>)
    requires buf.Valid()
    modifies buf
    ensures buf.Read(PolicyCodec(), r)
  {
    hide IntCodec, DecodeString;
    var contractAddress := ReadString(buf);
    if contractAddress.Err? { return Err(contractAddress.error); }
    var entrypoint := ReadString(buf);
    if entrypoint.Err? { return Err(entrypoint.error); }
    r := Ok(SessionPolicy(contractAddress.value, entrypoint.value));
  }

  method ReadPolicySeq(buf: RustBufferStream) returns (r: Result<seq<SessionPolicy>, WireError>)
    requires buf.Valid()
    modifies buf
    ensures buf.Read(PolicySeqCodec(), r)
  {
    hide PolicyCodec, IntCodec, DecodeMany;
    var count := buf.ReadI32();
    if count.Err? { return Err(count.error); }
    if count.value < 0 {
      return Err(NegativeSequence);
    }
    ghost var all := DecodeMany(PolicyCodec(), count.value, buf.rest);
    ManyStart(PolicyCodec(), count.value, buf.rest);
    var items := [];
    var i := 0;
    while i < count.value
      invariant 0 <= i <= count.value && buf.Valid() && buf.offset >= old(buf.offset)
      invariant all == Prepend(items, DecodeMany(PolicyCodec(), count.value - i, buf.rest))
    {
      ManyStep(PolicyCodec(), count.value - i, buf.rest, items);
      var item := ReadPolicy(buf);
      if item.Err? { return Err(item.error); }
      items := items + [item.value];
      i := i + 1;
    }
    ManyEnd(PolicyCodec(), buf.rest, items);
    r := Ok(items);
  }

  method ReadPolicies(buf: RustBufferStream) returns (r: Result<SessionPolicies, WireError>)
    requires buf.Valid()
    modifies buf
    ensures buf.Read(PoliciesCodec(), r)
  {
    hide IntCodec, DecodeString, DecodeSeq, PolicyCodec;
    var policies := ReadPolicySeq(buf);
    if policies.Err? { return Err(policies.error); }
    var maxFee := ReadString(buf);
    if maxFee.Err? { return Err(maxFee.error); }
    r := Ok(SessionPolicies(policies.value, maxFee.value));
  }

  method ReadError(buf: RustBufferStream) returns (r: Result<ControllerError, WireError>)
    requires buf.Valid()
    modifies buf
    ensures buf.Read(ErrorCodec(), r)
  {
    hide IntCodec, DecodeString;
    var variant := buf.ReadI32();
    if variant.Err? { return Err(variant.error); }
    if variant.value < 1 || 7 < variant.value {
      return Err(BadVariant);
    }
    var message := ReadString(buf);
    if message.Err? { return Err(message.error); }
    var m := message.value;
    if variant.value == 1 { return Ok(InitializationError(m)); }
    if variant.value == 2 { return Ok(SignupError(m)); }
    if variant.value == 3 { return Ok(ExecutionError(m)); }
    if variant.value == 4 { return Ok(NetworkError(m)); }
    if variant.value == 5 { return Ok(StorageError(m)); }
    if variant.value == 6 { return Ok(InvalidInput(m)); }
    return Ok(DisconnectError(m));
  }

  method ReadSigner(buf: RustBufferStream) returns (r: Result<SignerType, WireError>)
    requires buf.Valid()
    modifies buf
    ensures buf.Read(SignerCodec(), r)
  {
    hide IntCodec;
    var variant := buf.ReadI32();
    if variant.Err? { return Err(variant.error); }
    if variant.value == 1 { return Ok(Webauthn); }
    if variant.value == 2 { return Ok(Starknet); }
    return Err(BadVariant);
  }

  method ReadVersion(buf: RustBufferStream) returns (r: Result<Version, WireError>)
    requires buf.Valid()
    modifies buf
    ensures buf.Read(VersionCodec(), r)
  {
    hide IntCodec;
    var variant := buf.ReadI32();
    if variant.Err? { return Err(variant.error); }
    if variant.value == 1 { return Ok(V1_0_4); }
    if variant.value == 2 { return Ok(V1_0_5); }
    if variant.value == 3 { return Ok(V1_0_6); }
    if variant.value == 4 { return Ok(V1_0_7); }
    if variant.value == 5 { return Ok(V1_0_8); }
    if variant.value == 6 { return Ok(V1_0_9); }
    if variant.value == 7 { return Ok(Latest); }
    return Err(BadVariant);
  }

  method ReadCalls(buf: RustBufferStream) returns (r: Result<seq<Call>, WireError>)
    requires buf.Valid()
    modifies buf
    ensures buf.Read(CallsCodec(), r)
  {
    hide CallCodec, IntCodec, DecodeMany;
    var count := buf.ReadI32();
    if count.Err? { return Err(count.error); }
    if count.value < 0 {
      return Err(NegativeSequence);
    }
    ghost var all := DecodeMany(CallCodec(), count.value, buf.rest);
    ManyStart(CallCodec(), count.value, buf.rest);
    var items := [];
    var i := 0;
    while i < count.value
      invariant 0 <= i <= count.value && buf.Valid() && buf.offset >= old(buf.offset)
      invariant all == Prepend(items, DecodeMany(CallCodec(), count.value - i, buf.rest))
    {
      ManyStep(CallCodec(), count.value - i, buf.rest, items);
      var item := ReadCall(buf);
      if item.Err? { return Err(item.error); }
      items := items + [item.value];
      i := i + 1;
    }
    ManyEnd(CallCodec(), buf.rest, items);
    r := Ok(items);
  }

  method ReadOptionalU64(buf: RustBufferStream) returns (r: Result<Option<int>, WireError>)
    requires buf.Valid()
    modifies buf
    ensures buf.Read(OptionalU64Codec(), r)
  {
    hide U64, IntCodec;
    FlagBytes();
    var flag := buf.ReadU8();
    if flag.Err? { return Err(flag.error); }
    if flag.value == 0 {
      return Ok(None);
    } else if flag.value == 1 {
      var x := buf.ReadU64();
      if x.Err? { return Err(x.error); }
      return Ok(Some(x.value));
    } else {
      return Err(BadFlag);
    }
  }

  method ReadOptionalString(buf: RustBufferStream) returns (r: Result<Option<bytes>, WireError>)
    requires buf.Valid()
    modifies buf
    ensures buf.Read(OptionalStringCodec(), r)
  {
    hide StringCodec, IntCodec;
    FlagBytes();
    var flag := buf.ReadU8();
    if flag.Err? { return Err(flag.error); }
    if flag.value == 0 {
      return Ok(None);
    } else if flag.value == 1 {
      var x := ReadString(buf);
      if x.Err? { return Err(x.error); }
      return Ok(Some(x.value));
    } else {
      return Err(BadFlag);
    }
  }

  method ReadVariantValue(kind: Kind, buf: RustBufferStream) returns (r: Result<Value, WireError>)
    requires buf.Valid()
    requires !kind.IsRecord()
    modifies buf
    ensures buf.Read(ValueCodec(kind), r)
  {
    hide SeqCodec, StringCodec, PairCodec, VariantCodec, OptionCodec, CallCodec, PolicyCodec, PoliciesCodec, IntCodec,
         ErrorCodec, SignerCodec, VersionCodec, FieldsCodec, CallsCodec, PolicySeqCodec,
         OptionalU64Codec, OptionalStringCodec;
    match kind {
      case ErrorKind =>
        var x := ReadError(buf);
        r := if x.Ok? then Ok(ErrorValue(x.value)) else Err(x.error);
      case SignerKind =>
        var x := ReadSigner(buf);
        r := if x.Ok? then Ok(SignerValue(x.value)) else Err(x.error);
      case VersionKind =>
        var x := ReadVersion(buf);
        r := if x.Ok? then Ok(VersionValue(x.value)) else Err(x.error);
      case OptionalU64Kind =>
        var x := ReadOptionalU64(buf);
        r := if x.Ok? then Ok(OptionalU64Value(x.value)) else Err(x.error);
      case OptionalStringKind =>
        var x := ReadOptionalString(buf);
        r := if x.Ok? then Ok(OptionalStringValue(x.value)) else Err(x.error);
    }
  }

  /** `cls.read`: the class asked for picks the converter. */
  method ReadValue(kind: Kind, buf: RustBufferStream) returns (r: Result<Value, WireError>)
    requires buf.Valid()
    modifies buf
    ensures buf.Read(ValueCodec(kind), r)
  {
    hide SeqCodec, StringCodec, PairCodec, VariantCodec, OptionCodec, CallCodec, PolicyCodec, PoliciesCodec, IntCodec,
         ErrorCodec, SignerCodec, VersionCodec, FieldsCodec, CallsCodec, PolicySeqCodec,
         OptionalU64Codec, OptionalStringCodec;
    match kind {
      case FieldsKind =>
        var x := ReadFields(buf);
        r := if x.Ok? then Ok(FieldsValue(x.value)) else Err(x.error);
      case CallKind =>
        var x := ReadCall(buf);
        r := if x.Ok? then Ok(CallValue(x.value)) else Err(x.error);
      case CallsKind =>
        var x := ReadCalls(buf);
        r := if x.Ok? then Ok(CallsValue(x.value)) else Err(x.error);
      case PolicyKind =>
        var x := ReadPolicy(buf);
        r := if x.Ok? then Ok(PolicyValue(x.value)) else Err(x.error);
      case PolicySeqKind =>
        var x := ReadPolicySeq(buf);
        r := if x.Ok? then Ok(PolicySeqValue(x.value)) else Err(x.error);
      case PoliciesKind =>
        var x := ReadPolicies(buf);
        r := if x.Ok? then Ok(PoliciesValue(x.value)) else Err(x.error);
      case _ => r := ReadVariantValue(kind, buf);
    }
  }

  // ---------- Ownership of the buffer ----------

  /** Lowers a value into a buffer of its own. The caller receives exactly the encoding and becomes
      the owner of that one buffer; when the value has no encoding nothing stays allocated. */
  method Lower(value: Value, heap: Heap) returns (r: Option<RustBuffer>)
    modifies heap
    ensures r.Some? <==> ValueCodec(value.Kind()).ok(value)
    ensures r.Some? ==>
              && fresh(r.value.data) && heap.Holds(r.value)
              && heap.live == old(heap.live) + {r.value.data}
              && heap.Payload(r.value) == ValueCodec(value.Kind()).enc(value)
    ensures r.None? ==> heap.live == old(heap.live)
  {
    hide ValueCodec;
    var builder := new RustBufferBuilder(heap);
    var ok := WriteValue(value, builder);
    if ok {
      var buf := builder.Finalize();
      r := Some(buf);
    } else {
      builder.Discard();
      r := None;
    }
  }

  /** Lifts a value out of a buffer and frees the buffer, whether or not its bytes are acceptable. */
  method LiftValue(kind: Kind, buf: RustBuffer, heap: Heap) returns (r: Result<Value, WireError>)
    requires heap.Holds(buf)
    modifies heap
    ensures heap.live == old(heap.live) - {buf.data}
    ensures r == Lift(ValueCodec(kind), old(heap.Payload(buf)))
  {
    hide ValueCodec;
    var stream := new RustBufferStream.FromRustBuffer(buf);
    r := ReadValue(kind, stream);
    if r.Ok? {
      var remaining := stream.RemainingCount();
      if remaining != 0 {
        r := Err(Junk);
      }
    }
    heap.Free(buf);
  }

  /** A string on its own is lowered without a length in front: the buffer's length is enough. */
  method LowerString(value: bytes, heap: Heap) returns (buf: RustBuffer)
    modifies heap
    ensures fresh(buf.data) && heap.Holds(buf) && heap.Payload(buf) == value
    ensures heap.live == old(heap.live) + {buf.data}
  {
    var builder := new RustBufferBuilder(heap);
    builder.Write(value);
    buf := builder.Finalize();
  }

  method LiftString(buf: RustBuffer, heap: Heap) returns (value: bytes)
    requires heap.Holds(buf)
    modifies heap
    ensures value == old(heap.Payload(buf))
    ensures heap.live == old(heap.live) - {buf.data}
  {
    var stream := new RustBufferStream.FromRustBuffer(buf);
    var remaining := stream.RemainingCount();
    var r := stream.ReadBytes(remaining);
    value := r.value;
    heap.Free(buf);
  }
}
