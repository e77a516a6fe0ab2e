/** The C++ binding's converters: the size fixed before writing, what is written, and what is read.

    Lengths are cast to 32 bits without a check, as the codecs' encoders do, and sizes are sums modulo
    2^64, so sizes and bytes are stated for all values. Reading is total as well: a stream that runs out
    goes bad without a word, and the contracts say exactly when. */
module CppConverters {
  import opened Wrappers
  import opened Bytes
  import opened WireFormat
  import opened Records
  import opened RustHeap
  import opened CppStream

  // ---------- allocation_size ----------

  /** Unsigned 64-bit arithmetic. */
  function Wrap64(n: nat): (r: nat)
    ensures r <= n && (n < UINT64_MOD ==> r == n)
  {
    n % UINT64_MOD
  }

  lemma WrapSum(a: nat, b: nat)
    ensures Wrap64(Wrap64(a) + Wrap64(b)) == Wrap64(a + b)
  {}

  method SizeString(value: bytes) returns (n: nat)
    ensures n == Wrap64(|StringCodec().enc(value)|)
  {
    hide StringCodec, IntCodec;
    StringLayout(value, []);
    I32Size(|value|);
    n := Wrap64(4 + |value|);
  }

  lemma I32Size(n: int)
    ensures I32().enc(n) == BigEndian(4, n) && |I32().enc(n)| == 4
  {}

  method SizeFields(value: seq<FieldElement>) returns (n: nat)
    ensures n == Wrap64(|FieldsCodec().enc(value)|)
  {
    hide StringCodec, IntCodec, SeqCodec, EncodeAll, AllOk, Wrap64;
    EncodeNone(StringCodec(), value);
    SeqLayout(StringCodec(), value, []);
    I32Size(|value|);
    n := 4;
    var i := 0;
    while i < |value|
      invariant 0 <= i <= |value|
      invariant n == Wrap64(4 + |EncodeAll(StringCodec(), value[..i])|)
    {
      EncodeAllNext(StringCodec(), value, i);
      WrapSum(4 + |EncodeAll(StringCodec(), value[..i])|, |StringCodec().enc(value[i])|);
      var size := SizeString(value[i]);
      n := Wrap64(n + size);
      i := i + 1;
    }
    assert value[..i] == value;
  }

  method SizeCall(value: Call) returns (n: nat)
    ensures n == Wrap64(|CallCodec().enc(value)|)
  {
    hide StringCodec, FieldsCodec, CallCodec, Wrap64;
    CallLayout(value, []);
    WrapSum(|StringCodec().enc(value.contractAddress)|, |StringCodec().enc(value.entrypoint)|);
    WrapSum(|StringCodec().enc(value.contractAddress)| + |StringCodec().enc(value.entrypoint)|,
            |FieldsCodec().enc(value.calldata)|);
    var s0 := SizeString(value.contractAddress);
    var s1 := SizeString(value.entrypoint);
    var s2 := SizeFields(value.calldata);
    n := Wrap64(Wrap64(s0 + s1) + s2);
  }

  method SizeCalls(value: seq<Call>) returns (n: nat)
    ensures n == Wrap64(|CallsCodec().enc(value)|)
  {
    hide CallCodec, IntCodec, SeqCodec, EncodeAll, AllOk, Wrap64;
    EncodeNone(CallCodec(), value);
    SeqLayout(CallCodec(), value, []);
    I32Size(|value|);
    n := 4;
    var i := 0;
    while i < |value|
      invariant 0 <= i <= |value|
      invariant n == Wrap64(4 + |EncodeAll(CallCodec(), value[..i])|)
    {
      EncodeAllNext(CallCodec(), value, i);
      WrapSum(4 + |EncodeAll(CallCodec(), value[..i])|, |CallCodec().enc(value[i])|);
      var size := SizeCall(value[i]);
      n := Wrap64(n + size);
      i := i + 1;
    }
    assert value[..i] == value;
  }

  method SizePolicy(value: SessionPolicy) returns (n: nat)
    ensures n == Wrap64(|PolicyCodec().enc(value)|)
  {
    hide StringCodec, PolicyCodec, Wrap64;
    PolicyLayout(value, []);
    WrapSum(|StringCodec().enc(value.contractAddress)|, |StringCodec().enc(value.entrypoint)|);
    var s0 := SizeString(value.contractAddress);
    var s1 := SizeString(value.entrypoint);
    n := Wrap64(s0 + s1);
  }

  method SizePolicySeq(value: seq<SessionPolicy>) returns (n: nat)
    ensures n == Wrap64(|PolicySeqCodec().enc(value)|)
  {
    hide PolicyCodec, IntCodec, SeqCodec, EncodeAll, AllOk, Wrap64;
    EncodeNone(PolicyCodec(), value);
    SeqLayout(PolicyCodec(), value, []);
    I32Size(|value|);
    n := 4;
    var i := 0;
    while i < |value|
      invariant 0 <= i <= |value|
      invariant n == Wrap64(4 + |EncodeAll(PolicyCodec(), value[..i])|)
    {
      EncodeAllNext(PolicyCodec(), value, i);
      WrapSum(4 + |EncodeAll(PolicyCodec(), value[..i])|, |PolicyCodec().enc(value[i])|);
      var size := SizePolicy(value[i]);
      n := Wrap64(n + size);
      i := i + 1;
    }
    assert value[..i] == value;
  }

  method SizePolicies(value: SessionPolicies) returns (n: nat)
    ensures n == Wrap64(|PoliciesCodec().enc(value)|)
  {
    hide StringCodec, PolicySeqCodec, PoliciesCodec, Wrap64;
    PoliciesLayout(value, []);
    WrapSum(|PolicySeqCodec().enc(value.policies)|, |StringCodec().enc(value.maxFee)|);
    var s0 := SizePolicySeq(value.policies);
    var s1 := SizeString(value.maxFee);
    n := Wrap64(s0 + s1);
  }

  method SizeOptionalU64(value: Option<int>) returns (n: nat)
    ensures n == Wrap64(|OptionalU64Codec().enc(value)|)
  {
    n := 1;
    if value.Some? {
      n := n + 8;
    }
  }

  method SizeOptionalString(value: Option<bytes>) returns (n: nat)
    ensures n == Wrap64(|OptionalStringCodec().enc(value)|)
  {
    n := 1;
    if value.Some? {
      WrapSum(1, |StringCodec().enc(value.value)|);
      var size := SizeString(value.value);
      n := Wrap64(n + size);
    }
  }

  lemma ErrorBytes(e: ControllerError)
    ensures ErrorCodec().enc(e) == I32().enc(ErrorIndex(e)) + StringCodec().enc(e.message)
    ensures |I32().enc(ErrorIndex(e))| == 4 && |StringCodec().enc(e.message)| >= 4
  {
    hide IntCodec, ErrorCodec, StringCodec;
    ErrorLayout(e, []);
    I32Size(ErrorIndex(e));
    StringLayout(e.message, []);
    I32Size(|e.message|);
    assert [] + ErrorCodec().enc(e) == ErrorCodec().enc(e);
    assert [] + StringCodec().enc(e.message) == StringCodec().enc(e.message);
  }

  /** The size of an error leaves out its message: it is too small for every error. */
  method SizeError(value: ControllerError) returns (n: nat)
    ensures n == |I32().enc(ErrorIndex(value))| == 4 < |ErrorCodec().enc(value)|
  {
    hide IntCodec, ErrorCodec, StringCodec;
    ErrorBytes(value);
    n := 4;
  }

  /** The size fixed for a value's buffer: exactly its encoding, except for errors. */
  method SizeValue(value: Value) returns (n: nat)
    ensures n == if value.ErrorValue? then 4 else Wrap64(|EncodeValue(value)|)
  {
    hide SeqCodec, StringCodec, PairCodec, VariantCodec, OptionCodec, CallCodec, PolicyCodec, PoliciesCodec, IntCodec,
         ErrorCodec, SignerCodec, VersionCodec, FieldsCodec, CallsCodec, PolicySeqCodec,
         OptionalU64Codec, OptionalStringCodec;
    match value {
      case ErrorValue(x) => n := SizeError(x);
      case SignerValue(x) =>
        EnumLayout(x, Latest);
        I32Size(SignerIndex(x));
        n := 4;
      case VersionValue(x) =>
        EnumLayout(Webauthn, x);
        I32Size(VersionIndex(x));
        n := 4;
      case FieldsValue(x) => n := SizeFields(x);
      case CallValue(x) => n := SizeCall(x);
      case CallsValue(x) => n := SizeCalls(x);
      case PolicyValue(x) => n := SizePolicy(x);
      case PolicySeqValue(x) => n := SizePolicySeq(x);
      case PoliciesValue(x) => n := SizePolicies(x);
      case OptionalU64Value(x) => n := SizeOptionalU64(x);
      case OptionalStringValue(x) => n := SizeOptionalString(x);
    }
  }

  // ---------- write ----------

  method WriteString(value: bytes, stream: RustStream)
    requires stream.Writing()
    modifies stream, stream.data
    ensures stream.Inserted(StringCodec().enc(value))
  {
    hide StringCodec;
    StringLayout(value, stream.offered);
    stream.Insert(4, |value|);
    stream.Write(value);
  }

  method WriteFields(value: seq<FieldElement>, stream: RustStream)
    requires stream.Writing()
    modifies stream, stream.data
    ensures stream.Inserted(FieldsCodec().enc(value))
  {
    hide StringCodec, IntCodec, SeqCodec, EncodeAll, AllOk;
    SeqLayout(StringCodec(), value, stream.offered);
    I32Size(|value|);
    stream.Insert(4, |value|);
    ghost var start := stream.offered;
    EncodeNone(StringCodec(), value);
    var i := 0;
    while i < |value|
      invariant 0 <= i <= |value| && stream.Writing()
      invariant stream.offered == start + EncodeAll(StringCodec(), value[..i])
    {
      EncodeAllNext(StringCodec(), value, i);
      WriteString(value[i], stream);
      i := i + 1;
    }
    assert value[..i] == value;
  }

  method WriteCall(value: Call, stream: RustStream)
    requires stream.Writing()
    modifies stream, stream.data
    ensures stream.Inserted(CallCodec().enc(value))
  {
    hide StringCodec, FieldsCodec, CallCodec;
    CallLayout(value, stream.offered);
    WriteString(value.contractAddress, stream);
    WriteString(value.entrypoint, stream);
    WriteFields(value.calldata, stream);
  }

  method WriteCalls(value: seq<Call>, stream: RustStream)
    requires stream.Writing()
    modifies stream, stream.data
    ensures stream.Inserted(CallsCodec().enc(value))
  {
    hide CallCodec, IntCodec, SeqCodec, EncodeAll, AllOk;
    SeqLayout(CallCodec(), value, stream.offered);
    I32Size(|value|);
    stream.Insert(4, |value|);
    ghost var start := stream.offered;
    EncodeNone(CallCodec(), value);
    var i := 0;
    while i < |value|
      invariant 0 <= i <= |value| && stream.Writing()
      invariant stream.offered == start + EncodeAll(CallCodec(), value[..i])
    {
      EncodeAllNext(CallCodec(), value, i);
      WriteCall(value[i], stream);
      i := i + 1;
    }
    assert value[..i] == value;
  }

  method WritePolicy(value: SessionPolicy, stream: RustStream)
    requires stream.Writing()
    modifies stream, stream.data
    ensures stream.Inserted(PolicyCodec().enc(value))
  {
    hide StringCodec, PolicyCodec;
    PolicyLayout(value, stream.offered);
    WriteString(value.contractAddress, stream);
    WriteString(value.entrypoint, stream);
  }

  method WritePolicySeq(value: seq<SessionPolicy>, stream: RustStream)
    requires stream.Writing()
    modifies stream, stream.data
    ensures stream.Inserted(PolicySeqCodec().enc(value))
  {
    hide PolicyCodec, IntCodec, SeqCodec, EncodeAll, AllOk;
    SeqLayout(PolicyCodec(), value, stream.offered);
    I32Size(|value|);
    stream.Insert(4, |value|);
    ghost var start := stream.offered;
    EncodeNone(PolicyCodec(), value);
    var i := 0;
    while i < |value|
      invariant 0 <= i <= |value| && stream.Writing()
      invariant stream.offered == start + EncodeAll(PolicyCodec(), value[..i])
    {
      EncodeAllNext(PolicyCodec(), value, i);
      WritePolicy(value[i], stream);
      i := i + 1;
    }
    assert value[..i] == value;
  }

  method WritePolicies(value: SessionPolicies, stream: RustStream)
    requires stream.Writing()
    modifies stream, stream.data
    ensures stream.Inserted(PoliciesCodec().enc(value))
  {
    hide StringCodec, PolicySeqCodec, PoliciesCodec;
    PoliciesLayout(value, stream.offered);
    WritePolicySeq(value.policies, stream);
    WriteString(value.maxFee, stream);
  }

  /** What `what()` shows of a message: a C string ends at the first zero byte. */
  function CString(s: bytes): (r: bytes)
    ensures r <= s && 0 !in r && (|r| < |s| ==> s[|r|] == 0)
  {
    if s == [] || s[0] == 0 then [] else [s[0]] + CString(s[1..])
  }

  function AsSeen(e: ControllerError): ControllerError {
    e.(message := CString(e.message))
  }

  /** What the writer makes of a value. */
  function AsWritten(value: Value): Value {
    if value.ErrorValue? then ErrorValue(AsSeen(value.error)) else value
  }

  method WriteError(value: ControllerError, stream: RustStream)
    requires stream.Writing()
    modifies stream, stream.data
    ensures stream.Inserted(ErrorCodec().enc(AsSeen(value)))
  {
    hide StringCodec, ErrorCodec, CString;
    ErrorLayout(AsSeen(value), stream.offered);
    match value {
      case InitializationError(_) => stream.Insert(4, 1);
      case SignupError(_) => stream.Insert(4, 2);
      case ExecutionError(_) => stream.Insert(4, 3);
      case NetworkError(_) => stream.Insert(4, 4);
      case StorageError(_) => stream.Insert(4, 5);
      case InvalidInput(_) => stream.Insert(4, 6);
      case DisconnectError(_) => stream.Insert(4, 7);
    }
    WriteString(CString(value.message), stream);
  }

  method WriteSigner(value: SignerType, stream: RustStream)
    requires stream.Writing()
    modifies stream, stream.data
    ensures stream.Inserted(SignerCodec().enc(value))
  {
    hide SignerCodec;
    EnumLayout(value, Latest);
    match value {
      case Webauthn => stream.Insert(4, 1);
      case Starknet => stream.Insert(4, 2);
    }
  }

  method WriteVersion(value: Version, stream: RustStream)
    requires stream.Writing()
    modifies stream, stream.data
    ensures stream.Inserted(VersionCodec().enc(value))
  {
    hide VersionCodec;
    EnumLayout(Webauthn, value);
    match value {
      case V1_0_4 => stream.Insert(4, 1);
      case V1_0_5 => stream.Insert(4, 2);
      case V1_0_6 => stream.Insert(4, 3);
      case V1_0_7 => stream.Insert(4, 4);
      case V1_0_8 => stream.Insert(4, 5);
      case V1_0_9 => stream.Insert(4, 6);
      case Latest => stream.Insert(4, 7);
    }
  }

  method WriteOptionalU64(value: Option<int>, stream: RustStream)
    requires stream.Writing()
    modifies stream, stream.data
    ensures stream.Inserted(OptionalU64Codec().enc(value))
  {
    hide OptionCodec;
    OptionLayout(U64(), value, stream.offered);
    FlagBytes();
    stream.Write([if value.Some? then 1 else 0]);
    if value.Some? {
      stream.Insert(8, value.value);
    }
  }

  method WriteOptionalString(value: Option<bytes>, stream: RustStream)
    requires stream.Writing()
    modifies stream, stream.data
    ensures stream.Inserted(OptionalStringCodec().enc(value))
  {
    hide StringCodec, OptionCodec;
    OptionLayout(StringCodec(), value, stream.offered);
    FlagBytes();
    stream.Write([if value.Some? then 1 else 0]);
    if value.Some? {
      WriteString(value.value, stream);
    }
  }

  method WriteVariantValue(value: Value, stream: RustStream)
    requires stream.Writing()
    requires !value.Kind().IsRecord()
    modifies stream, stream.data
    ensures stream.Inserted(EncodeValue(AsWritten(value)))
  {
    hide SeqCodec, StringCodec, PairCodec, VariantCodec, OptionCodec, CallCodec, PolicyCodec, PoliciesCodec, IntCodec,
         ErrorCodec, SignerCodec, VersionCodec, FieldsCodec, CallsCodec, PolicySeqCodec,
         OptionalU64Codec, OptionalStringCodec;
    match value {
      case ErrorValue(x) => WriteError(x, stream);
      case SignerValue(x) => WriteSigner(x, stream);
      case VersionValue(x) => WriteVersion(x, stream);
      case OptionalU64Value(x) => WriteOptionalU64(x, stream);
      case OptionalStringValue(x) => WriteOptionalString(x, stream);
    }
  }

  method WriteValue(value: Value, stream: RustStream)
    requires stream.Writing()
    modifies stream, stream.data
    ensures stream.Inserted(EncodeValue(AsWritten(value)))
  {
    hide SeqCodec, StringCodec, PairCodec, VariantCodec, OptionCodec, CallCodec, PolicyCodec, PoliciesCodec, IntCodec,
         ErrorCodec, SignerCodec, VersionCodec, FieldsCodec, CallsCodec, PolicySeqCodec,
         OptionalU64Codec, OptionalStringCodec;
    match value {
      case FieldsValue(x) => WriteFields(x, stream);
      case CallValue(x) => WriteCall(x, stream);
      case CallsValue(x) => WriteCalls(x, stream);
      case PolicyValue(x) => WritePolicy(x, stream);
      case PolicySeqValue(x) => WritePolicySeq(x, stream);
      case PoliciesValue(x) => WritePolicies(x, stream);
      case _ => WriteVariantValue(value, stream);
    }
  }

  // ---------- read ----------

  /** The decoder as C++ has it: any flag but zero means that a value follows. */
  function DecodeOptionLoosely<T>(c: Codec<T>, b: bytes): Parsed<Option<T>> {
    if b == [] then Fail(PastEnd)
    else if b[0] == 0 then Done(None, b[1..])
    else MapParsed(c.dec(b[1..]), v => Some(v))
  }

  function DecodeValueLoosely(k: Kind, b: bytes): Parsed<Value> {
    match k
    case OptionalU64Kind => MapParsed(DecodeOptionLoosely(U64(), b), x => OptionalU64Value(x))
    case OptionalStringKind => MapParsed(DecodeOptionLoosely(StringCodec(), b), x => OptionalStringValue(x))
    case _ => DecodeValue(k, b)
  }

  method ReadString(stream: RustStream) returns (r: Result<bytes, WireError>)
    requires stream.Reading()
    modifies stream
    ensures stream.Follows(StringCodec().dec(old(stream.rest)), r)
  {
    hide StringCodec, IntCodec, Zeros;
    StringParse(stream.rest);
    I32Total(stream.rest);
    var len := stream.Extract(4, true);
    if len < 0 {
      return Err(NegativeString);
    }
    var s := stream.Read(Zeros(len));
    r := Ok(s);
  }

  lemma StringParse(b: bytes)
    ensures StringCodec().dec(b) ==
            match I32().dec(b) case Fail(e) => Fail(e) case Done(n, rest) =>
              if n < 0 then Fail(NegativeString) else TakeBytes(n, rest)
  {}

  lemma I32Total(b: bytes)
    ensures I32().dec(b) == Fail(PastEnd) || (I32().dec(b).Done? && |b| >= 4)
  {}

  method ReadFields(stream: RustStream) returns (r: Result<seq<FieldElement>, WireError>)
    requires stream.Reading()
    modifies stream
    ensures stream.Follows(FieldsCodec().dec(old(stream.rest)), r)
  {
    hide StringCodec, IntCodec, DecodeMany;
    I32Total(stream.rest);
    ghost var decoded := FieldsCodec().dec(stream.rest);
    var count := stream.Extract(4, true);
    if count < 0 {
      return Err(NegativeSequence);
    }
    ManyStart(StringCodec(), count, stream.rest);
    var items: seq<FieldElement> := [];
    var i := 0;
    while i < count
      invariant 0 <= i <= count && stream.Reading() && stream.getPos >= old(stream.getPos)
      invariant old(stream.bad) ==> stream.bad
      invariant !stream.bad ==> decoded == Prepend(items, DecodeMany(StringCodec(), count - i, stream.rest))
      invariant !old(stream.bad) && stream.bad ==> decoded == Fail(PastEnd)
    {
      ManyStep(StringCodec(), count - i, stream.rest, items);
      var item := ReadString(stream);
      if item.Err? { return Err(item.error); }
      items := items + [item.value];
      i := i + 1;
    }
    ManyEnd(StringCodec(), stream.rest, items);
    r := Ok(items);
  }

  method ReadCall(stream: RustStream) returns (r: Result<Call, WireError>)
    requires stream.Reading()
    modifies stream
    ensures stream.Follows(CallCodec().dec(old(stream.rest)), r)
  {
    hide StringCodec, FieldsCodec, CallCodec;
    CallParse(stream.rest);
    var contractAddress := ReadString(stream);
    if contractAddress.Err? { return Err(contractAddress.error); }
    var entrypoint := ReadString(stream);
    if entrypoint.Err? { return Err(entrypoint.error); }
    var calldata := ReadFields(stream);
    if calldata.Err? { return Err(calldata.error); }
    r := Ok(Call(contractAddress.value, entrypoint.value, calldata.value));
  }

  method ReadCalls(stream: RustStream) returns (r: Result<seq<Call>, WireError>)
    requires stream.Reading()
    modifies stream
    ensures stream.Follows(CallsCodec().dec(old(stream.rest)), r)
  {
    hide CallCodec, IntCodec, DecodeMany;
    I32Total(stream.rest);
    ghost var decoded := CallsCodec().dec(stream.rest);
    var count := stream.Extract(4, true);
    if count < 0 {
      return Err(NegativeSequence);
    }
    ManyStart(CallCodec(), count, stream.rest);
    var items: seq<Call> := [];
    var i := 0;
    while i < count
      invariant 0 <= i <= count && stream.Reading() && stream.getPos >= old(stream.getPos)
      invariant old(stream.bad) ==> stream.bad
      invariant !stream.bad ==> decoded == Prepend(items, DecodeMany(CallCodec(), count - i, stream.rest))
      invariant !old(stream.bad) && stream.bad ==> decoded == Fail(PastEnd)
    {
      ManyStep(CallCodec(), count - i, stream.rest, items);
      var item := ReadCall(stream);
      if item.Err? { return Err(item.error); }
      items := items + [item.value];
      i := i + 1;
    }
    ManyEnd(CallCodec(), stream.rest, items);
    r := Ok(items);
  }

  method ReadPolicy(stream: RustStream) returns (r: Result<SessionPolicy, WireError>)
    requires stream.Reading()
    modifies stream
    ensures stream.Follows(PolicyCodec().dec(old(stream.rest)), r)
  {
    hide StringCodec, PolicyCodec;
    PolicyParse(stream.rest);
    var contractAddress := ReadString(stream);
    if contractAddress.Err? { return Err(contractAddress.error); }
    var entrypoint := ReadString(stream);
    if entrypoint.Err? { return Err(entrypoint.error); }
    r := Ok(SessionPolicy(contractAddress.value, entrypoint.value));
  }

  method ReadPolicySeq(stream: RustStream) returns (r: Result<seq<SessionPolicy>, WireError>)
    requires stream.Reading()
    modifies stream
    ensures stream.Follows(PolicySeqCodec().dec(old(stream.rest)), r)
  {
    hide PolicyCodec, IntCodec, DecodeMany;
    I32Total(stream.rest);
    ghost var decoded := PolicySeqCodec().dec(stream.rest);
    var count := stream.Extract(4, true);
    if count < 0 {
      return Err(NegativeSequence);
    }
    ManyStart(PolicyCodec(), count, stream.rest);
    var items: seq<SessionPolicy> := [];
    var i := 0;
    while i < count
      invariant 0 <= i <= count && stream.Reading() && stream.getPos >= old(stream.getPos)
      invariant old(stream.bad) ==> stream.bad
      invariant !stream.bad ==> decoded == Prepend(items, DecodeMany(PolicyCodec(), count - i, stream.rest))
      invariant !old(stream.bad) && stream.bad ==> decoded == Fail(PastEnd)
    {
      ManyStep(PolicyCodec(), count - i, stream.rest, items);
      var item := ReadPolicy(stream);
      if item.Err? { return Err(item.error); }
      items := items + [item.value];
      i := i + 1;
    }
    ManyEnd(PolicyCodec(), stream.rest, items);
    r := Ok(items);
  }

  method ReadPolicies(stream: RustStream) returns (r: Result<SessionPolicies, WireError>)
    requires stream.Reading()
    modifies stream
    ensures stream.Follows(PoliciesCodec().dec(old(stream.rest)), r)
  {
    hide StringCodec, PolicySeqCodec, PoliciesCodec;
    PoliciesParse(stream.rest);
    var policies := ReadPolicySeq(stream);
    if policies.Err? { return Err(policies.error); }
    var maxFee := ReadString(stream);
    if maxFee.Err? { return Err(maxFee.error); }
    r := Ok(SessionPolicies(policies.value, maxFee.value));
  }

  method ReadError(stream: RustStream) returns (r: Result<ControllerError, WireError>)
    requires stream.Reading()
    modifies stream
    ensures stream.Follows(ErrorCodec().dec(old(stream.rest)), r)
  {
    hide IntCodec, StringCodec, ErrorCodec;
    ErrorParse(stream.rest);
    I32Total(stream.rest);
    var v := stream.Extract(4, true);
    if v < 1 || 7 < v {
      return Err(BadVariant);
    }
    var m := ReadString(stream);
    if m.Err? { return Err(m.error); }
    if v == 1 { return Ok(InitializationError(m.value)); }
    if v == 2 { return Ok(SignupError(m.value)); }
    if v == 3 { return Ok(ExecutionError(m.value)); }
    if v == 4 { return Ok(NetworkError(m.value)); }
    if v == 5 { return Ok(StorageError(m.value)); }
    if v == 6 { return Ok(InvalidInput(m.value)); }
    return Ok(DisconnectError(m.value));
  }

  method ReadSigner(stream: RustStream) returns (r: Result<SignerType, WireError>)
    requires stream.Reading()
    modifies stream
    ensures stream.Follows(SignerCodec().dec(old(stream.rest)), r)
  {
    hide IntCodec, SignerCodec;
    EnumParse(stream.rest);
    I32Total(stream.rest);
    var variant := stream.Extract(4, true);
    if variant == 1 { return Ok(Webauthn); }
    if variant == 2 { return Ok(Starknet); }
    return Err(BadVariant);
  }

  method ReadVersion(stream: RustStream) returns (r: Result<Version, WireError>)
    requires stream.Reading()
    modifies stream
    ensures stream.Follows(VersionCodec().dec(old(stream.rest)), r)
  {
    hide IntCodec, VersionCodec;
    EnumParse(stream.rest);
    I32Total(stream.rest);
    var variant := stream.Extract(4, true);
    if variant == 1 { return Ok(V1_0_4); }
    if variant == 2 { return Ok(V1_0_5); }
    if variant == 3 { return Ok(V1_0_6); }
    if variant == 4 { return Ok(V1_0_7); }
    if variant == 5 { return Ok(V1_0_8); }
    if variant == 6 { return Ok(V1_0_9); }
    if variant == 7 { return Ok(Latest); }
    return Err(BadVariant);
  }

  method ReadOptionalU64(stream: RustStream) returns (r: Result<Option<int>, WireError>)
    requires stream.Reading()
    modifies stream
    ensures stream.Follows(DecodeOptionLoosely(U64(), old(stream.rest)), r)
  {
    var uninitialised: byte :| true;
    var flag := stream.Read([uninitialised]);
    if flag[0] != 0 {
      var x := stream.Extract(8, false);
      r := Ok(Some(x));
    } else {
      r := Ok(None);
    }
  }

  method ReadOptionalString(stream: RustStream) returns (r: Result<Option<bytes>, WireError>)
    requires stream.Reading()
    modifies stream
    ensures stream.Follows(DecodeOptionLoosely(StringCodec(), old(stream.rest)), r)
  {
    var uninitialised: byte :| true;
    var flag := stream.Read([uninitialised]);
    if flag[0] != 0 {
      var x := ReadString(stream);
      r := if x.Ok? then Ok(Some(x.value)) else Err(x.error);
    } else {
      r := Ok(None);
    }
  }

  method ReadVariantValue(kind: Kind, stream: RustStream) returns (r: Result<Value, WireError>)
    requires stream.Reading()
    requires !kind.IsRecord()
    modifies stream
    ensures stream.Follows(DecodeValueLoosely(kind, old(stream.rest)), r)
    ensures r.Ok? ==> r.value.Kind() == kind
  {
    hide SeqCodec, StringCodec, PairCodec, VariantCodec, OptionCodec, CallCodec, PolicyCodec, PoliciesCodec, IntCodec,
         ErrorCodec, SignerCodec, VersionCodec, FieldsCodec, CallsCodec, PolicySeqCodec,
         OptionalU64Codec, OptionalStringCodec;
    match kind {
      case ErrorKind =>
        var x := ReadError(stream);
        r := if x.Ok? then Ok(ErrorValue(x.value)) else Err(x.error);
      case SignerKind =>
        var x := ReadSigner(stream);
        r := if x.Ok? then Ok(SignerValue(x.value)) else Err(x.error);
      case VersionKind =>
        var x := ReadVersion(stream);
        r := if x.Ok? then Ok(VersionValue(x.value)) else Err(x.error);
      case OptionalU64Kind =>
        var x := ReadOptionalU64(stream);
        r := if x.Ok? then Ok(OptionalU64Value(x.value)) else Err(x.error);
      case OptionalStringKind =>
        var x := ReadOptionalString(stream);
        r := if x.Ok? then Ok(OptionalStringValue(x.value)) else Err(x.error);
    }
  }

  method ReadValue(kind: Kind, stream: RustStream) returns (r: Result<Value, WireError>)
    requires stream.Reading()
    modifies stream
    ensures stream.Follows(DecodeValueLoosely(kind, old(stream.rest)), r)
    ensures r.Ok? ==> r.value.Kind() == kind
  {
    hide SeqCodec, StringCodec, PairCodec, VariantCodec, OptionCodec, CallCodec, PolicyCodec, PoliciesCodec, IntCodec,
         ErrorCodec, SignerCodec, VersionCodec, FieldsCodec, CallsCodec, PolicySeqCodec,
         OptionalU64Codec, OptionalStringCodec;
    match kind {
      case FieldsKind =>
        var x := ReadFields(stream);
        r := if x.Ok? then Ok(FieldsValue(x.value)) else Err(x.error);
      case CallKind =>
        var x := ReadCall(stream);
        r := if x.Ok? then Ok(CallValue(x.value)) else Err(x.error);
      case CallsKind =>
        var x := ReadCalls(stream);
        r := if x.Ok? then Ok(CallsValue(x.value)) else Err(x.error);
      case PolicyKind =>
        var x := ReadPolicy(stream);
        r := if x.Ok? then Ok(PolicyValue(x.value)) else Err(x.error);
      case PolicySeqKind =>
        var x := ReadPolicySeq(stream);
        r := if x.Ok? then Ok(PolicySeqValue(x.value)) else Err(x.error);
      case PoliciesKind =>
        var x := ReadPolicies(stream);
        r := if x.Ok? then Ok(PoliciesValue(x.value)) else Err(x.error);
      case _ => r := ReadVariantValue(kind, stream);
    }
  }

  // ---------- lower and lift ----------

  /** Lowers any value into a buffer whose length was fixed before a byte was written. That length is
      exact, nothing is lost and no room is left over, for every value except an error, unless the size
      has wrapped. */
  method Lower(value: Value, heap: Heap, bigEndianHost: bool) returns (buf: RustBuffer)
    modifies heap
    ensures fresh(buf.data) && heap.Holds(buf)
    ensures heap.live == old(heap.live) + {buf.data}
    ensures !value.ErrorValue? ==> heap.Payload(buf) == EncodeValue(value)[..Wrap64(|EncodeValue(value)|)]
    ensures !value.ErrorValue? && |EncodeValue(value)| < UINT64_MOD ==> heap.Payload(buf) == EncodeValue(value)
    ensures value.ErrorValue? ==> |EncodeValue(value)| > 4 && heap.Payload(buf) == EncodeValue(value)[..4]
  {
    hide EncodeValue, Wrap64, CString, I32, ErrorIndex;
    var size := SizeValue(value);
    buf := heap.Alloc(size);
    var stream := new RustStream(buf, bigEndianHost);
    WriteValue(value, stream);
    if value.ErrorValue? {
      ErrorHead(value.error);
    } else {
      assert AsWritten(value) == value;
    }
    assert size <= |stream.offered|;
    stream.Kept(size);
  }

  /** The four bytes that are kept do not depend on the message. */
  lemma ErrorHead(e: ControllerError)
    ensures |EncodeValue(ErrorValue(e))| > 4 && |EncodeValue(AsWritten(ErrorValue(e)))| > 4
    ensures EncodeValue(ErrorValue(e))[..4] == I32().enc(ErrorIndex(e)) == EncodeValue(AsWritten(ErrorValue(e)))[..4]
  {
    hide IntCodec, ErrorCodec, StringCodec, CString;
    ErrorBytes(e);
    ErrorBytes(AsSeen(e));
    assert EncodeValue(ErrorValue(e)) == ErrorCodec().enc(e);
    assert EncodeValue(AsWritten(ErrorValue(e))) == ErrorCodec().enc(AsSeen(e));
  }

  /** What C++ makes of an error lifts as an error in neither Python nor C#, and in C++ runs out of
      input: the message is cut off. */
  lemma ErrorNeverLifts(e: ControllerError)
    ensures Lift(ErrorCodec(), EncodeValue(ErrorValue(e))[..4]) == Err(PastEnd)
    ensures DecodeValueLoosely(ErrorKind, EncodeValue(ErrorValue(e))[..4]) == Fail(PastEnd)
  {
    hide IntCodec, ErrorCodec, StringCodec;
    ErrorHead(e);
    var b := EncodeValue(ErrorValue(e))[..4];
    assert b == I32().enc(ErrorIndex(e)) + [];
    CountThen(ErrorIndex(e), []);
    ErrorParse(b);
    NoBytesNoString();
  }

  lemma NoBytesNoString()
    ensures StringCodec().dec([]) == Fail(PastEnd)
  {}

  /** Lifts a value, ignoring whatever follows it. The buffer is freed only when nothing is thrown. When
      the buffer ends too early, what is lifted or thrown is unspecified. */
  method LiftValue(kind: Kind, buf: RustBuffer, heap: Heap, bigEndianHost: bool)
    returns (r: Result<Value, WireError>)
    requires heap.Holds(buf)
    modifies heap
    ensures heap.live == if r.Ok? then old(heap.live) - {buf.data} else old(heap.live)
    ensures r.Ok? ==> r.value.Kind() == kind
    ensures match DecodeValueLoosely(kind, old(heap.Payload(buf)))
            case Done(v, _) => r == Ok(v)
            case Fail(e) => e != PastEnd ==> r == Err(e)
  {
    hide DecodeValueLoosely;
    var stream := new RustStream(buf, bigEndianHost);
    r := ReadValue(kind, stream);
    if r.Ok? {
      heap.Free(buf);
    }
  }

  lemma LooseOption<T>(c: Codec<T>, b: bytes)
    requires b != [] ==> c.dec(b[1..]) != Fail(BadFlag)
    ensures DecodeOptionLoosely(c, b) == OptionCodec(c).dec(b) <==> b == [] || b[0] <= 1
    ensures OptionCodec(c).dec(b).Done? ==> DecodeOptionLoosely(c, b) == OptionCodec(c).dec(b)
  {}

  /** C++ decodes as the others do, except exactly for optionals with a flag above 1, which the others
      reject. */
  lemma LooseIff(k: Kind, b: bytes)
    ensures DecodeValueLoosely(k, b) == DecodeValue(k, b)
            <==> !((k.OptionalU64Kind? || k.OptionalStringKind?) && b != [] && b[0] > 1)
    ensures DecodeValue(k, b).Done? ==> DecodeValueLoosely(k, b) == DecodeValue(k, b)
  {
    hide StringCodec, U64, OptionCodec, DecodeOptionLoosely, FieldsCodec, CallCodec, CallsCodec, PolicyCodec,
         PolicySeqCodec, PoliciesCodec, ErrorCodec, SignerCodec, VersionCodec;
    if b != [] {
      NeverBadFlag(b[1..]);
    }
    LooseOption(U64(), b);
    LooseOption(StringCodec(), b);
  }

  lemma NeverBadFlag(b: bytes)
    ensures U64().dec(b) != Fail(BadFlag) && StringCodec().dec(b) != Fail(BadFlag)
  {}
}
