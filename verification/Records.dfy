/** The records, enums and errors that cross the foreign interface, and their codecs. */
module Records {
  import opened Wrappers
  import opened Bytes
  import opened WireFormat

  type FieldElement = bytes

  datatype Call = Call(contractAddress: FieldElement, entrypoint: bytes, calldata: seq<FieldElement>)

  datatype SessionPolicy = SessionPolicy(contractAddress: FieldElement, entrypoint: bytes)

  datatype SessionPolicies = SessionPolicies(policies: seq<SessionPolicy>, maxFee: FieldElement)

  datatype SignerType = Webauthn | Starknet

  datatype Version = V1_0_4 | V1_0_5 | V1_0_6 | V1_0_7 | V1_0_8 | V1_0_9 | Latest

  datatype ControllerError =
    | InitializationError(message: bytes)
    | SignupError(message: bytes)
    | ExecutionError(message: bytes)
    | NetworkError(message: bytes)
    | StorageError(message: bytes)
    | InvalidInput(message: bytes)
    | DisconnectError(message: bytes)

  // ---------- Variant indices ----------

  function SignerIndex(v: SignerType): int {
    match v case Webauthn => 1 case Starknet => 2
  }

  function SignerOf(n: int): SignerType {
    if n == 1 then Webauthn else Starknet
  }

  function VersionIndex(v: Version): int {
    match v
    case V1_0_4 => 1 case V1_0_5 => 2 case V1_0_6 => 3 case V1_0_7 => 4
    case V1_0_8 => 5 case V1_0_9 => 6 case Latest => 7
  }

  function VersionOf(n: int): Version {
    if n == 1 then V1_0_4 else if n == 2 then V1_0_5 else if n == 3 then V1_0_6
    else if n == 4 then V1_0_7 else if n == 5 then V1_0_8 else if n == 6 then V1_0_9 else Latest
  }

  function ErrorIndex(e: ControllerError): int {
    match e
    case InitializationError(_) => 1 case SignupError(_) => 2 case ExecutionError(_) => 3
    case NetworkError(_) => 4 case StorageError(_) => 5 case InvalidInput(_) => 6
    case DisconnectError(_) => 7
  }

  function ErrorFields(e: ControllerError): (int, bytes) { (ErrorIndex(e), e.message) }

  function ErrorOf(t: (int, bytes)): ControllerError {
    if t.0 == 1 then InitializationError(t.1) else if t.0 == 2 then SignupError(t.1)
    else if t.0 == 3 then ExecutionError(t.1) else if t.0 == 4 then NetworkError(t.1)
    else if t.0 == 5 then StorageError(t.1) else if t.0 == 6 then InvalidInput(t.1)
    else DisconnectError(t.1)
  }

  // ---------- Codecs ----------

  function FieldsCodec(): Codec<seq<FieldElement>> { SeqCodec(StringCodec()) }

  function CallCodec(): Codec<Call> {
    MapCodec(PairCodec(StringCodec(), PairCodec(StringCodec(), FieldsCodec())),
             (t: (FieldElement, (bytes, seq<FieldElement>))) => Call(t.0, t.1.0, t.1.1),
             (c: Call) => (c.contractAddress, (c.entrypoint, c.calldata)))
  }

  function CallsCodec(): Codec<seq<Call>> { SeqCodec(CallCodec()) }

  function PolicyCodec(): Codec<SessionPolicy> {
    MapCodec(PairCodec(StringCodec(), StringCodec()),
             (t: (FieldElement, bytes)) => SessionPolicy(t.0, t.1),
             (p: SessionPolicy) => (p.contractAddress, p.entrypoint))
  }

  function PolicySeqCodec(): Codec<seq<SessionPolicy>> { SeqCodec(PolicyCodec()) }

  function PoliciesCodec(): Codec<SessionPolicies> {
    MapCodec(PairCodec(PolicySeqCodec(), StringCodec()),
             (t: (seq<SessionPolicy>, FieldElement)) => SessionPolicies(t.0, t.1),
             (p: SessionPolicies) => (p.policies, p.maxFee))
  }

  function ErrorCodec(): Codec<ControllerError> {
    MapCodec(PairCodec(VariantCodec(7), StringCodec()), ErrorOf, ErrorFields)
  }

  function SignerCodec(): Codec<SignerType> { MapCodec(VariantCodec(2), SignerOf, SignerIndex) }

  function VersionCodec(): Codec<Version> { MapCodec(VariantCodec(7), VersionOf, VersionIndex) }

  function OptionalU64Codec(): Codec<Option<int>> { OptionCodec(U64()) }

  function OptionalStringCodec(): Codec<Option<bytes>> { OptionCodec(StringCodec()) }

  // ---------- Layouts, appended to what was there before ----------

  lemma CallLayout(v: Call, before: bytes)
    ensures before + StringCodec().enc(v.contractAddress) + StringCodec().enc(v.entrypoint)
            + FieldsCodec().enc(v.calldata) == before + CallCodec().enc(v)
    ensures CallCodec().ok(v) <==> StringCodec().ok(v.contractAddress) && StringCodec().ok(v.entrypoint)
                                   && FieldsCodec().ok(v.calldata)
  {
    hide IntCodec, EncodeAll, DecodeString, DecodePair, DecodeSeq, MapParsed;
    assert CallCodec().enc(v) == StringCodec().enc(v.contractAddress)
      + (StringCodec().enc(v.entrypoint) + FieldsCodec().enc(v.calldata));
  }

  lemma PolicyLayout(v: SessionPolicy, before: bytes)
    ensures before + StringCodec().enc(v.contractAddress) + StringCodec().enc(v.entrypoint)
         == before + PolicyCodec().enc(v)
    ensures PolicyCodec().ok(v) <==> StringCodec().ok(v.contractAddress) && StringCodec().ok(v.entrypoint)
  {
    hide IntCodec, DecodeString, DecodePair, MapParsed;
    assert PolicyCodec().enc(v) == StringCodec().enc(v.contractAddress) + StringCodec().enc(v.entrypoint);
  }

  lemma PoliciesLayout(v: SessionPolicies, before: bytes)
    ensures before + PolicySeqCodec().enc(v.policies) + StringCodec().enc(v.maxFee)
         == before + PoliciesCodec().enc(v)
    ensures PoliciesCodec().ok(v) <==> PolicySeqCodec().ok(v.policies) && StringCodec().ok(v.maxFee)
  {
    hide IntCodec, EncodeAll, DecodeString, DecodePair, DecodeSeq, MapParsed;
    assert PoliciesCodec().enc(v) == PolicySeqCodec().enc(v.policies) + StringCodec().enc(v.maxFee);
  }

  lemma ErrorLayout(v: ControllerError, before: bytes)
    ensures before + I32().enc(ErrorIndex(v)) + StringCodec().enc(v.message) == before + ErrorCodec().enc(v)
    ensures ErrorCodec().ok(v) <==> StringCodec().ok(v.message)
  {
    hide IntCodec, DecodeString, DecodePair, MapParsed, DecodeVariant;
    assert ErrorOf(ErrorFields(v)) == v;
    assert ErrorCodec().enc(v) == I32().enc(ErrorIndex(v)) + StringCodec().enc(v.message);
  }

  lemma EnumLayout(s: SignerType, v: Version)
    ensures SignerCodec().enc(s) == I32().enc(SignerIndex(s)) && SignerCodec().ok(s)
    ensures VersionCodec().enc(v) == I32().enc(VersionIndex(v)) && VersionCodec().ok(v)
  {
    hide IntCodec;
  }

  // ---------- Records are read field by field ----------

  lemma CallParse(b: bytes)
    ensures CallCodec().dec(b) ==
            match StringCodec().dec(b) case Fail(e) => Fail(e) case Done(address, b1) => (
            match StringCodec().dec(b1) case Fail(e) => Fail(e) case Done(entrypoint, b2) => (
            match FieldsCodec().dec(b2) case Fail(e) => Fail(e) case Done(calldata, b3) =>
              Done(Call(address, entrypoint, calldata), b3)))
  {
    hide IntCodec, DecodeString, DecodeSeq;
    var tail := PairCodec(StringCodec(), FieldsCodec());
    assert PairCodec(StringCodec(), tail).dec(b) == DecodePair(StringCodec(), tail, b);
  }

  lemma PolicyParse(b: bytes)
    ensures PolicyCodec().dec(b) ==
            match StringCodec().dec(b) case Fail(e) => Fail(e) case Done(address, b1) => (
            match StringCodec().dec(b1) case Fail(e) => Fail(e) case Done(entrypoint, b2) =>
              Done(SessionPolicy(address, entrypoint), b2))
  {
    hide IntCodec, DecodeString;
    assert PairCodec(StringCodec(), StringCodec()).dec(b) == DecodePair(StringCodec(), StringCodec(), b);
  }

  lemma PoliciesParse(b: bytes)
    ensures PoliciesCodec().dec(b) ==
            match PolicySeqCodec().dec(b) case Fail(e) => Fail(e) case Done(policies, b1) => (
            match StringCodec().dec(b1) case Fail(e) => Fail(e) case Done(maxFee, b2) =>
              Done(SessionPolicies(policies, maxFee), b2))
  {
    hide IntCodec, DecodeString, DecodeSeq, PolicyCodec;
    assert PairCodec(PolicySeqCodec(), StringCodec()).dec(b) == DecodePair(PolicySeqCodec(), StringCodec(), b);
  }

  lemma ErrorParse(b: bytes)
    ensures ErrorCodec().dec(b) ==
            match I32().dec(b) case Fail(e) => Fail(e) case Done(n, b1) => (
            if n < 1 || 7 < n then Fail(BadVariant) else
            match StringCodec().dec(b1) case Fail(e) => Fail(e) case Done(message, b2) =>
              Done(ErrorOf((n, message)), b2))
  {
    hide IntCodec, DecodeString;
    assert PairCodec(VariantCodec(7), StringCodec()).dec(b) == DecodePair(VariantCodec(7), StringCodec(), b);
    assert VariantCodec(7).dec(b) == DecodeVariant(7, b);
  }

  lemma EnumParse(b: bytes)
    ensures SignerCodec().dec(b) ==
            match I32().dec(b) case Fail(e) => Fail(e) case Done(n, b1) =>
              if 1 <= n <= 2 then Done(SignerOf(n), b1) else Fail(BadVariant)
    ensures VersionCodec().dec(b) ==
            match I32().dec(b) case Fail(e) => Fail(e) case Done(n, b1) =>
              if 1 <= n <= 7 then Done(VersionOf(n), b1) else Fail(BadVariant)
  {
    hide IntCodec;
    assert VariantCodec(2).dec(b) == DecodeVariant(2, b) && VariantCodec(7).dec(b) == DecodeVariant(7, b);
  }

  // ---------- Every codec is lawful ----------

  lemma CallLawful()
    ensures Lawful(FieldsCodec()) && Lawful(CallCodec()) && Lawful(CallsCodec())
  {
    StringLawful();
    SeqLawful(StringCodec());
    PairLawful(StringCodec(), FieldsCodec());
    PairLawful(StringCodec(), PairCodec(StringCodec(), FieldsCodec()));
    MapLawful(PairCodec(StringCodec(), PairCodec(StringCodec(), FieldsCodec())),
              (t: (FieldElement, (bytes, seq<FieldElement>))) => Call(t.0, t.1.0, t.1.1),
              (c: Call) => (c.contractAddress, (c.entrypoint, c.calldata)));
    SeqLawful(CallCodec());
  }

  lemma PoliciesLawful()
    ensures Lawful(PolicyCodec()) && Lawful(PolicySeqCodec()) && Lawful(PoliciesCodec())
  {
    StringLawful();
    PairLawful(StringCodec(), StringCodec());
    MapLawful(PairCodec(StringCodec(), StringCodec()),
              (t: (FieldElement, bytes)) => SessionPolicy(t.0, t.1),
              (p: SessionPolicy) => (p.contractAddress, p.entrypoint));
    SeqLawful(PolicyCodec());
    PairLawful(PolicySeqCodec(), StringCodec());
    MapLawful(PairCodec(PolicySeqCodec(), StringCodec()),
              (t: (seq<SessionPolicy>, FieldElement)) => SessionPolicies(t.0, t.1),
              (p: SessionPolicies) => (p.policies, p.maxFee));
  }

  lemma SignerLawful()
    ensures Lawful(SignerCodec())
  {
    VariantLawful(2);
    forall n: int | VariantCodec(2).ok(n) ensures SignerIndex(SignerOf(n)) == n {}
    MapLawful(VariantCodec(2), SignerOf, SignerIndex);
  }

  lemma VersionLawful()
    ensures Lawful(VersionCodec())
  {
    VariantLawful(7);
    forall n: int | VariantCodec(7).ok(n) ensures VersionIndex(VersionOf(n)) == n {}
    MapLawful(VariantCodec(7), VersionOf, VersionIndex);
  }

  lemma ErrorLawful()
    ensures Lawful(ErrorCodec())
  {
    VariantLawful(7);
    StringLawful();
    PairLawful(VariantCodec(7), StringCodec());
    forall t: (int, bytes) | 1 <= t.0 <= 7 ensures ErrorFields(ErrorOf(t)) == t {}
    MapLawful(PairCodec(VariantCodec(7), StringCodec()), ErrorOf, ErrorFields);
  }

  lemma OptionalsLawful()
    ensures Lawful(OptionalU64Codec()) && Lawful(OptionalStringCodec())
  {
    IntLawful(8, false);
    StringLawful();
    OptionLawful(U64());
    OptionLawful(StringCodec());
  }

  // ---------- All of them under one type ----------

  /** The types that travel in a buffer of their own. */
  datatype Kind =
    | FieldsKind | CallKind | CallsKind | PolicyKind | PolicySeqKind | PoliciesKind
    | ErrorKind | SignerKind | VersionKind | OptionalU64Kind | OptionalStringKind
  {
    /** A record or a sequence, as opposed to an enum, an error or an optional. */
    predicate IsRecord() {
      FieldsKind? || CallKind? || CallsKind? || PolicyKind? || PolicySeqKind? || PoliciesKind?
    }
  }

  datatype Value =
    | FieldsValue(fields: seq<FieldElement>)
    | CallValue(call: Call)
    | CallsValue(calls: seq<Call>)
    | PolicyValue(policy: SessionPolicy)
    | PolicySeqValue(policySeq: seq<SessionPolicy>)
    | PoliciesValue(policies: SessionPolicies)
    | ErrorValue(error: ControllerError)
    | SignerValue(signer: SignerType)
    | VersionValue(version: Version)
    | OptionalU64Value(optionalU64: Option<int>)
    | OptionalStringValue(optionalString: Option<bytes>)
  {
    function Kind(): Kind {
      match this
      case FieldsValue(_) => FieldsKind
      case CallValue(_) => CallKind
      case CallsValue(_) => CallsKind
      case PolicyValue(_) => PolicyKind
      case PolicySeqValue(_) => PolicySeqKind
      case PoliciesValue(_) => PoliciesKind
      case ErrorValue(_) => ErrorKind
      case SignerValue(_) => SignerKind
      case VersionValue(_) => VersionKind
      case OptionalU64Value(_) => OptionalU64Kind
      case OptionalStringValue(_) => OptionalStringKind
    }
  }

  // A value is written and read as the type it wraps.

  function EncodeValue(v: Value): bytes {
    match v
    case FieldsValue(x) => FieldsCodec().enc(x)
    case CallValue(x) => CallCodec().enc(x)
    case CallsValue(x) => CallsCodec().enc(x)
    case PolicyValue(x) => PolicyCodec().enc(x)
    case PolicySeqValue(x) => PolicySeqCodec().enc(x)
    case PoliciesValue(x) => PoliciesCodec().enc(x)
    case ErrorValue(x) => ErrorCodec().enc(x)
    case SignerValue(x) => SignerCodec().enc(x)
    case VersionValue(x) => VersionCodec().enc(x)
    case OptionalU64Value(x) => OptionalU64Codec().enc(x)
    case OptionalStringValue(x) => OptionalStringCodec().enc(x)
  }

  predicate ValueOk(v: Value) {
    match v
    case FieldsValue(x) => FieldsCodec().ok(x)
    case CallValue(x) => CallCodec().ok(x)
    case CallsValue(x) => CallsCodec().ok(x)
    case PolicyValue(x) => PolicyCodec().ok(x)
    case PolicySeqValue(x) => PolicySeqCodec().ok(x)
    case PoliciesValue(x) => PoliciesCodec().ok(x)
    case ErrorValue(x) => ErrorCodec().ok(x)
    case SignerValue(x) => SignerCodec().ok(x)
    case VersionValue(x) => VersionCodec().ok(x)
    case OptionalU64Value(x) => OptionalU64Codec().ok(x)
    case OptionalStringValue(x) => OptionalStringCodec().ok(x)
  }

  function DecodeValue(k: Kind, b: bytes): Parsed<Value> {
    match k
    case FieldsKind => MapParsed(FieldsCodec().dec(b), x => FieldsValue(x))
    case CallKind => MapParsed(CallCodec().dec(b), x => CallValue(x))
    case CallsKind => MapParsed(CallsCodec().dec(b), x => CallsValue(x))
    case PolicyKind => MapParsed(PolicyCodec().dec(b), x => PolicyValue(x))
    case PolicySeqKind => MapParsed(PolicySeqCodec().dec(b), x => PolicySeqValue(x))
    case PoliciesKind => MapParsed(PoliciesCodec().dec(b), x => PoliciesValue(x))
    case ErrorKind => MapParsed(ErrorCodec().dec(b), x => ErrorValue(x))
    case SignerKind => MapParsed(SignerCodec().dec(b), x => SignerValue(x))
    case VersionKind => MapParsed(VersionCodec().dec(b), x => VersionValue(x))
    case OptionalU64Kind => MapParsed(OptionalU64Codec().dec(b), x => OptionalU64Value(x))
    case OptionalStringKind => MapParsed(OptionalStringCodec().dec(b), x => OptionalStringValue(x))
  }

  function ValueCodec(k: Kind): Codec<Value> {
    Codec((v: Value) => EncodeValue(v), b => DecodeValue(k, b), (v: Value) => v.Kind() == k && ValueOk(v))
  }

  lemma VariantRoundTrip(v: Value, rest: bytes)
    requires ValueOk(v) && !v.Kind().IsRecord()
    ensures DecodeValue(v.Kind(), EncodeValue(v) + rest) == Done(v, rest)
  {
    hide Lawful, SeqCodec, StringCodec, PairCodec, VariantCodec, OptionCodec, CallCodec, PolicyCodec, PoliciesCodec,
         IntCodec, ErrorCodec, SignerCodec, VersionCodec, FieldsCodec, CallsCodec, PolicySeqCodec,
         OptionalU64Codec, OptionalStringCodec;
    match v
    case ErrorValue(x) =>
      ErrorLawful();
      RoundTrip(ErrorCodec(), x, rest);
    case SignerValue(x) =>
      SignerLawful();
      RoundTrip(SignerCodec(), x, rest);
    case VersionValue(x) =>
      VersionLawful();
      RoundTrip(VersionCodec(), x, rest);
    case OptionalU64Value(x) =>
      OptionalsLawful();
      RoundTrip(OptionalU64Codec(), x, rest);
    case OptionalStringValue(x) =>
      OptionalsLawful();
      RoundTrip(OptionalStringCodec(), x, rest);
  }

  lemma ValueRoundTrip(v: Value, rest: bytes)
    requires ValueOk(v)
    ensures DecodeValue(v.Kind(), EncodeValue(v) + rest) == Done(v, rest)
  {
    hide Lawful, SeqCodec, StringCodec, PairCodec, VariantCodec, OptionCodec, CallCodec, PolicyCodec, PoliciesCodec,
         IntCodec, ErrorCodec, SignerCodec, VersionCodec, FieldsCodec, CallsCodec, PolicySeqCodec,
         OptionalU64Codec, OptionalStringCodec;
    match v
    case FieldsValue(x) =>
      CallLawful();
      RoundTrip(FieldsCodec(), x, rest);
    case CallValue(x) =>
      CallLawful();
      RoundTrip(CallCodec(), x, rest);
    case CallsValue(x) =>
      CallLawful();
      RoundTrip(CallsCodec(), x, rest);
    case PolicyValue(x) =>
      PoliciesLawful();
      RoundTrip(PolicyCodec(), x, rest);
    case PolicySeqValue(x) =>
      PoliciesLawful();
      RoundTrip(PolicySeqCodec(), x, rest);
    case PoliciesValue(x) =>
      PoliciesLawful();
      RoundTrip(PoliciesCodec(), x, rest);
    case _ => VariantRoundTrip(v, rest);
  }

  lemma ValueCanonical(k: Kind, b: bytes)
    requires DecodeValue(k, b).Done?
    ensures var d := DecodeValue(k, b);
            d.value.Kind() == k && ValueOk(d.value) && b == EncodeValue(d.value) + d.rest
  {
    hide Lawful, SeqCodec, StringCodec, PairCodec, VariantCodec, OptionCodec, CallCodec, PolicyCodec, PoliciesCodec,
         IntCodec, ErrorCodec, SignerCodec, VersionCodec, FieldsCodec, CallsCodec, PolicySeqCodec,
         OptionalU64Codec, OptionalStringCodec;
    match k
    case FieldsKind =>
      CallLawful();
      Canonical(FieldsCodec(), b);
    case CallKind =>
      CallLawful();
      Canonical(CallCodec(), b);
    case CallsKind =>
      CallLawful();
      Canonical(CallsCodec(), b);
    case PolicyKind =>
      PoliciesLawful();
      Canonical(PolicyCodec(), b);
    case PolicySeqKind =>
      PoliciesLawful();
      Canonical(PolicySeqCodec(), b);
    case PoliciesKind =>
      PoliciesLawful();
      Canonical(PoliciesCodec(), b);
    case ErrorKind =>
      ErrorLawful();
      Canonical(ErrorCodec(), b);
    case SignerKind =>
      SignerLawful();
      Canonical(SignerCodec(), b);
    case VersionKind =>
      VersionLawful();
      Canonical(VersionCodec(), b);
    case OptionalU64Kind =>
      OptionalsLawful();
      Canonical(OptionalU64Codec(), b);
    case OptionalStringKind =>
      OptionalsLawful();
      Canonical(OptionalStringCodec(), b);
  }

  /** Both laws hold for every type that travels in a buffer. */
  lemma ValueLawful(k: Kind)
    ensures Lawful(ValueCodec(k))
  {
    hide EncodeValue, DecodeValue, ValueOk;
    var d := ValueCodec(k);
    forall v: Value, rest: bytes | d.ok(v) ensures d.dec(d.enc(v) + rest) == Done(v, rest) {
      ValueRoundTrip(v, rest);
    }
    forall b: bytes | d.dec(b).Done?
      ensures d.ok(d.dec(b).value) && b == d.enc(d.dec(b).value) + d.dec(b).rest
    {
      ValueCanonical(k, b);
    }
  }
}
