/** The wire format shared by the Rust library and all of its bindings, as one pure encoder and
    one pure decoder per type.

    A `Codec` pairs the two with the set of values the format can carry. `Lawful` says they are
    inverse in both directions, with an arbitrary continuation after the encoded value, so that
    codecs can be put one after another; one lemma per combinator carries it from the parts to the
    whole. The Python, C++ and C# converters are proved against these codecs. */
module WireFormat {
  import opened Wrappers
  import opened Bytes

  datatype WireError =
    | PastEnd           // fewer bytes left than the value needs
    | NegativeString    // negative string length
    | NegativeSequence  // negative element count
    | BadVariant        // enum or error index outside its range
    | BadFlag           // optional flag other than 0 and 1
    | Junk              // bytes left over after the value

  datatype Parsed<+T> = Done(value: T, rest: bytes) | Fail(error: WireError)

  datatype Codec<!T> = Codec(enc: T -> bytes, dec: bytes -> Parsed<T>, ok: T -> bool)

  ghost predicate Lawful<T(!new)>(c: Codec<T>) {
    && (forall v: T, rest: bytes :: c.ok(v) ==> c.dec(c.enc(v) + rest) == Done(v, rest))
    && (forall b: bytes :: c.dec(b).Done? ==>
          c.ok(c.dec(b).value) && b == c.enc(c.dec(b).value) + c.dec(b).rest)
  }

  /** The two laws, one value at a time. */
  lemma RoundTrip<T(!new)>(c: Codec<T>, v: T, rest: bytes)
    requires Lawful(c) && c.ok(v)
    ensures c.dec(c.enc(v) + rest) == Done(v, rest)
  {}

  lemma Canonical<T(!new)>(c: Codec<T>, b: bytes)
    requires Lawful(c) && c.dec(b).Done?
    ensures c.ok(c.dec(b).value) && b == c.enc(c.dec(b).value) + c.dec(b).rest
  {}

  /** A whole buffer is lifted: the value, and nothing after it. */
  function Lift<T>(c: Codec<T>, b: bytes): (r: Result<T, WireError>) {
    match c.dec(b)
    case Fail(e) => Err(e)
    case Done(v, rest) => if rest == [] then Ok(v) else Err(Junk)
  }

  /** Lifting is the inverse of lowering, in both directions: a buffer lifts to `v` exactly when
      it is the encoding of `v`. So no two buffers lift to one value, and nothing but an encoding
      lifts at all. */
  lemma LiftIffEncoding<T(!new)>(c: Codec<T>, v: T, b: bytes)
    requires Lawful(c)
    ensures Lift(c, b) == Ok(v) <==> c.ok(v) && b == c.enc(v)
  {
    if c.ok(v) {
      assert c.enc(v) + [] == c.enc(v);
      assert c.dec(c.enc(v) + []) == Done(v, []);
    }
    if Lift(c, b) == Ok(v) {
      assert b == c.enc(v) + [];
    }
  }

  /** No encoding is a proper prefix of another, which is what lets values follow one another
      without separators. */
  lemma PrefixFree<T(!new)>(c: Codec<T>, v: T, w: T)
    requires Lawful(c) && c.ok(v) && c.ok(w) && c.enc(v) <= c.enc(w)
    ensures v == w
  {
    var rest := c.enc(w)[|c.enc(v)|..];
    assert c.enc(w) == c.enc(v) + rest == c.enc(w) + [];
    assert c.dec(c.enc(v) + rest) == Done(v, rest);
    assert c.dec(c.enc(w) + []) == Done(w, []);
  }

  // ---------- Integers, strings ----------

  function IntCodec(w: nat, signed: bool): Codec<int> {
    Codec(v => BigEndian(w, v),
          b => if |b| < w then Fail(PastEnd) else Done(Interpret(signed, b[..w]), b[w..]),
          v => InRange(w, signed, v))
  }

  function I32(): Codec<int> { IntCodec(4, true) }

  function U64(): Codec<int> { IntCodec(8, false) }

  lemma IntLawful(w: nat, signed: bool)
    ensures Lawful(IntCodec(w, signed))
  {
    var c := IntCodec(w, signed);
    forall v: int, rest: bytes | c.ok(v) ensures c.dec(c.enc(v) + rest) == Done(v, rest) {
      InterpretBigEndian(w, signed, v);
      assert (BigEndian(w, v) + rest)[..w] == BigEndian(w, v);
    }
    forall b: bytes | c.dec(b).Done?
      ensures c.ok(c.dec(b).value) && b == c.enc(c.dec(b).value) + c.dec(b).rest
    {
      BigEndianInterpret(signed, b[..w]);
    }
  }

  lemma I32Range(v: int)
    ensures I32().ok(v) <==> -INT32_MAX - 1 <= v <= INT32_MAX
  {
    Pow256Values();
  }

  function TakeBytes(n: nat, b: bytes): Parsed<bytes> {
    if |b| < n then Fail(PastEnd) else Done(b[..n], b[n..])
  }

  function DecodeString(b: bytes): Parsed<bytes> {
    match I32().dec(b)
    case Fail(e) => Fail(e)
    case Done(n, rest) =>
      if n < 0 then Fail(NegativeString) else TakeBytes(n, rest)
  }

  function StringCodec(): Codec<bytes> {
    Codec(s => I32().enc(|s|) + s, DecodeString, s => |s| <= INT32_MAX)
  }

  lemma StringLayout(s: bytes, before: bytes)
    ensures before + I32().enc(|s|) + s == before + StringCodec().enc(s)
    ensures StringCodec().ok(s) <==> |s| <= INT32_MAX
  {
    hide IntCodec;
  }

  lemma CountThen(n: int, tail: bytes)
    requires 0 <= n <= INT32_MAX
    ensures I32().dec(I32().enc(n) + tail) == Done(n, tail)
  {
    IntLawful(4, true);
    Pow256Values();
    assert I32().ok(n);
  }

  /** A count that was read is the one that was written, and no larger than an `int`. */
  lemma CountCanonical(b: bytes)
    requires I32().dec(b).Done?
    ensures var n := I32().dec(b);
            n.value <= INT32_MAX && b == I32().enc(n.value) + n.rest
  {
    IntLawful(4, true);
    Pow256Values();
    Canonical(I32(), b);
  }

  lemma StringLawful()
    ensures Lawful(StringCodec())
  {
    hide IntCodec;
    var c := StringCodec();
    forall s: bytes, rest: bytes | c.ok(s) ensures c.dec(c.enc(s) + rest) == Done(s, rest) {
      assert c.enc(s) + rest == I32().enc(|s|) + (s + rest);
      CountThen(|s|, s + rest);
    }
    forall b: bytes | c.dec(b).Done? ensures c.ok(c.dec(b).value) && b == c.enc(c.dec(b).value) + c.dec(b).rest {
      CountCanonical(b);
    }
  }

  // ---------- Combinators ----------

  function DecodePair<A, B>(a: Codec<A>, b: Codec<B>, input: bytes): Parsed<(A, B)> {
    match a.dec(input)
    case Fail(e) => Fail(e)
    case Done(x, rest) =>
      match b.dec(rest)
      case Fail(e) => Fail(e)
      case Done(y, rest') => Done((x, y), rest')
  }

  function PairCodec<A, B>(a: Codec<A>, b: Codec<B>): Codec<(A, B)> {
    Codec((p: (A, B)) => a.enc(p.0) + b.enc(p.1),
          input => DecodePair(a, b, input),
          (p: (A, B)) => a.ok(p.0) && b.ok(p.1))
  }

  lemma PairLawful<A(!new), B(!new)>(a: Codec<A>, b: Codec<B>)
    requires Lawful(a) && Lawful(b)
    ensures Lawful(PairCodec(a, b))
  {
    var c := PairCodec(a, b);
    forall p: (A, B), rest: bytes | c.ok(p) ensures c.dec(c.enc(p) + rest) == Done(p, rest) {
      assert c.enc(p) + rest == a.enc(p.0) + (b.enc(p.1) + rest);
    }
    forall input: bytes | c.dec(input).Done?
      ensures c.ok(c.dec(input).value) && input == c.enc(c.dec(input).value) + c.dec(input).rest
    {
      var x := a.dec(input);
      var y := b.dec(x.rest);
      assert input == a.enc(x.value) + (b.enc(y.value) + y.rest);
    }
  }

  function MapParsed<A, B>(p: Parsed<A>, f: A -> B): Parsed<B> {
    match p
    case Fail(e) => Fail(e)
    case Done(v, rest) => Done(f(v), rest)
  }

  /** The same bytes, read as another type. A value that `from` does not represent faithfully
      cannot be encoded. */
  function MapCodec<A, B(==)>(c: Codec<A>, to: A -> B, from: B -> A): Codec<B> {
    Codec((v: B) => c.enc(from(v)),
          b => MapParsed(c.dec(b), to),
          (v: B) => c.ok(from(v)) && to(from(v)) == v)
  }

  lemma MapLawful<A(!new), B(!new)>(c: Codec<A>, to: A -> B, from: B -> A)
    requires Lawful(c)
    requires forall x :: c.ok(x) ==> from(to(x)) == x
    ensures Lawful(MapCodec(c, to, from))
  {
    var d := MapCodec(c, to, from);
    forall v: B, rest: bytes | d.ok(v) ensures d.dec(d.enc(v) + rest) == Done(v, rest) {
      assert c.dec(c.enc(from(v)) + rest) == Done(from(v), rest);
    }
    forall b: bytes | d.dec(b).Done?
      ensures d.ok(d.dec(b).value) && b == d.enc(d.dec(b).value) + d.dec(b).rest
    {
      assert from(d.dec(b).value) == c.dec(b).value;
    }
  }

  function EncodeAll<T>(c: Codec<T>, s: seq<T>): bytes {
    if s == [] then [] else EncodeAll(c, s[..|s| - 1]) + c.enc(s[|s| - 1])
  }

  function DecodeMany<T>(c: Codec<T>, n: nat, b: bytes): Parsed<seq<T>> {
    if n == 0 then Done([], b) else
    match c.dec(b)
    case Fail(e) => Fail(e)
    case Done(v, rest) =>
      match DecodeMany(c, n - 1, rest)
      case Fail(e) => Fail(e)
      case Done(vs, rest') => Done([v] + vs, rest')
  }

  function DecodeSeq<T>(c: Codec<T>, b: bytes): Parsed<seq<T>> {
    match I32().dec(b)
    case Fail(e) => Fail(e)
    case Done(n, rest) => if n < 0 then Fail(NegativeSequence) else DecodeMany(c, n, rest)
  }

  function SeqCodec<T>(c: Codec<T>): Codec<seq<T>> {
    Codec((s: seq<T>) => I32().enc(|s|) + EncodeAll(c, s),
          b => DecodeSeq(c, b),
          (s: seq<T>) => |s| <= INT32_MAX && AllOk(c, s))
  }

  predicate AllOk<T>(c: Codec<T>, s: seq<T>) {
    forall i :: 0 <= i < |s| ==> c.ok(s[i])
  }

  // The loops of the converters, one iteration at a time.

  function Prepend<T>(items: seq<T>, p: Parsed<seq<T>>): Parsed<seq<T>> {
    match p
    case Fail(e) => Fail(e)
    case Done(vs, rest) => Done(items + vs, rest)
  }

  lemma ManyStep<T>(c: Codec<T>, n: nat, b: bytes, items: seq<T>)
    requires n > 0
    ensures Prepend(items, DecodeMany(c, n, b)) ==
            match c.dec(b)
            case Fail(e) => Fail(e)
            case Done(v, rest) => Prepend(items + [v], DecodeMany(c, n - 1, rest))
  {
    match c.dec(b)
    case Fail(_) =>
    case Done(v, rest) =>
      match DecodeMany(c, n - 1, rest)
      case Fail(_) =>
      case Done(vs, _) => assert items + ([v] + vs) == items + [v] + vs;
  }

  lemma ManyStart<T>(c: Codec<T>, n: nat, b: bytes)
    ensures Prepend([], DecodeMany(c, n, b)) == DecodeMany(c, n, b)
  {
    match DecodeMany(c, n, b)
    case Fail(_) =>
    case Done(vs, _) => assert [] + vs == vs;
  }

  lemma ManyEnd<T>(c: Codec<T>, b: bytes, items: seq<T>)
    ensures Prepend(items, DecodeMany(c, 0, b)) == Done(items, b)
  {
    assert items + [] == items;
  }

  lemma SeqLayout<T>(c: Codec<T>, s: seq<T>, before: bytes)
    ensures before + I32().enc(|s|) + EncodeAll(c, s) == before + SeqCodec(c).enc(s)
    ensures SeqCodec(c).ok(s) <==> |s| <= INT32_MAX && AllOk(c, s)
  {
    hide IntCodec, EncodeAll, DecodeSeq, AllOk;
    assert SeqCodec(c).enc(s) == I32().enc(|s|) + EncodeAll(c, s);
  }

  lemma EncodeNone<T>(c: Codec<T>, s: seq<T>)
    ensures EncodeAll(c, s[..0]) == [] && AllOk(c, s[..0])
  {}

  lemma EncodeAllNext<T>(c: Codec<T>, s: seq<T>, i: nat)
    requires i < |s|
    ensures EncodeAll(c, s[..i + 1]) == EncodeAll(c, s[..i]) + c.enc(s[i])
    ensures AllOk(c, s[..i + 1]) <==> AllOk(c, s[..i]) && c.ok(s[i])
    ensures AllOk(c, s) ==> c.ok(s[i])
  {
    assert s[..i + 1][..i] == s[..i];
  }

  lemma {:induction false} EncodeAllCons<T>(c: Codec<T>, s: seq<T>)
    requires s != []
    ensures EncodeAll(c, s) == c.enc(s[0]) + EncodeAll(c, s[1..])
  {
    if |s| == 1 {
      assert s[..0] == [] == s[1..];
    } else {
      EncodeAllCons(c, s[..|s| - 1]);
      assert s[..|s| - 1][1..] == s[1..][..|s| - 2];
    }
  }

  lemma {:induction false} ManyRoundTrip<T(!new)>(c: Codec<T>, s: seq<T>, rest: bytes)
    requires Lawful(c) && AllOk(c, s)
    ensures DecodeMany(c, |s|, EncodeAll(c, s) + rest) == Done(s, rest)
  {
    if s == [] {
      assert EncodeAll(c, s) + rest == rest;
    } else {
      EncodeAllCons(c, s);
      var tail := EncodeAll(c, s[1..]) + rest;
      assert EncodeAll(c, s) + rest == c.enc(s[0]) + tail;
      assert c.dec(c.enc(s[0]) + tail) == Done(s[0], tail);
      ManyRoundTrip(c, s[1..], rest);
      assert [s[0]] + s[1..] == s;
    }
  }

  lemma {:induction false} ManyCanonical<T(!new)>(c: Codec<T>, n: nat, b: bytes)
    requires Lawful(c) && DecodeMany(c, n, b).Done?
    ensures var d := DecodeMany(c, n, b);
            && |d.value| == n
            && AllOk(c, d.value)
            && b == EncodeAll(c, d.value) + d.rest
  {
    if n > 0 {
      var x := c.dec(b);
      ManyCanonical(c, n - 1, x.rest);
      var d := DecodeMany(c, n, b);
      EncodeAllCons(c, d.value);
      assert d.value[1..] == DecodeMany(c, n - 1, x.rest).value;
      assert b == c.enc(x.value) + (EncodeAll(c, d.value[1..]) + d.rest);
    }
  }

  lemma SeqLawful<T(!new)>(c: Codec<T>)
    requires Lawful(c)
    ensures Lawful(SeqCodec(c))
  {
    var d := SeqCodec(c);
    forall s: seq<T>, rest: bytes | d.ok(s) ensures d.dec(d.enc(s) + rest) == Done(s, rest) {
      assert d.enc(s) + rest == I32().enc(|s|) + (EncodeAll(c, s) + rest);
      CountThen(|s|, EncodeAll(c, s) + rest);
      ManyRoundTrip(c, s, rest);
    }
    forall b: bytes | d.dec(b).Done?
      ensures d.ok(d.dec(b).value) && b == d.enc(d.dec(b).value) + d.dec(b).rest
    {
      SeqCanonical(c, b);
    }
  }

  lemma SeqCanonical<T(!new)>(c: Codec<T>, b: bytes)
    requires Lawful(c) && DecodeSeq(c, b).Done?
    ensures var d := DecodeSeq(c, b);
            && SeqCodec(c).ok(d.value)
            && b == I32().enc(|d.value|) + EncodeAll(c, d.value) + d.rest
  {
    hide IntCodec, Lawful;
    var n := I32().dec(b);
    CountCanonical(b);
    ManyCanonical(c, n.value, n.rest);
  }

  function DecodeOption<T>(c: Codec<T>, b: bytes): Parsed<Option<T>> {
    if b == [] then Fail(PastEnd)
    else if b[0] == 0 then Done(None, b[1..])
    else if b[0] == 1 then MapParsed(c.dec(b[1..]), v => Some(v))
    else Fail(BadFlag)
  }

  function EncodeOption<T>(c: Codec<T>, v: Option<T>): bytes {
    if v.None? then [0] else [1] + c.enc(v.value)
  }

  function OptionCodec<T>(c: Codec<T>): Codec<Option<T>> {
    Codec((v: Option<T>) => EncodeOption(c, v),
          b => DecodeOption(c, b),
          (v: Option<T>) => v.Some? ==> c.ok(v.value))
  }

  lemma OptionLayout<T>(c: Codec<T>, v: Option<T>, before: bytes)
    ensures before + OptionCodec(c).enc(v)
         == before + IntCodec(1, false).enc(if v.Some? then 1 else 0) + if v.Some? then c.enc(v.value) else []
    ensures OptionCodec(c).ok(v) <==> v.Some? ==> c.ok(v.value)
  {
    FlagBytes();
    if v.Some? {
      assert EncodeOption(c, v) == [1] + c.enc(v.value);
    }
  }

  lemma FlagBytes()
    ensures IntCodec(1, false).enc(0) == [0] && IntCodec(1, false).enc(1) == [1]
    ensures IntCodec(1, false).ok(0) && IntCodec(1, false).ok(1)
    ensures forall b: bytes :: IntCodec(1, false).dec(b) == if b == [] then Fail(PastEnd) else Done(b[0], b[1..])
  {
    assert BigEndian(1, 0) == BigEndian(0, 0) + [0];
    assert BigEndian(1, 1) == BigEndian(0, 0) + [1];
    forall b: bytes | b != [] ensures FromBigEndian(b[..1]) == b[0] {
      assert b[..1][..0] == [];
    }
  }

  lemma OptionLawful<T(!new)>(c: Codec<T>)
    requires Lawful(c)
    ensures Lawful(OptionCodec(c))
  {
    var d := OptionCodec(c);
    forall v: Option<T>, rest: bytes | d.ok(v) ensures d.dec(d.enc(v) + rest) == Done(v, rest) {
      if v.Some? {
        assert (d.enc(v) + rest)[1..] == c.enc(v.value) + rest;
      }
    }
    forall b: bytes | d.dec(b).Done?
      ensures d.ok(d.dec(b).value) && b == d.enc(d.dec(b).value) + d.dec(b).rest
    {
      if b[0] == 1 {
        assert b == [1] + (c.enc(c.dec(b[1..]).value) + c.dec(b[1..]).rest);
      }
    }
  }

  /** An index 1..count, as enums and errors put in front of their payload. */
  function DecodeVariant(count: nat, b: bytes): Parsed<int> {
    match I32().dec(b)
    case Fail(e) => Fail(e)
    case Done(n, rest) => if 1 <= n <= count then Done(n, rest) else Fail(BadVariant)
  }

  function VariantCodec(count: nat): Codec<int> {
    Codec(I32().enc, b => DecodeVariant(count, b), n => 1 <= n <= count)
  }

  lemma VariantLawful(count: nat)
    requires count <= INT32_MAX
    ensures Lawful(VariantCodec(count))
  {
    IntLawful(4, true);
    Pow256Values();
    var c := VariantCodec(count);
    forall n: int, rest: bytes | c.ok(n) ensures c.dec(c.enc(n) + rest) == Done(n, rest) {
      assert I32().ok(n);
    }
  }
}
