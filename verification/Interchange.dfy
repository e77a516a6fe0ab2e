/** Values sent from one binding to another: lowered by the one, lifted by the other. */
module Interchange {
  import opened Wrappers
  import opened Bytes
  import opened WireFormat
  import opened Records
  import opened RustHeap
  import PythonConverters
  import CppConverters
  import CSharpConverters

  datatype Binding = Python | Cpp(bigEndianHost: bool) | CSharp {
    /** The types the binding has a converter for. */
    predicate Supports(k: Kind) {
      CSharp? ==> CSharpConverters.Supported(k)
    }

    /** The values the binding is sure to lower without loss. */
    predicate Carries(v: Value) {
      match this
      case Python => ValueOk(v)
      case Cpp(_) => ValueOk(v) && !v.ErrorValue? && |EncodeValue(v)| < UINT64_MOD
      case CSharp => |EncodeValue(v)| <= INT32_MAX
    }

    method Lower(value: Value, heap: Heap) returns (r: Option<RustBuffer>)
      requires Supports(value.Kind())
      modifies heap
      ensures r.Some? ==>
                fresh(r.value.data) && heap.Holds(r.value) && heap.live == old(heap.live) + {r.value.data}
      ensures r.None? ==> heap.live == old(heap.live)
      ensures Carries(value) ==> r.Some? && ValueOk(value) && heap.Payload(r.value) == EncodeValue(value)
      ensures Cpp? && value.ErrorValue? ==>
                r.Some? && |EncodeValue(value)| > 4 && heap.Payload(r.value) == EncodeValue(value)[..4]
      ensures !Cpp? && r.Some? ==> ValueOk(value) && heap.Payload(r.value) == EncodeValue(value)
    {
      hide EncodeValue, ValueOk;
      match this {
        case Python => r := PythonConverters.Lower(value, heap);
        case Cpp(bigEndianHost) =>
          var buf := CppConverters.Lower(value, heap, bigEndianHost);
          r := Some(buf);
        case CSharp =>
          if |EncodeValue(value)| <= INT32_MAX {
            CSharpConverters.FitsIsOk(value);
          }
          r := CSharpConverters.LowerIntoRustBuffer(value, heap);
      }
    }

    method Lift(kind: Kind, buf: RustBuffer, heap: Heap) returns (r: Result<Value, WireError>)
      requires Supports(kind) && heap.Holds(buf)
      modifies heap
      ensures heap.live == if Cpp? && r.Err? then old(heap.live) else old(heap.live) - {buf.data}
      ensures forall v: Value :: v.Kind() == kind && ValueOk(v) && old(heap.Payload(buf)) == EncodeValue(v) ==> r == Ok(v)
      ensures !Cpp? ==> r == WireFormat.Lift(ValueCodec(kind), old(heap.Payload(buf)))
    {
      hide EncodeValue, ValueOk, DecodeValue, CppConverters.DecodeValueLoosely;
      forall v: Value | v.Kind() == kind && ValueOk(v) && heap.Payload(buf) == EncodeValue(v)
        ensures WireFormat.Lift(ValueCodec(kind), heap.Payload(buf)) == Ok(v)
        ensures CppConverters.DecodeValueLoosely(kind, heap.Payload(buf)) == Done(v, [])
      {
        LiftsEverywhere(v);
      }
      match this {
        case Python => r := PythonConverters.LiftValue(kind, buf, heap);
        case Cpp(bigEndianHost) => r := CppConverters.LiftValue(kind, buf, heap, bigEndianHost);
        case CSharp => r := CSharpConverters.LiftFromRustBuffer(kind, buf, heap);
      }
    }
  }

  /** An encoding lifts to its value under the strict and the loose decoder alike. */
  lemma LiftsEverywhere(v: Value)
    requires ValueOk(v)
    ensures Lift(ValueCodec(v.Kind()), EncodeValue(v)) == Ok(v)
    ensures CppConverters.DecodeValueLoosely(v.Kind(), EncodeValue(v)) == Done(v, [])
  {
    hide EncodeValue, DecodeValue, CppConverters.DecodeValueLoosely;
    ValueRoundTrip(v, []);
    assert EncodeValue(v) + [] == EncodeValue(v);
    CppConverters.LooseIff(v.Kind(), EncodeValue(v));
  }

  /** Sends a value: what the sender carries arrives unchanged at any receiver and no buffer is left
      over, whichever of the two is written in which language and whatever the endianness of their
      hosts. Neither Python nor C# ever sends anything but the value. An error sent from C++ is refused
      by Python and C#, which free its buffer. */
  method Send(sender: Binding, receiver: Binding, value: Value, heap: Heap)
    returns (r: Option<Result<Value, WireError>>)
    requires sender.Supports(value.Kind()) && receiver.Supports(value.Kind())
    modifies heap
    ensures sender.Python? && ValueOk(value) ==> r == Some(Ok(value))
    ensures sender.Cpp? && ValueOk(value) && !value.ErrorValue? && |EncodeValue(value)| < 0x1_0000_0000_0000_0000 ==>
              r == Some(Ok(value))
    ensures sender.CSharp? && |EncodeValue(value)| <= 0x7fff_ffff ==> r == Some(Ok(value))
    ensures !sender.Cpp? ==> r.None? || r == Some(Ok(value))
    ensures sender.Cpp? && value.ErrorValue? && !receiver.Cpp? ==> r == Some(Err(PastEnd))
    ensures r.None? || r.value.Ok? || !receiver.Cpp? ==> heap.live == old(heap.live)
  {
    hide EncodeValue, ValueOk, DecodeValue, ValueCodec;
    var buf := sender.Lower(value, heap);
    if buf.None? {
      return None;
    }
    if value.ErrorValue? {
      ErrorRefused(value.error);
    }
    var lifted := receiver.Lift(value.Kind(), buf.value, heap);
    r := Some(lifted);
  }

  /** C# has converters for sequences of field elements, calls and errors; the others for every type. */
  lemma SupportsIff(b: Binding, k: Kind)
    ensures b.Supports(k) <==> b.Python? || b.Cpp? || k in {FieldsKind, CallKind, ErrorKind}
  {}

  lemma ErrorRefused(e: ControllerError)
    ensures |EncodeValue(ErrorValue(e))| > 4
    ensures Lift(ValueCodec(ErrorKind), EncodeValue(ErrorValue(e))[..4]) == Err(PastEnd)
  {
    hide ErrorCodec;
    CppConverters.ErrorHead(e);
    CppConverters.ErrorNeverLifts(e);
  }
}
