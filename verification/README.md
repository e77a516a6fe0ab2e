# Verified model of the Controller bindings

Controller is a Rust library with generated bindings for other languages. This project models three
parts of it and proves what they promise.

**Object lifetime (C#).** `ControllerInfo` decides with a lock-free counter when the Rust object it
points to is freed. `ObjectLifetime.dfy` is the protocol as a step system: any number of threads, one
atomic operation per step, with the Rust strong count as part of the state. `ObjectLifetimeProofs.dfy`
proves its inductive invariant and what follows for every run: no use after free, one free, a conserved
strong count, a bound on the number of steps under any schedule, and that everything can always be
completed. What these speak of (steps, retries, frees, clones taken and consumed) is counted over the
events of the run. `ControllerInfo.dfy` gives the methods in the form of the source, retry loop included,
with a burst of the other threads before each atomic operation; each contract names the run the method
adds, woven from its own operations and the bursts (`Interleaving.dfy`).

Two things the proofs show about the code. What refuses a call is the counter, not the destroyed flag: a
call may still be admitted after `Destroy` has returned, as long as another is in flight
(`AdmittedAfterDestroy`; `RefusedIff` and `ZeroIff` say exactly when). And a compare-and-swap that fails
is always paid for by another thread's update, although the counter may have its old value again. The
overflow check can fire only in a program with `long.MaxValue` threads or more (`OverflowIff`).

**Wire format (Python, C++, C#).** `Bytes.dfy`, `WireFormat.dfy` and `Records.dfy` define one encoder and
one decoder per type and prove them inverse in both directions, with one lemma per way of combining
types. The three bindings are then proved to implement them, each in its own way: Python with a growable
buffer (`PythonBuffers.dfy`, `PythonConverters.dfy`), C++ with a buffer sized in advance and bytes
reversed on little-endian hosts (`CppStream.dfy`, `CppConverters.dfy`), C# with shift-and-multiply loops
and 32-bit sizes over a bounded stream (`CSharpStream.dfy`, `CSharpConverters.dfy`). `RustHeap.dfy` gives
the foreign allocator's contracts over a ledger of live buffers, so that each `lower` and `lift` also
states who owns the buffer afterwards. `Interchange.dfy` puts them together: what one binding lowers,
another lifts, without loss and without a leak. `HandleMap.dfy` proves Python's handle map against a log
of everything issued.

Where the bindings differ, the difference is stated exactly. C++ fixes 4 bytes for an error and drops
its message, so the buffer lifts in neither Python nor C# and runs out in C++ (`CppConverters.Lower`,
`ErrorNeverLifts`); its writer also cuts a message at the first zero byte (`CString`). C++ takes any
option flag but zero for a value (`LooseIff`), ignores bytes after a value, and does not free the buffer
when reading throws (`CppConverters.LiftValue`). When its input ends too early it goes on with unspecified
contents; the readers are proved to stay inside the buffer then, and the stream to have gone bad exactly
when the decoder runs out, although nobody looks.

**Canonical session policies (Rust).** `HexOrder.dfy` and `Policies.dfy` prove that the comparator is a
total order that ties only identical entries, that padded hexadecimal text orders as numbers do, that the
canonical list is determined by, and determines, the collection of policies meant, and that the list
registered in the session URL and the list the session signs agree position by position.

Conventions: strings are byte sequences; a failing operation returns an error or a flag instead of
throwing; integers are unbounded, and wrap-around is written out where the source relies on it (C#
sizes and digit loops, lengths cast to 32 bits). `dafny verify dfyconfig.toml` checks the project.

## Model

| member | source | states |
|---|---|---|
| `ObjectLifetimeProofs.StepInv` | bindings/csharp/controller_uniffi.cs:1205-1278 | every atomic step of every thread keeps the invariant: counter = owner's token + calls in flight, exactly one pending or past free once the counter is 0, strong count = pointer + clones, every retry paid for, steps bounded |
| `ObjectLifetimeProofs.RunInv` | bindings/csharp/controller_uniffi.cs:1205-1278 | the invariant holds in every state of every interleaving |
| `ObjectLifetimeProofs.NoUseAfterFree` | bindings/csharp/controller_uniffi.cs:1211-1215 | no thread ever clones, uses or frees the pointer once it has been freed or the object dropped |
| `ObjectLifetimeProofs.FreedExactlyOnce` | bindings/csharp/controller_uniffi.cs:1217-1228 | the pointer is freed at most once, only after a Destroy won and with no call in flight; at quiescence it has been freed if and only if Destroy has run |
| `ObjectLifetimeProofs.StrongCountConserved` | bindings/csharp/controller_uniffi.cs:1205-1215 | the strong count equals the unfreed pointer plus clones in use plus clones handed out by Lower and not consumed since, which therefore keep the object alive |
| `ObjectLifetimeProofs.PointerTallies` | bindings/csharp/controller_uniffi.cs:1205-1278 | counted over the events of any run: clones handed out minus those consumed, and strong count = 1 + clones taken - used by methods - consumed after Lower - frees |
| `ObjectLifetimeProofs.Tallies` | bindings/csharp/controller_uniffi.cs:1205-1278 | steps, starts and counter updates kept in the state are those of the events |
| `ObjectLifetimeProofs.ThreadTallies` | bindings/csharp/controller_uniffi.cs:1236-1256 | so are each thread's failed swaps and counter updates |
| `ObjectLifetimeProofs.Released` | bindings/csharp/controller_uniffi.cs:1312-1314 | no leak: after Destroy, with all threads done, the object dies exactly when the last handed-out clone is consumed |
| `ObjectLifetimeProofs.ZeroIff` | bindings/csharp/controller_uniffi.cs:1236-1256 | the counter never leaves 0..long.MaxValue, and is 0 exactly when Destroy has given up the token and no call is in flight |
| `ObjectLifetimeProofs.ZeroForever` | bindings/csharp/controller_uniffi.cs:1243-1247 | once 0 the counter stays 0 and no call is ever admitted again |
| `ObjectLifetimeProofs.RefusedIff` | bindings/csharp/controller_uniffi.cs:1244 | a call is refused as disposed exactly when it reads 0, and as overflowing exactly when it reads long.MaxValue; the destroyed flag alone refuses nothing |
| `ObjectLifetimeProofs.CounterBound` | bindings/csharp/controller_uniffi.cs:1236-1256 | the counter is at most the number of threads, plus one for a thread that is in a call |
| `ObjectLifetimeProofs.OverflowIff` | bindings/csharp/controller_uniffi.cs:1245 | some run refuses a call as overflowing if and only if there are at least long.MaxValue threads |
| `ObjectLifetimeProofs.AdmittedAfterDestroy` | bindings/csharp/controller_uniffi.cs:1236-1248 | a concrete run in which a call is admitted after Destroy has returned, because another call is in flight |
| `ObjectLifetimeProofs.EnterCall` | bindings/csharp/controller_uniffi.cs:1236-1248 | an undisturbed call is admitted whenever the counter is neither 0 nor at its maximum, destroyed or not |
| `ObjectLifetimeProofs.DestroyDuringCall` | bindings/csharp/controller_uniffi.cs:1217-1228 | Destroy during a call gives up the token without freeing |
| `ObjectLifetimeProofs.RetriesPaidByOthers` | bindings/csharp/controller_uniffi.cs:1241-1247 | in the events of any run, a thread's failed swaps are at most the counter changes made by other threads, value repetitions notwithstanding |
| `ObjectLifetimeProofs.StepsBounded` | bindings/csharp/controller_uniffi.cs:1205-1278 | lock freedom with a bound: in any run of n threads, k operations started take at most (7 + 4n)k thread steps |
| `ObjectLifetimeProofs.FinishThread` | bindings/csharp/controller_uniffi.cs:1258-1278 | from any reachable state a thread left alone finishes its operation |
| `ObjectLifetimeProofs.CanAlwaysComplete` | bindings/csharp/controller_uniffi.cs:1217-1278 | from any reachable state everything under way can be completed, after which a destroyed object's pointer has been freed and only handed-out clones remain |
| `Interleaving.WeaveParts` | bindings/csharp/controller_uniffi.cs:1236-1278 | in a run woven from bursts and a thread's operations, the others' events are exactly the bursts in order, and the thread's are exactly its operations |
| `Interleaving.ForeignIff` | bindings/csharp/controller_uniffi.cs:1236-1278 | a burst is foreign to a thread exactly when it contains nothing of that thread |
| `Interleaving.WeaveConcat` | bindings/csharp/controller_uniffi.cs:1258-1278 | going on with more operations and the bursts left over is one longer weaving |
| `ControllerInfo.ForeignKeeps` | bindings/csharp/controller_uniffi.cs:1236-1256 | what other threads do leaves a thread's own position alone and cannot undo a destroy or revive the counter |
| `ControllerInfo.ControllerInfo.constructor` | bindings/csharp/controller_uniffi.cs:1188-1194 | a new object has counter 1 and strong count 1, is not destroyed, and any thread may use it |
| `ControllerInfo.ControllerInfo.Interfere` | bindings/csharp/controller_uniffi.cs:1236-1278 | the next burst of the other threads is executed, all of it and nothing else |
| `ControllerInfo.ControllerInfo.Perform` | bindings/csharp/controller_uniffi.cs:1236-1278 | the next burst, then exactly one atomic operation |
| `ControllerInfo.ControllerInfo.TryIncrement` | bindings/csharp/controller_uniffi.cs:1241-1247 | one round reads and swaps, with a burst before each: refused exactly if the count read is 0 or the maximum, and failed only if a burst came in between |
| `ControllerInfo.ControllerInfo.IncrementCallCounter` | bindings/csharp/controller_uniffi.cs:1236-1248 | the retry loop ends admitted or refused after two operations per failed round and one or two more, each with its burst: refused at once if the first burst leaves the counter 0 or at its maximum; it retries at most as often as others ran in between and changes the counter only if it admits |
| `ControllerInfo.ControllerInfo.UseClone` | bindings/csharp/controller_uniffi.cs:1258-1278 | clones and calls back, with a burst before each: the clone is consumed or handed out, or the clone failed; either way the call is released |
| `ControllerInfo.ControllerInfo.DecrementCallCounter` | bindings/csharp/controller_uniffi.cs:1250-1256 | after the next burst, gives back one share; if it was the last the pointer is freed after one more burst, once, and otherwise nothing else happens |
| `ControllerInfo.ControllerInfo.RunAdmitted` | bindings/csharp/controller_uniffi.cs:1258-1278 | an admitted call clones, calls back and decrements, with a burst before each, even if the clone throws |
| `ControllerInfo.ControllerInfo.CallWithPointer` | bindings/csharp/controller_uniffi.cs:1258-1278 | against every interleaving, with the exact run it adds: refused if the first burst leaves the counter 0, without touching the counter, otherwise exactly two counter updates even when the clone throws, and never refused as overflowing with fewer than long.MaxValue threads; undisturbed, the counter decides the outcome and ends where it was |
| `ControllerInfo.ControllerInfo.Destroy` | bindings/csharp/controller_uniffi.cs:1217-1228 | with the exact run it adds: updates the counter exactly if the flag was not set after the first burst, and then frees the pointer exactly if its share is the last one |
| `Bytes.FromBigEndianOf` | bindings/csharp/controller_uniffi.cs:366-454 | reading the low w bytes of v gives v modulo 256^w, also for negative v |
| `Bytes.BigEndianAt` | bindings/python/controller_uniffi.py:133-169 | byte i is the digit of weight 256^(w-1-i): most significant first |
| `Bytes.BigEndianOf` | bindings/python/controller_uniffi.py:133-138 | the bytes of an unsigned number are determined by it |
| `Bytes.BigEndianWraps` | bindings/csharp/controller_uniffi.cs:366-409 | the bytes of a negative number are those of its two's complement |
| `Bytes.InterpretBigEndian` | bindings/python/controller_uniffi.py:147-169 | writing then reading an in-range integer of any width and signedness restores it |
| `Bytes.BigEndianInterpret` | bindings/python/controller_uniffi.py:204-237 | reading then writing any w bytes restores them |
| `WireFormat.LiftIffEncoding` | bindings/python/controller_uniffi.py:421-431 | a buffer lifts to v if and only if it is the encoding of v: lift and lower are inverse in both directions |
| `WireFormat.PrefixFree` | bindings/python/controller_uniffi.py:421-431 | no encoding is a proper prefix of another |
| `WireFormat.IntLawful` | bindings/python/controller_uniffi.py:133-169 | fixed-width integers: both inverse laws |
| `WireFormat.StringLawful` | bindings/python/controller_uniffi.py:1073-1085 | length-prefixed strings: both laws, negative lengths and short input rejected |
| `WireFormat.PairLawful` | bindings/python/controller_uniffi.py:1166-1185 | putting fields one after another keeps both laws |
| `WireFormat.MapLawful` | bindings/python/controller_uniffi.py:1166-1185 | reading fields as a record keeps both laws |
| `WireFormat.SeqLawful` | bindings/python/controller_uniffi.py:1122-1144 | counted sequences of any lawful element keep both laws, by induction over the elements |
| `WireFormat.OptionLawful` | bindings/python/controller_uniffi.py:1652-1700 | flagged optionals keep both laws; only flags 0 and 1 decode |
| `WireFormat.VariantLawful` | bindings/python/controller_uniffi.py:1509-1533 | variant indices 1..n: both laws, everything else rejected |
| `Records.CallLawful` | bindings/python/controller_uniffi.py:1122-1185 | both laws for sequences of field elements, Call, and sequences of Call |
| `Records.PoliciesLawful` | bindings/python/controller_uniffi.py:1205-1280 | both laws for SessionPolicy, sequences of it, and SessionPolicies |
| `Records.ErrorLawful` | bindings/python/controller_uniffi.py:1414-1494 | both laws for ControllerError with its message |
| `Records.SignerLawful` | bindings/python/controller_uniffi.py:1509-1533 | both laws for SignerType |
| `Records.VersionLawful` | bindings/python/controller_uniffi.py:1559-1612 | both laws for Version |
| `Records.OptionalsLawful` | bindings/python/controller_uniffi.py:1639-1700 | both laws for optional u64 and optional string |
| `Records.ValueLawful` | bindings/python/controller_uniffi.py:421-431 | both laws for every type that travels in a buffer |
| `Records.ValueRoundTrip` | bindings/python/controller_uniffi.py:421-431 | every encodable value of every type decodes from its encoding, whatever follows |
| `Records.ValueCanonical` | bindings/python/controller_uniffi.py:421-431 | every buffer prefix that decodes is the encoding of an encodable value |
| `RustHeap.Heap.Alloc` | bindings/python/controller_uniffi.py:47-49 | foreign contract: a fresh live buffer of the requested length |
| `RustHeap.Heap.Reserve` | bindings/python/controller_uniffi.py:51-53 | foreign contract: consumes the buffer, keeps the payload, guarantees room |
| `RustHeap.Heap.Free` | bindings/python/controller_uniffi.py:55-56 | foreign contract: a live buffer, freed once |
| `PythonBuffers.RustBufferBuilder.constructor` | bindings/python/controller_uniffi.py:183-185 | starts with an owned empty buffer of capacity 16 |
| `PythonBuffers.RustBufferBuilder.Finalize` | bindings/python/controller_uniffi.py:187-190 | hands the buffer over |
| `PythonBuffers.RustBufferBuilder.Discard` | bindings/python/controller_uniffi.py:192-195 | frees the buffer if it is still owned, once |
| `PythonBuffers.RustBufferBuilder.Reserve` | bindings/python/controller_uniffi.py:197-202 | makes room, by reallocation if needed, without changing what was written |
| `PythonBuffers.RustBufferBuilder.Store` | bindings/python/controller_uniffi.py:204-213 | the store loop appends exactly the bytes given |
| `PythonBuffers.RustBufferBuilder.Write` | bindings/python/controller_uniffi.py:210-213 | appends bytes, across reallocations |
| `PythonBuffers.RustBufferBuilder.PackInto` | bindings/python/controller_uniffi.py:204-208 | appends the big-endian form, or fails out of range having written nothing |
| `PythonBuffers.RustBufferBuilder.WriteI32` | bindings/python/controller_uniffi.py:227-228 | appends a signed 32-bit integer or fails |
| `PythonBuffers.RustBufferBuilder.WriteU8` | bindings/python/controller_uniffi.py:218-219 | appends a byte or fails |
| `PythonBuffers.RustBufferBuilder.WriteU64` | bindings/python/controller_uniffi.py:236-237 | appends an unsigned 64-bit integer or fails |
| `PythonBuffers.RustBufferStream.FromRustBuffer` | bindings/python/controller_uniffi.py:121-128 | a reader over the payload |
| `PythonBuffers.RustBufferStream.RemainingCount` | bindings/python/controller_uniffi.py:130-131 | how much is left to read |
| `PythonBuffers.RustBufferStream.ReadBytes` | bindings/python/controller_uniffi.py:140-145 | takes bytes, or fails at the end without moving |
| `PythonBuffers.RustBufferStream.UnpackFrom` | bindings/python/controller_uniffi.py:133-138 | reads an integer, or fails at the end |
| `PythonBuffers.RustBufferStream.ReadI32` | bindings/python/controller_uniffi.py:159-160 | reads a signed 32-bit integer |
| `PythonBuffers.RustBufferStream.ReadU8` | bindings/python/controller_uniffi.py:150-151 | reads a byte |
| `PythonBuffers.RustBufferStream.ReadU64` | bindings/python/controller_uniffi.py:168-169 | reads an unsigned 64-bit integer |
| `PythonConverters.WriteString` | bindings/python/controller_uniffi.py:1080-1084 | appends exactly the encoding, or fails exactly when the value has none; the builder still owns one buffer |
| `PythonConverters.WriteFields` | bindings/python/controller_uniffi.py:1128-1133 | appends exactly the encoding, or fails exactly when the value has none; the builder still owns one buffer |
| `PythonConverters.WriteCall` | bindings/python/controller_uniffi.py:1181-1185 | appends exactly the encoding, or fails exactly when the value has none; the builder still owns one buffer |
| `PythonConverters.WritePolicy` | bindings/python/controller_uniffi.py:1218-1221 | appends exactly the encoding, or fails exactly when the value has none; the builder still owns one buffer |
| `PythonConverters.WritePolicySeq` | bindings/python/controller_uniffi.py:1229-1234 | appends exactly the encoding, or fails exactly when the value has none; the builder still owns one buffer |
| `PythonConverters.WritePolicies` | bindings/python/controller_uniffi.py:1277-1280 | appends exactly the encoding, or fails exactly when the value has none; the builder still owns one buffer |
| `PythonConverters.WriteError` | bindings/python/controller_uniffi.py:1472-1494 | appends exactly the encoding, or fails exactly when the value has none; the builder still owns one buffer |
| `PythonConverters.WriteSigner` | bindings/python/controller_uniffi.py:1527-1532 | appends exactly the encoding, or fails exactly when the value has none; the builder still owns one buffer |
| `PythonConverters.WriteVersion` | bindings/python/controller_uniffi.py:1597-1612 | appends exactly the encoding, or fails exactly when the value has none; the builder still owns one buffer |
| `PythonConverters.WriteCalls` | bindings/python/controller_uniffi.py:1622-1627 | appends exactly the encoding, or fails exactly when the value has none; the builder still owns one buffer |
| `PythonConverters.WriteOptionalU64` | bindings/python/controller_uniffi.py:1658-1665 | appends exactly the encoding, or fails exactly when the value has none; the builder still owns one buffer |
| `PythonConverters.WriteOptionalString` | bindings/python/controller_uniffi.py:1683-1690 | appends exactly the encoding, or fails exactly when the value has none; the builder still owns one buffer |
| `PythonConverters.ReadString` | bindings/python/controller_uniffi.py:1072-1078 | on any bytes: the decoder's value and position, or its error |
| `PythonConverters.ReadFields` | bindings/python/controller_uniffi.py:1135-1143 | on any bytes: the decoder's value and position, or its error |
| `PythonConverters.ReadCall` | bindings/python/controller_uniffi.py:1167-1173 | on any bytes: the decoder's value and position, or its error |
| `PythonConverters.ReadPolicy` | bindings/python/controller_uniffi.py:1206-1211 | on any bytes: the decoder's value and position, or its error |
| `PythonConverters.ReadPolicySeq` | bindings/python/controller_uniffi.py:1236-1244 | on any bytes: the decoder's value and position, or its error |
| `PythonConverters.ReadPolicies` | bindings/python/controller_uniffi.py:1265-1270 | on any bytes: the decoder's value and position, or its error |
| `PythonConverters.ReadError` | bindings/python/controller_uniffi.py:1415-1445 | on any bytes: the decoder's value and position, or its error |
| `PythonConverters.ReadSigner` | bindings/python/controller_uniffi.py:1510-1517 | on any bytes: the decoder's value and position, or its error |
| `PythonConverters.ReadVersion` | bindings/python/controller_uniffi.py:1560-1577 | on any bytes: the decoder's value and position, or its error |
| `PythonConverters.ReadCalls` | bindings/python/controller_uniffi.py:1629-1637 | on any bytes: the decoder's value and position, or its error |
| `PythonConverters.ReadOptionalU64` | bindings/python/controller_uniffi.py:1667-1675 | on any bytes: the decoder's value and position, or its error |
| `PythonConverters.ReadOptionalString` | bindings/python/controller_uniffi.py:1692-1700 | on any bytes: the decoder's value and position, or its error |
| `PythonConverters.WriteValue` | bindings/python/controller_uniffi.py:428-431 | the same for the converter picked by the value's class |
| `PythonConverters.ReadValue` | bindings/python/controller_uniffi.py:422-425 | the same for the converter picked by the class asked for |
| `PythonConverters.Lower` | bindings/python/controller_uniffi.py:427-431 | succeeds exactly on encodable values, with exactly their encoding in one owned buffer; on failure nothing stays allocated |
| `PythonConverters.LiftValue` | bindings/python/controller_uniffi.py:422-425 | lifts exactly the encodings, rejects trailing junk, and frees the buffer once on every path |
| `PythonConverters.LowerString` | bindings/python/controller_uniffi.py:1091-1095 | a lone string is its bytes, without a length |
| `PythonConverters.LiftString` | bindings/python/controller_uniffi.py:1086-1089 | and is read back whole, freeing the buffer |
| `CppStream.ReverseLittleEndian` | bindings/cpp/controller.hpp:349-360 | reversing the bytes of a little-endian integer gives the wire form |
| `CppStream.WireIsBigEndian` | bindings/cpp/controller.hpp:336-360 | insertion and extraction agree with the wire format on hosts of either endianness |
| `CppStream.RustStream.constructor` | bindings/cpp/controller.hpp:315-334 | reading starts at the payload, writing at the front with the capacity as bound |
| `CppStream.RustStream.Write` | bindings/cpp/controller.cpp:284-287 | the buffer holds as much of what was inserted as fits, and the stream is bad exactly from the first overflow |
| `CppStream.RustStream.Insert` | bindings/cpp/controller.hpp:349-360 | inserts the big-endian form on any host |
| `CppStream.RustStream.Read` | bindings/cpp/controller.cpp:272-282 | overwrites as much of the destination as there are bytes; the stream is bad exactly from the first underflow, and takes nothing more |
| `CppStream.RustStream.Extract` | bindings/cpp/controller.hpp:336-347 | extracts an integer on any host, or goes bad exactly when too few bytes are left |
| `CppConverters.SizeString` | bindings/cpp/controller.cpp:289-291 | exactly the number of bytes its writer inserts, modulo 2^64 |
| `CppConverters.SizeFields` | bindings/cpp/controller.cpp:1185-1193 | exactly the number of bytes its writer inserts, modulo 2^64 |
| `CppConverters.SizeCall` | bindings/cpp/controller.cpp:655-662 | exactly the number of bytes its writer inserts, modulo 2^64 |
| `CppConverters.SizeCalls` | bindings/cpp/controller.cpp:1083-1091 | exactly the number of bytes its writer inserts, modulo 2^64 |
| `CppConverters.SizePolicy` | bindings/cpp/controller.cpp:734-740 | exactly the number of bytes its writer inserts, modulo 2^64 |
| `CppConverters.SizePolicySeq` | bindings/cpp/controller.cpp:1134-1142 | exactly the number of bytes its writer inserts, modulo 2^64 |
| `CppConverters.SizePolicies` | bindings/cpp/controller.cpp:695-701 | exactly the number of bytes its writer inserts, modulo 2^64 |
| `CppConverters.SizeOptionalU64` | bindings/cpp/controller.cpp:985-993 | exactly the number of bytes its writer inserts, modulo 2^64 |
| `CppConverters.SizeOptionalString` | bindings/cpp/controller.cpp:1032-1040 | exactly the number of bytes its writer inserts, modulo 2^64 |
| `CppConverters.SizeError` | bindings/cpp/controller.cpp:797-799 | 4, the bytes of the variant number, which is fewer than any error takes |
| `CppConverters.SizeValue` | bindings/cpp/controller.cpp:853-855 | the size is exact modulo 2^64 for every type but errors |
| `CppConverters.WriteString` | bindings/cpp/controller.cpp:284-287 | inserts exactly the encoding, for every value, lengths cast to 32 bits included |
| `CppConverters.WriteFields` | bindings/cpp/controller.cpp:1177-1183 | inserts exactly the encoding, for every value, lengths cast to 32 bits included |
| `CppConverters.WriteCall` | bindings/cpp/controller.cpp:649-653 | inserts exactly the encoding, for every value, lengths cast to 32 bits included |
| `CppConverters.WriteCalls` | bindings/cpp/controller.cpp:1075-1081 | inserts exactly the encoding, for every value, lengths cast to 32 bits included |
| `CppConverters.WritePolicy` | bindings/cpp/controller.cpp:729-732 | inserts exactly the encoding, for every value, lengths cast to 32 bits included |
| `CppConverters.WritePolicySeq` | bindings/cpp/controller.cpp:1126-1132 | inserts exactly the encoding, for every value, lengths cast to 32 bits included |
| `CppConverters.WritePolicies` | bindings/cpp/controller.cpp:690-693 | inserts exactly the encoding, for every value, lengths cast to 32 bits included |
| `CppConverters.WriteError` | bindings/cpp/controller.cpp:792-795 | inserts the variant number and the message up to its first zero byte |
| `CppConverters.WriteSigner` | bindings/cpp/controller.cpp:837-851 | inserts exactly the encoding, for every value, lengths cast to 32 bits included |
| `CppConverters.WriteVersion` | bindings/cpp/controller.cpp:908-942 | inserts exactly the encoding, for every value, lengths cast to 32 bits included |
| `CppConverters.WriteOptionalU64` | bindings/cpp/controller.cpp:977-983 | inserts exactly the encoding, for every value, lengths cast to 32 bits included |
| `CppConverters.WriteOptionalString` | bindings/cpp/controller.cpp:1024-1030 | inserts exactly the encoding, for every value, lengths cast to 32 bits included |
| `CppConverters.CString` | bindings/cpp/controller.cpp:794 | a message passed as a C string is its part before the first zero byte |
| `CppConverters.ReadString` | bindings/cpp/controller.cpp:272-282 | on any bytes: the decoder's value and position, or an exception where it rejects; the stream goes bad exactly where the decoder runs out |
| `CppConverters.ReadFields` | bindings/cpp/controller.cpp:1163-1175 | on any bytes: the decoder's value and position, or an exception where it rejects; the stream goes bad exactly where the decoder runs out |
| `CppConverters.ReadCall` | bindings/cpp/controller.cpp:641-647 | on any bytes: the decoder's value and position, or an exception where it rejects; the stream goes bad exactly where the decoder runs out |
| `CppConverters.ReadCalls` | bindings/cpp/controller.cpp:1061-1073 | on any bytes: the decoder's value and position, or an exception where it rejects; the stream goes bad exactly where the decoder runs out |
| `CppConverters.ReadPolicy` | bindings/cpp/controller.cpp:722-727 | on any bytes: the decoder's value and position, or an exception where it rejects; the stream goes bad exactly where the decoder runs out |
| `CppConverters.ReadPolicySeq` | bindings/cpp/controller.cpp:1112-1124 | on any bytes: the decoder's value and position, or an exception where it rejects; the stream goes bad exactly where the decoder runs out |
| `CppConverters.ReadPolicies` | bindings/cpp/controller.cpp:683-688 | on any bytes: the decoder's value and position, or an exception where it rejects; the stream goes bad exactly where the decoder runs out |
| `CppConverters.ReadError` | bindings/cpp/controller.cpp:761-790 | on any bytes: the decoder's value and position, or an exception where it rejects; the stream goes bad exactly where the decoder runs out |
| `CppConverters.ReadSigner` | bindings/cpp/controller.cpp:820-835 | on any bytes: the decoder's value and position, or an exception where it rejects; the stream goes bad exactly where the decoder runs out |
| `CppConverters.ReadVersion` | bindings/cpp/controller.cpp:876-906 | on any bytes: the decoder's value and position, or an exception where it rejects; the stream goes bad exactly where the decoder runs out |
| `CppConverters.ReadOptionalU64` | bindings/cpp/controller.cpp:966-975 | on any bytes: the decoder's value and position, or an exception where it rejects; the stream goes bad exactly where the decoder runs out |
| `CppConverters.ReadOptionalString` | bindings/cpp/controller.cpp:1013-1022 | on any bytes: the decoder's value and position, or an exception where it rejects; the stream goes bad exactly where the decoder runs out |
| `CppConverters.WriteValue` | bindings/cpp/controller.cpp:690-693 | the same for every type |
| `CppConverters.ReadValue` | bindings/cpp/controller.cpp:683-688 | the same for every type |
| `CppConverters.Lower` | bindings/cpp/controller.cpp:674-681 | the buffer sized before writing ends up holding exactly the encoding, for every value but errors, which are cut to 4 bytes, unless the size wrapped at 2^64, when it holds that much of it |
| `CppConverters.ErrorNeverLifts` | bindings/cpp/controller.cpp:792-799 | what C++ lowers for an error lifts in neither Python nor C# and makes C++ run out of input: the message is missing |
| `CppConverters.LiftValue` | bindings/cpp/controller.cpp:665-672 | lifts the value in front, ignoring what follows; throws where the decoder rejects; frees the buffer exactly when it does not throw |
| `CppConverters.LooseIff` | bindings/cpp/controller.cpp:966-975 | C++ decodes as the others do except exactly for option flags above 1 |
| `Interchange.LiftsEverywhere` | bindings/cpp/controller.cpp:641-693 | an encoding lifts to its value under the strict decoder of Python and C# and the loose one of C++ |
| `Interchange.SupportsIff` | bindings/csharp/controller_uniffi.cs:1585-1626 | which types each binding converts |
| `Interchange.Send` | bindings/python/controller_uniffi.py:421-431 | a value lowered by any of the three bindings is lifted unchanged by any of them, with no buffer left over; an error from C++ is refused without a leak |
| `CSharpStream.BitOrBits` | bindings/csharp/controller_uniffi.cs:423-428 | each bit of the or is set exactly when it is set in either operand |
| `CSharpStream.BitOrDisjoint` | bindings/csharp/controller_uniffi.cs:420-430 | or-ing numbers without common bits adds them |
| `CSharpStream.ReadRound` | bindings/csharp/controller_uniffi.cs:423-428 | one round of the read loop prepends a digit; neither product nor weight wraps while needed |
| `CSharpStream.BigEndianStream.AsStream` | bindings/csharp/controller_uniffi.cs:57-65 | a reader over the payload |
| `CSharpStream.BigEndianStream.AsWriteableStream` | bindings/csharp/controller_uniffi.cs:67-80 | a writer over the whole capacity |
| `CSharpStream.BigEndianStream.HasRemaining` | bindings/csharp/controller_uniffi.cs:475-477 | whether anything is left to read |
| `CSharpStream.BigEndianStream.WriteBytes` | bindings/csharp/controller_uniffi.cs:484-490 | writes all or throws |
| `CSharpStream.BigEndianStream.WriteInt32` | bindings/csharp/controller_uniffi.cs:366-386 | the shift loop writes the low bytes in two's complement, most significant first |
| `CSharpStream.BigEndianStream.WriteInt64` | bindings/csharp/controller_uniffi.cs:388-409 | the same for 64 bits |
| `CSharpStream.BigEndianStream.ReadUint32` | bindings/csharp/controller_uniffi.cs:411-431 | the or-multiply loop reads the unsigned big-endian number of 1 to 4 bytes, in wrapping 32-bit arithmetic |
| `CSharpStream.BigEndianStream.ReadUInt64` | bindings/csharp/controller_uniffi.cs:433-454 | the same for 8 bytes in 64-bit arithmetic |
| `CSharpStream.BigEndianStream.ReadBytes` | bindings/csharp/controller_uniffi.cs:511-516 | takes bytes, or throws at the end or on a negative length |
| `CSharpStream.BigEndianStream.WriteInt` | bindings/csharp/controller_uniffi.cs:499 | signed 32 bits |
| `CSharpStream.BigEndianStream.WriteUInt` | bindings/csharp/controller_uniffi.cs:498 | unsigned 32 bits through a signed cast |
| `CSharpStream.BigEndianStream.WriteLong` | bindings/csharp/controller_uniffi.cs:502 | signed 64 bits |
| `CSharpStream.BigEndianStream.WriteULong` | bindings/csharp/controller_uniffi.cs:501 | unsigned 64 bits through a signed cast |
| `CSharpStream.BigEndianStream.ReadSByte` | bindings/csharp/controller_uniffi.cs:523 | signed 8 bits through an unsigned read |
| `CSharpStream.BigEndianStream.ReadShort` | bindings/csharp/controller_uniffi.cs:524 | signed 16 bits through an unsigned read |
| `CSharpStream.BigEndianStream.ReadInt` | bindings/csharp/controller_uniffi.cs:525 | signed 32 bits through an unsigned read |
| `CSharpStream.BigEndianStream.ReadLong` | bindings/csharp/controller_uniffi.cs:534 | signed 64 bits through an unsigned read |
| `CSharpConverters.Wrap32Means` | bindings/csharp/controller_uniffi.cs:1353-1358 | unchecked sums are the int congruent to the true sum modulo 2^32 |
| `CSharpConverters.CheckedSum` | bindings/csharp/controller_uniffi.cs:1610-1612 | a checked sum of wrapped sizes is exact modulo 2^32, or overflows only if the true sum is too large |
| `CSharpConverters.AllocationSizeString` | bindings/csharp/controller_uniffi.cs:1167-1171 | the encoding's size in 32-bit arithmetic, or a throw when the byte count is no int |
| `CSharpConverters.AllocationSizeFields` | bindings/csharp/controller_uniffi.cs:1602-1613 | the same with a checked sum over the items; 4 for null, as for an empty array |
| `CSharpConverters.AllocationSizeCall` | bindings/csharp/controller_uniffi.cs:1353-1358 | the same for Call |
| `CSharpConverters.AllocationSizeError` | bindings/csharp/controller_uniffi.cs:1511-1544 | the same for errors, message included |
| `CSharpConverters.WriteString` | bindings/csharp/controller_uniffi.cs:1173-1177 | appends exactly the encoding, or throws exactly when there is none or no room for it |
| `CSharpConverters.ReadString` | bindings/csharp/controller_uniffi.cs:1150-1154 | on any bytes: the decoder's value and position, or a throw where it rejects |
| `CSharpConverters.WriteFields` | bindings/csharp/controller_uniffi.cs:1615-1625 | appends exactly the encoding, or throws exactly when there is none or no room for it; null as an empty array |
| `CSharpConverters.ReadFields` | bindings/csharp/controller_uniffi.cs:1588-1600 | on any bytes: the decoder's value and position, or a throw where it rejects |
| `CSharpConverters.WriteCall` | bindings/csharp/controller_uniffi.cs:1360-1364 | appends exactly the encoding, or throws exactly when there is none or no room for it |
| `CSharpConverters.ReadCall` | bindings/csharp/controller_uniffi.cs:1345-1351 | on any bytes: the decoder's value and position, or a throw where it rejects |
| `CSharpConverters.WriteError` | bindings/csharp/controller_uniffi.cs:1546-1579 | appends exactly the encoding, or throws exactly when there is none or no room for it |
| `CSharpConverters.ReadError` | bindings/csharp/controller_uniffi.cs:1482-1509 | on any bytes: the decoder's value and position, or a throw where it rejects |
| `CSharpConverters.FitsIsOk` | bindings/csharp/controller_uniffi.cs:1353-1358 | a value whose encoding fits an int has only encodable lengths in it |
| `CSharpConverters.LowerIntoRustBuffer` | bindings/csharp/controller_uniffi.cs:129-140 | every value whose encoding fits an int is lowered; no value is ever lowered incompletely; on a throw the buffer has been freed |
| `CSharpConverters.LiftFromRustBuffer` | bindings/csharp/controller_uniffi.cs:146-157 | lifts exactly the encodings, rejects junk, frees the buffer once on every path |
| `CSharpConverters.LowerString` | bindings/csharp/controller_uniffi.cs:1156-1161 | a lone string is its bytes, its length being the allocated one |
| `HandleMap.UniffiHandleMap.constructor` | bindings/python/controller_uniffi.py:346-350 | agrees with the empty log |
| `HandleMap.UniffiHandleMap.Insert` | bindings/python/controller_uniffi.py:352-361 | issues the handle the log issues, one that is not in use, and keeps agreeing with the log |
| `HandleMap.UniffiHandleMap.Get` | bindings/python/controller_uniffi.py:363-368 | the object the log has, or an invalid handle; nothing changes |
| `HandleMap.UniffiHandleMap.Clone` | bindings/python/controller_uniffi.py:370-376 | the log's new handle for the same object, or an invalid handle |
| `HandleMap.UniffiHandleMap.Remove` | bindings/python/controller_uniffi.py:378-383 | gives the object back and takes the handle out of the log, or an invalid handle |
| `HandleMap.StepRefines` | bindings/python/controller_uniffi.py:352-383 | each operation replies and changes as the log of everything issued and returned does |
| `HandleMap.RunRefines` | bindings/python/controller_uniffi.py:341-386 | so does every run; the size is issued minus returned |
| `HandleMap.HandlesNeverReissued` | bindings/python/controller_uniffi.py:336-361 | the i-th handle of any run is 1 + 2i: odd, distinct, never reissued after removal |
| `HandleMap.PartialMap` | bindings/python/controller_uniffi.py:352-383 | in every reachable map: an inserted object is found under its new handle, a removed one is given back and gone, other handles are unaffected, and the size moves by one |
| `HandleMap.CloneIsIndependent` | bindings/python/controller_uniffi.py:370-376 | a clone and its source give the same object and survive each other's removal |
| `HexOrder.CompareEqual` | src/types.rs:91-98 | string comparison is Equal exactly on equal strings |
| `HexOrder.CompareLess` | src/types.rs:91-98 | string comparison is Less exactly for a proper prefix or a smaller byte at the first difference |
| `HexOrder.CompareFlip` | src/types.rs:91-98 | string comparison is antisymmetric |
| `HexOrder.CompareTransitive` | src/types.rs:91-98 | string comparison is transitive |
| `HexOrder.HexCompare` | src/types.rs:83-92 | fixed-width lower-case hexadecimal texts come before one another exactly as the smaller number does |
| `HexOrder.FeltFits` | src/types.rs:83 | every field element fits 64 hexadecimal digits |
| `HexOrder.TextOrderIsNumericOrder` | src/types.rs:83-92 | one padded address text comes before another exactly when the address is smaller |
| `HexOrder.FormatHexIff` | src/types.rs:83 | a formatted address is 0x and 64 lower-case digits that denote it, and there is no other such text |
| `HexOrder.Lower` | src/types.rs:94-96 | A-Z are raised by 32 and every other byte is kept |
| `HexOrder.PrimeValue` | src/types.rs:83 | the bound on addresses is 2^251 + 17 * 2^192 + 1 |
| `HexOrder.FromHexIff` | src/types.rs:78 | text after 0x is accepted exactly if it is digits of either case denoting a number below that bound, and denotes that number |
| `HexOrder.FromHexOfFormat` | src/types.rs:78-83 | a formatted address parses back to itself |
| `HexOrder.SpellingIrrelevant` | src/types.rs:78 | case and leading zeros of an address do not matter |
| `HexOrder.PrefixOptional` | src/types.rs:78 | neither does a missing 0x |
| `Policies.EntryCompareNumeric` | src/types.rs:90-99 | the comparator is Less exactly for a smaller address, or the same address and an entrypoint that comes first with A-Z as a-z, or the same letters and an entrypoint that comes first in bytes |
| `Policies.EntryCompareEqual` | src/types.rs:90-99 | the comparator returns Equal only for identical entries |
| `Policies.EntryCompareFlip` | src/types.rs:90-99 | the comparator is antisymmetric |
| `Policies.EntryCompareTransitive` | src/types.rs:90-99 | the comparator is transitive |
| `Policies.SortSorted` | src/types.rs:90 | the reference sort yields a sorted list |
| `Policies.Sort` | src/types.rs:90 | and a permutation of its input |
| `Policies.SortedUnique` | src/types.rs:90-99 | there is exactly one sorted arrangement, so neither the algorithm nor its stability matters |
| `Policies.ParseAllIff` | src/types.rs:74-87 | canonicalisation fails exactly when some address does not parse |
| `Policies.Multiplicity` | src/types.rs:74-87 | each address and entrypoint occurs among the entries as often as in the input |
| `Policies.CanonicalForm` | src/types.rs:71-102 | the result ascends by address, then by entrypoint ignoring case, then by bytes; spells each address; is complete and keeps multiplicities; or an address did not parse |
| `Policies.CanonicalIff` | src/types.rs:71-102 | two inputs have one canonical form if and only if they mean the same policies equally often |
| `Policies.DependsOnMeanings` | src/types.rs:71-102 | the meanings also decide whether there is a canonical form |
| `Policies.MeaningsOfPermutation` | src/types.rs:71-102 | reordered policies mean the same policies equally often |
| `Policies.PermutationInvariant` | src/types.rs:71-102 | reordering the input and then respelling its addresses changes nothing, not even acceptance |
| `Policies.TryIntoSdkPolicies` | src/types.rs:107-119 | the loop yields one SDK policy per canonical policy, or fails at the first entrypoint without a selector |
| `Policies.SelectAllIff` | src/types.rs:107-119 | it fails exactly when a selector is missing; otherwise position i carries entry i's address and selector |
| `Policies.SignedMatchesRegistered` | src/session.rs:46-53 | registered and signed lists agree position by position for any two inputs with the same meanings: each target is 0x and 64 lower-case digits denoting the signed address, and addresses ascend |
| `Policies.Idempotent` | src/session.rs:46-53 | canonicalising what was registered changes nothing |
| `Policies.IdempotentForHex` | src/session.rs:46-53 | in particular with the hexadecimal parser |

## Left out

- SDK calls, GraphQL subscription, the HTTP shortener, the runtime, storage, signing and key derivation: foreign code or I/O.
- URL parsing, percent-encoding and JSON: library code; the model stops at the list of policy payloads.
- UTF-8: all bindings delegate it to a library, so strings are bytes and decoding them cannot fail here.
- Error messages and exception classes: an error is its kind; C# and C++ raise other classes in the same cases.
- Failure of the foreign allocator, and its null-pointer check in C#.
- `check_lower` in Python: type checks before writing; only its range checks overlap with `PackInto`.
- `Felt::from_hex` belongs to a library that is not part of the repository. `Policies` holds for every parser; `HexOrder.FromHex` is a plain hexadecimal parser, used where a spelling matters.
- `get_selector_from_name` is a parameter, partial and arbitrary.
- The sorting algorithm behind `sort_by` is library code; `Policies.Sort` is a reference, and `SortedUnique` shows that any other algorithm gives the same list.
- `TryFrom<&Call>`: three conversions in a row, which would add only easy members.
- `shortener_endpoint`, URL validation, `last_error` bookkeeping and the getters: easy members.
- CSharpConverters.LowerIntoRustBuffer: for encodings larger than an int it states only that nothing is lost or leaked, because whether such a value is lowered depends on the capacity the allocator happens to return.
- CppConverters.LiftValue: leaves open what is lifted or thrown from a buffer that ends too early, because the source reads an uninitialised integer then.
- CSharpConverters.ReadFields: running out of memory on a huge count is not modelled, here or in any other reader.
- A null `calldata` inside a C# `Call`: null arrays are modelled where they are handled, in the array's own converter.
- C++ lowers and lifts a lone string through the allocator's copy; not modelled.
- Booleans, floats, object pointers inside buffers, and the C++ handle map, which no converter of the binding uses.
- The finalizer is a thread that runs `Destroy`; that `Dispose` suppresses it is not needed and not modelled.
- Exceptions thrown by `FreeRustArcPtr` itself.
- Memory ordering: every shared access in the source is interlocked, and the model is sequentially consistent.
- The Swift, Kotlin, TypeScript and C bindings.
