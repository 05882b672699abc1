# verifycxx in Dafny

verifycxx wraps a value of type `Type` in a tamper-evident container. The
container holds three things:

- a 64-bit header: a magic word, a 16-bit size and a 16-bit cookie taken
  from the container's own address;
- the payload: the `sizeof(Type)` bytes of the wrapped object;
- a stored 64-bit checksum over the header bytes and the payload bytes.

`verify()` recomputes the checksum and compares it with the stored one.
Writes made through a `modify_guard` refresh the stored checksum when the
guard is destroyed. A write that bypasses the guard and changes one byte
leaves a checksum that no longer matches; changes to several bytes can
cancel.

This project models the container and proves what its code promises. The
model has four modules:

- `Bits` (bits.dfy): the fixed-width unsigned integers as bounded integers,
  bitwise XOR, and uint64_t wrap-around.
- `HeaderEncoding` (header.dfy): `verifycxx_header`. The model fixes a
  little-endian layout: magic in bytes 0-3, size in bytes 4-5, cookie in
  bytes 6-7.
- `ChecksumEngine` (checksum.dfy): `gen_checksum` and its `process`
  lambda, in the form the GCC/Clang x86 build compiles. That is an SSE2
  loop over 16-byte chunks followed by a scalar loop over the rest.
  - `BufferSum` is the specification: one term per byte, no wrap-around.
  - The methods `SumChunks` and `Process` follow the C++ loops. Each is
    proved to compute that specification modulo 2^64.
- `Container` (container.dfy): the class `verifycxx<Type>`, whose payload is
  a fixed-length byte array written in place, and its `modify_guard`.
  - The guard is an explicit protocol: `Modify` opens it, `Assign` and
    `WriteAt` write the live payload, and `Close` (the destructor)
    refreshes the checksum once.
  - `Tamper` is a write that bypasses the guard, as the `const_cast` write
    through `get()` in the unit tests does.
  - Eight tests of `verifycxx/metrics/unit_test.h` are scenario methods:
    ChecksumGenerate, Verify, BoolConversion and DetectTampering, on a
    4-byte little-endian `int`; CustomStruct and ModifyGuardArrow, on an
    8-byte struct of two ints; ModifyGuardDereference and
    ModifyUpdatesChecksum, on an `int`. The other five tests (Array,
    ArrayIndexing, String, C_String, Vector) exercise only the forwarding
    operators listed under "Left out".

What the code does, stated as the model proves it:

- **No mixing step.** `gen_checksum` returns the raw salted sum; nothing
  is applied to it before `return sum` (verifycxx.h:138).
- **Tail and vector terms differ on x86.** The scalar tail computes
  `ptr[i] ^ cookie` with both operands promoted to int (verifycxx.h:132), so
  only the cookie's low byte meets the data byte and its high byte passes
  into the sum (`TailTerm`).
  - In the SSE loop the cookie is broadcast as 16-bit lanes
    (verifycxx.h:111, 114). A byte at an even offset meets the cookie's
    low byte, and a byte at an odd offset meets its high byte.
  - The NEON branch widens each byte before the XOR, so there every byte
    follows the tail rule.
  - The checksum of a payload of 16 bytes or more can therefore differ
    between an x86 and an ARM build. Each build's `verify` stays consistent
    with itself.
- **The header always goes through the scalar tail.** It is 8 bytes,
  shorter than one chunk.
- **Only a change to a single byte is guaranteed to be detected.**
  - A change to any single byte always changes the checksum
    (`SingleByteChangeDetected`).
  - Swapping the bytes at two positions that use the same rule never
    changes it (`SwapNotDetected`); the payloads [0, 1] and [1, 0] are one
    example (`SwappedBytesNotDetected`).
- **No lock, no inline storage, no move operations.** The code has no
  lock, always allocates the payload with `new` (verifycxx.h:60, 63), and
  defines no move operations. Its implicit copy constructor would copy the
  `data` pointer.

## Model

| member | source | states |
|---|---|---|
| HeaderEncoding.MakeHeader | verifycxx/include/verifycxx.h:22-26 | the constructed header carries the magic 0x5644482F, the size truncated to 16 bits (unchanged below 65536) and the address's low 16 bits as cookie, and is valid |
| HeaderEncoding.IsValid | verifycxx/include/verifycxx.h:37 | definition of `is_valid`: the magic field equals 0x5644482F and nothing else is read; its properties are IsValidBytes and IsValidIgnoresSizeAndCookie |
| HeaderEncoding.Encode | verifycxx/include/verifycxx.h:28-35 | the header occupies exactly 8 bytes |
| HeaderEncoding.DecodeEncode | verifycxx/include/verifycxx.h:28-35 | reading the 8 bytes back gives the same magic, size and cookie |
| HeaderEncoding.EncodeDecode | verifycxx/include/verifycxx.h:28-35 | every 8-byte pattern is the encoding of the header it decodes to, so the bit-field view and the byte view are in one-to-one correspondence |
| HeaderEncoding.EncodeIsLittleEndian | verifycxx/include/verifycxx.h:28-35 | the 8 bytes read as a little-endian word equal the union's `uint64_t header` member |
| HeaderEncoding.Word | verifycxx/include/verifycxx.h:28-35 | the union's `uint64_t header` holds magic in its low 32 bits, size in the next 16 and cookie in the top 16, and each field can be read back from the word |
| HeaderEncoding.IsValidBytes | verifycxx/include/verifycxx.h:37 | a header is valid exactly when its first four bytes are 2F 48 44 56 |
| HeaderEncoding.IsValidIgnoresSizeAndCookie | verifycxx/include/verifycxx.h:37 | changing size or cookie never changes `is_valid` |
| ChecksumEngine.VectorEnd | verifycxx/include/verifycxx.h:112 | the vector loop stops at a multiple of 16 that lies within 16 bytes of the end of the buffer |
| ChecksumEngine.VectorEndUnique | verifycxx/include/verifycxx.h:112 | that stopping point is ⌊n/16⌋·16 and no other index |
| ChecksumEngine.BroadcastCookie | verifycxx/include/verifycxx.h:111 | the broadcast register has 16 bytes |
| ChecksumEngine.BroadcastLanes | verifycxx/include/verifycxx.h:111 | every 16-bit lane of the broadcast register reassembles the cookie |
| ChecksumEngine.XorBytes | verifycxx/include/verifycxx.h:114 | `_mm_xor_si128` keeps the register width |
| ChecksumEngine.XorBytesInvolution | verifycxx/include/verifycxx.h:114 | XORing with the cookie register twice restores the data, so the XOR loses nothing |
| ChecksumEngine.Sad | verifycxx/include/verifycxx.h:114 | one lane of `_mm_sad_epu8` against zero is at most 255 per byte |
| ChecksumEngine.VectorTerm | verifycxx/include/verifycxx.h:111-114 | what a byte at a given register offset adds in the SSE loop: the XOR with the cookie byte of that lane half, below 256 |
| ChecksumEngine.TailTerm | verifycxx/include/verifycxx.h:132 | `ptr[i] ^ cookie` equals the even-offset vector term plus 256 times the cookie's high byte: only the low byte meets the data, the high byte passes into the sum |
| ChecksumEngine.Contribution | verifycxx/include/verifycxx.h:110-132 | a byte's term is below 2^16, and below 2^8 inside the vector range |
| ChecksumEngine.ContributionInjective | verifycxx/include/verifycxx.h:110-132 | at a fixed position, different bytes always give different terms |
| ChecksumEngine.PrefixSum | verifycxx/include/verifycxx.h:96-133 | k bytes add at most 65535·k before wrap-around |
| ChecksumEngine.BufferSum | verifycxx/include/verifycxx.h:96-133 | what one `process` call adds before wrap-around, at most 65535 per byte; Process is proved to add exactly this modulo 2^64 |
| ChecksumEngine.ChecksumOf | verifycxx/include/verifycxx.h:92-139 | definition of the value of `gen_checksum`: header sum plus payload sum with the header's cookie, modulo 2^64, no mixing; GenChecksum is proved to compute it |
| ChecksumEngine.ChunkByte | verifycxx/include/verifycxx.h:113-114 | byte k of an XORed chunk is the specified term of the buffer's byte at i+k |
| ChecksumEngine.ChunkPrefix | verifycxx/include/verifycxx.h:113-114 | summing the first m bytes of an XORed chunk gives the terms of the first m bytes of that chunk |
| ChecksumEngine.ChunkStep | verifycxx/include/verifycxx.h:112-115 | one loop iteration's two SAD lanes add exactly the 16 terms of that chunk |
| ChecksumEngine.LaneStep | verifycxx/include/verifycxx.h:114 | lanes that wrap on their own (`_mm_add_epi64`) still add up modulo 2^64 to the consumed terms |
| ChecksumEngine.AccStep | verifycxx/include/verifycxx.h:116-118 | the horizontal add `sum += temp[0] + temp[1]` adds the lanes' total to the accumulator modulo 2^64 |
| ChecksumEngine.TailStep | verifycxx/include/verifycxx.h:132 | one scalar step adds its term to the accumulator modulo 2^64 |
| ChecksumEngine.SumChunks | verifycxx/include/verifycxx.h:110-115 | the SSE loop stops at exactly ⌊n/16⌋·16, and its two lanes add up modulo 2^64 to the terms of the bytes it consumed |
| ChecksumEngine.Process | verifycxx/include/verifycxx.h:96-133 | `process` adds the buffer's specified per-byte sum to `sum`, modulo 2^64 |
| ChecksumEngine.TailBytesUseScalarRule | verifycxx/include/verifycxx.h:132 | every byte from ⌊n/16⌋·16 on contributes `b ^ cookie` with the full 16-bit cookie |
| ChecksumEngine.HeaderUsesScalarRule | verifycxx/include/verifycxx.h:135 | all 8 header bytes contribute by the scalar rule |
| ChecksumEngine.PrefixSumUpdate | verifycxx/include/verifycxx.h:132 | overwriting one byte changes the sum by exactly the difference of its two terms, and leaves the sum of the bytes before it alone |
| ChecksumEngine.SingleByteChangeDetected | verifycxx/include/verifycxx.h:92-138 | changing any single payload byte always changes the checksum, for every header |
| ChecksumEngine.SameRuleSameTerm | verifycxx/include/verifycxx.h:110-132 | two positions both in the tail, or both in the vector range with the same parity, give every byte the same term |
| ChecksumEngine.SwapNotDetected | verifycxx/include/verifycxx.h:110-132 | swapping the bytes at any two such positions leaves the checksum unchanged under every header, so changes to several bytes can cancel |
| ChecksumEngine.SwappedBytesNotDetected | verifycxx/include/verifycxx.h:132 | for example the payloads [0, 1] and [1, 0] have the same checksum under every header |
| ChecksumEngine.MagicTermsPositive | verifycxx/include/verifycxx.h:132 | the magic bytes 0x2F and 0x48 cannot both equal the cookie, so their terms are not both zero |
| ChecksumEngine.HeaderSumPositive | verifycxx/include/verifycxx.h:135 | a valid header alone contributes a positive sum |
| ChecksumEngine.ChecksumNonZero | verifycxx/include/verifycxx.h:92-138 | with a valid header the checksum is never zero (payloads below 2^48 bytes) |
| ChecksumEngine.IntTamperDetected | verifycxx/metrics/unit_test.h:26-32 | overwriting the int 100 with 999, which changes two bytes, changes the checksum under every cookie |
| ChecksumEngine.TamperTermsDiffer | verifycxx/metrics/unit_test.h:30 | the two changed bytes' terms differ by 2 modulo 4 for every cookie |
| Container.Verifycxx.constructor | verifycxx/include/verifycxx.h:57-66 | the header is built from sizeof(Type) and the address, the payload holds the initial value, the stored checksum is that of header and payload, and the container is valid and intact |
| Container.Verifycxx.GenChecksum | verifycxx/include/verifycxx.h:92-139 | the computed value is the specified checksum of the header bytes followed by the payload bytes, with no mixing step |
| Container.Verifycxx.UpdateChecksum | verifycxx/include/verifycxx.h:140 | the stored checksum becomes that of the current contents; the refresh count rises by one |
| Container.Verifycxx.Verify | verifycxx/include/verifycxx.h:72 | true exactly when the stored checksum equals the checksum of the current contents; nothing changes |
| Container.Verifycxx.GetChecksum | verifycxx/include/verifycxx.h:74 | while the contents are intact the stored value is their checksum; nothing changes |
| Container.Verifycxx.Get | verifycxx/include/verifycxx.h:70 | the read view is the live payload, byte for byte |
| Container.Verifycxx.Modify | verifycxx/include/verifycxx.h:71 | a new open guard bound to this container |
| Container.Verifycxx.Tamper | verifycxx/metrics/unit_test.h:30 | an unguarded write changes exactly one byte and no checksum; if the container was intact and the byte changed, it is no longer intact |
| Container.ModifyGuard.constructor | verifycxx/include/verifycxx.h:44-46 | the guard is bound to its parent and open |
| Container.ModifyGuard.Assign | verifycxx/include/verifycxx.h:51 | `operator=` replaces the whole live payload with the new value |
| Container.ModifyGuard.WriteAt | verifycxx/include/verifycxx.h:49-50 | a write through `*` or `->` changes exactly one byte of the live payload |
| Container.ModifyGuard.Close | verifycxx/include/verifycxx.h:48 | the destructor refreshes the checksum exactly once and leaves the payload alone, so the parent is intact again |
| Container.StoredChecksumNonZero | verifycxx/include/verifycxx.h:74 | `get_checksum` is non-zero for every valid, intact container whose payload is below 2^48 bytes |
| Container.ChecksumGenerateScenario | verifycxx/metrics/unit_test.h:7-11 | a fresh container of the int 100 has a non-zero checksum, whatever its address |
| Container.VerifyScenario | verifycxx/metrics/unit_test.h:12-18 | verify is true after construction and after a guarded assignment |
| Container.BoolConversionScenario | verifycxx/metrics/unit_test.h:20-24 | `operator bool`, which returns `verify()`, is true on a fresh container |
| Container.CustomStructScenario | verifycxx/metrics/unit_test.h:61-68 | the struct {100, 50} reads health 100 through get() and verifies |
| Container.DetectTamperingScenario | verifycxx/metrics/unit_test.h:26-32 | verify is true after construction and false after 100 is overwritten with 999 outside the guard |
| Container.ModifyGuardArrowScenario | verifycxx/metrics/unit_test.h:70-80 | a field written through the open guard reads back as the new value at once |
| Container.ModifyGuardDereferenceScenario | verifycxx/metrics/unit_test.h:82-88 | `*guard = 100` is visible through get() while the guard is still open |
| Container.ModifyUpdatesChecksumScenario | verifycxx/metrics/unit_test.h:90-99 | a guarded assignment of 200 to the int 100 changes the stored checksum, and verify stays true |
| Container.RepeatedQueries | verifycxx/include/verifycxx.h:72-74 | asking verify and get_checksum twice gives the same answers, and verify agrees with the intact state |

## Left out

- The NEON branch (verifycxx.h:99-107) and the AVX2 `#else` branch (verifycxx.h:121-129): only the GCC/Clang SSE2 branch is modelled, by the byte-level meaning of its intrinsics, not by register types.
- Addresses and `reinterpret_cast`: the cookie's source address is a constructor parameter; header and payload are explicit byte sequences.
- The bit-field layout is implementation-defined; the model fixes the little-endian layout.
- The payload is the object representation of `Type` as `sizeof(Type)` bytes. For `std::string` or `const char*` those are the object's or the pointer's bytes, not the characters; constructing `Type` from the arguments (brace vs. paren initialisation) is not modelled.
- Heap ownership (`new` in the constructor, `delete` in the destructor, verifycxx.h:60-68): the payload is an array owned by the model object.
- Copy and move: the code defines no move operations, and the implicit copy would share `data` between two containers.
- Locks and concurrency: the code contains none.
- `operator bool` (verifycxx.h:76) is not a separate member: it returns `verify()`, which is modelled by `Verify`, and the BoolConversion test is `BoolConversionScenario`.
- `operator Type`, `operator const char*`, `operator[]`, `begin` and `end` (verifycxx.h:77-89): thin forwards to the payload's own operations on standard-library types, so the Array, ArrayIndexing, String, C_String and Vector tests are not modelled.
- The harness files `verifycxx/metrics/benchmark.h` (timing) and `verifycxx/quick_test.cpp` (console output and sleeps); `verifycxx/metrics/unit_test.h` appears only through the scenario methods.
- StoredChecksumNonZero: like ChecksumNonZero, only for payloads below 2^48 bytes.
- ChecksumNonZero: proved only for payloads below 2^48 bytes, the x86-64 address space. Past that, the proof's bound of 65535 per byte no longer keeps the sum below 2^64.
- The guard's protocol is enforced by preconditions (`open`), not by C++ scope: a guard that is never closed may leave the container not intact, as a leaked guard would.
