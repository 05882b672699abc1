/**
 * The checksum engine of verifycxx (gen_checksum and its `process` lambda),
 * in the form the GCC/Clang x86 build compiles: an SSE2 loop over 16-byte
 * chunks followed by a scalar loop over the remaining bytes.
 *
 * Every byte is XORed with the 16-bit cookie and the results are summed
 * into a uint64_t; there is no finalising mix step. Inside a 16-byte chunk
 * the cookie is broadcast as eight 16-bit lanes, so a byte at an even
 * offset meets the cookie's low byte and a byte at an odd offset its high
 * byte; in the scalar tail the byte is promoted to int and XORed with the whole
 * cookie, so the cookie's high byte passes through into the sum.
 *
 * BufferSum is the specification, one term per byte, without wrap-around;
 * the methods SumChunks and Process follow the C++ loops and are
 * proved to compute it modulo 2^64.
 */
module ChecksumEngine {
  import opened Bits
  import opened HeaderEncoding

  /** Width in bytes of an SSE register (__m128i). */
  const CHUNK: nat := 16

  /** Payloads below this size (the 48-bit x86-64 address space) cannot make the sum wrap. */
  const MAX_PAYLOAD: nat := 0x1_0000_0000_0000

  /** Where the loop `for (; i + 16 <= size; i += 16)` stops: the largest multiple of 16 not above n. */
  function VectorEnd(n: nat): (e: nat)
    ensures e % CHUNK == 0 && e <= n < e + CHUNK
  {
    n / CHUNK * CHUNK
  }

  /** ⌊n/16⌋·16 is the only multiple of 16 in (n - 16, n]. */
  lemma VectorEndUnique(n: nat, e: nat)
    requires e % CHUNK == 0 && e <= n < e + CHUNK
    ensures e == VectorEnd(n)
  {
  }

  lemma NextChunk(i: nat)
    requires i % CHUNK == 0
    ensures (i + CHUNK) % CHUNK == 0
  {
  }

  /** Byte k of the register _mm_set1_epi16(cookie): each 16-bit lane holds the cookie little-endian. */
  function CookieByte(cookie: u16, k: nat): byte {
    if k % 2 == 0 then cookie % 0x100 else cookie / 0x100
  }

  /** The 16 bytes of _mm_set1_epi16(cookie). */
  function BroadcastCookie(cookie: u16): (r: seq<byte>)
    ensures |r| == CHUNK
  {
    seq(CHUNK, k requires 0 <= k < CHUNK => CookieByte(cookie, k))
  }

  /** Each of the eight 16-bit lanes of the broadcast register reassembles the cookie. */
  lemma BroadcastLanes(cookie: u16, j: nat)
    requires j < CHUNK / 2
    ensures var r := BroadcastCookie(cookie); Join16(r[2 * j], r[2 * j + 1]) == cookie
  {
  }

  /** _mm_xor_si128, byte by byte. */
  function XorBytes(a: seq<byte>, b: seq<byte>): (r: seq<byte>)
    requires |a| == |b|
    ensures |r| == |a|
  {
    seq(|a|, k requires 0 <= k < |a| => XorByte(a[k], b[k]))
  }

  /** XORing twice with the same mask gives the data back: the XOR step loses no information. */
  lemma XorBytesInvolution(a: seq<byte>, b: seq<byte>)
    requires |a| == |b|
    ensures XorBytes(XorBytes(a, b), b) == a
  {
    var r := XorBytes(XorBytes(a, b), b);
    forall k | 0 <= k < |a|
      ensures r[k] == a[k]
    {
      XorInvolution(a[k], b[k]);
    }
  }

  /** One 64-bit lane of _mm_sad_epu8(x, 0): the sum of |x[k] - 0| over its bytes. */
  function Sad(x: seq<byte>): (r: nat)
    ensures r <= 0xFF * |x|
  {
    if |x| == 0 then 0 else Sad(x[..|x| - 1]) + x[|x| - 1]
  }

  lemma {:induction false} SadAppend(a: seq<byte>, b: seq<byte>)
    ensures Sad(a + b) == Sad(a) + Sad(b)
  {
    if |b| > 0 {
      var ab, b' := a + b, b[..|b| - 1];
      assert ab[..|ab| - 1] == a + b';
      assert ab[|ab| - 1] == b[|b| - 1];
      SadAppend(a, b');
    } else {
      assert a + b == a;
    }
  }

  /** What byte b at register offset `offset` adds in the SSE loop. */
  function VectorTerm(b: byte, cookie: u16, offset: nat): (r: nat)
    ensures r < 0x100
  {
    XorOfBytes(b, CookieByte(cookie, offset));
    Xor(b, CookieByte(cookie, offset))
  }

  /**
   * What byte b adds in the scalar tail: `ptr[i] ^ cookie` with both
   * operands promoted to int. Only the cookie's low byte meets b; its
   * high byte passes into the sum unchanged, so the term is the
   * even-offset vector term plus 256 times the cookie's high byte.
   */
  function TailTerm(b: byte, cookie: u16): (r: nat)
    ensures r == VectorTerm(b, cookie, 0) + 0x100 * (cookie / 0x100)
  {
    assert Pow2(8) == 0x100;
    XorHigh(b, cookie, 8);
    Xor(b, cookie)
  }

  /** The term that byte b at index i of an n-byte buffer adds to the sum. */
  function Contribution(n: nat, i: nat, b: byte, cookie: u16): (r: nat)
    ensures r < 0x1_0000
    ensures i < VectorEnd(n) ==> r < 0x100
  {
    if i < VectorEnd(n) then
      VectorTerm(b, cookie, i % CHUNK)
    else
      XorOfWords(b, cookie);
      TailTerm(b, cookie)
  }

  /** For a fixed position, different bytes always give different terms. */
  lemma ContributionInjective(n: nat, i: nat, b: byte, b': byte, cookie: u16)
    requires b != b'
    ensures Contribution(n, i, b, cookie) != Contribution(n, i, b', cookie)
  {
    if i < VectorEnd(n) {
      XorInjective(b, b', CookieByte(cookie, i % CHUNK));
    } else {
      XorInjective(b, b', cookie);
    }
  }

  /** The terms of the first k bytes of s, summed without wrap-around. */
  function PrefixSum(s: seq<byte>, cookie: u16, k: nat): (r: nat)
    requires k <= |s|
    ensures r <= 0xFFFF * k
  {
    if k == 0 then 0 else PrefixSum(s, cookie, k - 1) + Contribution(|s|, k - 1, s[k - 1], cookie)
  }

  /** What one call of `process` on the buffer s adds to sum, before reduction modulo 2^64. */
  function BufferSum(s: seq<byte>, cookie: u16): (r: nat)
    ensures r <= 0xFFFF * |s|
  {
    PrefixSum(s, cookie, |s|)
  }

  /**
   * gen_checksum: the header bytes and then the payload bytes are
   * processed into one uint64_t with the header's cookie; nothing is mixed
   * in afterwards.
   */
  function ChecksumOf(h: Header, payload: seq<byte>): u64 {
    Wrap(BufferSum(Encode(h), h.cookie) + BufferSum(payload, h.cookie))
  }

  // ---------------------------------------------------------------------
  // The SSE loop agrees with the per-byte specification

  /** Byte k of an XORed chunk is the term of the byte at i + k. */
  lemma ChunkByte(s: seq<byte>, cookie: u16, i: nat, k: nat)
    requires i % CHUNK == 0 && i + CHUNK <= |s| && k < CHUNK
    ensures XorBytes(s[i..i + CHUNK], BroadcastCookie(cookie))[k] == Contribution(|s|, i + k, s[i + k], cookie)
  {
    assert i + k < VectorEnd(|s|) && (i + k) % CHUNK == k;
  }

  /** The first m bytes of an XORed chunk sum to the terms of the first m bytes of that chunk. */
  lemma {:induction false} ChunkPrefix(s: seq<byte>, cookie: u16, i: nat, m: nat)
    requires i % CHUNK == 0 && i + CHUNK <= |s| && m <= CHUNK
    ensures PrefixSum(s, cookie, i + m)
      == PrefixSum(s, cookie, i) + Sad(XorBytes(s[i..i + CHUNK], BroadcastCookie(cookie))[..m])
  {
    var x := XorBytes(s[i..i + CHUNK], BroadcastCookie(cookie));
    if m > 0 {
      ChunkPrefix(s, cookie, i, m - 1);
      assert x[..m][..m - 1] == x[..m - 1];
      ChunkByte(s, cookie, i, m - 1);
    }
  }

  /** One iteration of the SSE loop: its two lane sums cover exactly the chunk's 16 terms. */
  lemma ChunkStep(s: seq<byte>, cookie: u16, i: nat)
    requires i % CHUNK == 0 && i + CHUNK <= |s|
    ensures var x := XorBytes(s[i..i + CHUNK], BroadcastCookie(cookie));
      PrefixSum(s, cookie, i + CHUNK) == PrefixSum(s, cookie, i) + Sad(x[..8]) + Sad(x[8..])
  {
    var x := XorBytes(s[i..i + CHUNK], BroadcastCookie(cookie));
    ChunkPrefix(s, cookie, i, CHUNK);
    assert x[..CHUNK] == x[..8] + x[8..];
    SadAppend(x[..8], x[8..]);
  }

  /** Adding one chunk's lane sums to the two lanes, each reduced on its own, adds them to the total. */
  lemma LaneStep(lane0: int, lane1: int, low: int, high: int, total: int)
    requires Wrap(lane0 + lane1) == Wrap(total)
    ensures Wrap(Wrap(lane0 + low) + Wrap(lane1 + high)) == Wrap(total + low + high)
  {
    WrapAddBoth(lane0 + low, lane1 + high);
    WrapAdd(lane0 + lane1, low + high);
    WrapAdd(total, low + high);
  }

  /** The horizontal add `sum += temp[0] + temp[1]`. */
  lemma AccStep(acc: int, lanes: int, total: int)
    requires Wrap(lanes) == Wrap(total)
    ensures Wrap(acc + Wrap(lanes)) == Wrap(acc + total)
  {
    WrapAdd(lanes, acc);
    WrapAdd(total, acc);
  }

  /** One scalar step `sum += t`. */
  lemma TailStep(sum: int, acc: int, total: int, t: int)
    requires sum == Wrap(acc + total)
    ensures Wrap(sum + t) == Wrap(acc + (total + t))
  {
    WrapAdd(acc + total, t);
  }

  /**
   * The SSE loop of the GCC/Clang branch. It stops exactly at ⌊n/16⌋·16,
   * and its two 64-bit lanes, each wrapping on its own, add up modulo 2^64
   * to the terms of the bytes it has consumed.
   */
  method SumChunks(buf: seq<byte>, cookie: u16) returns (i: nat, lane0: u64, lane1: u64)
    ensures i == VectorEnd(|buf|)
    ensures Wrap(lane0 + lane1) == Wrap(PrefixSum(buf, cookie, i))
  {
    var mask := BroadcastCookie(cookie);
    i, lane0, lane1 := 0, 0, 0;
    while i + CHUNK <= |buf|
      invariant i % CHUNK == 0 && i <= |buf|
      invariant Wrap(lane0 + lane1) == Wrap(PrefixSum(buf, cookie, i))
    {
      var x := XorBytes(buf[i..i + CHUNK], mask);
      var low, high := Sad(x[..8]), Sad(x[8..]);
      ChunkStep(buf, cookie, i);
      LaneStep(lane0, lane1, low, high, PrefixSum(buf, cookie, i));
      lane0 := Wrap(lane0 as int + low);
      lane1 := Wrap(lane1 as int + high);
      NextChunk(i);
      i := i + CHUNK;
    }
    VectorEndUnique(|buf|, i);
  }

  /**
   * The `process` lambda: the SSE loop, the horizontal add of its two
   * lanes into `sum`, then the scalar tail `sum += ptr[i] ^ cookie`. It adds
   * the buffer's specified sum to `acc`, modulo 2^64.
   */
  method Process(buf: seq<byte>, cookie: u16, acc: u64) returns (sum: u64)
    ensures sum == Wrap(acc + BufferSum(buf, cookie))
  {
    var i, lane0, lane1 := SumChunks(buf, cookie);
    sum := Wrap(acc as int + Wrap(lane0 as int + lane1));
    AccStep(acc, lane0 as int + lane1, PrefixSum(buf, cookie, i));
    while i < |buf|
      invariant VectorEnd(|buf|) <= i <= |buf|
      invariant sum == Wrap(acc + PrefixSum(buf, cookie, i))
    {
      TailBytesUseScalarRule(buf, cookie, i);
      TailStep(sum, acc, PrefixSum(buf, cookie, i), TailTerm(buf[i], cookie));
      sum := Wrap(sum as int + TailTerm(buf[i], cookie));
      i := i + 1;
    }
  }

  /** Every byte at or after ⌊n/16⌋·16 contributes its scalar term `b ^ cookie`. */
  lemma TailBytesUseScalarRule(s: seq<byte>, cookie: u16, i: nat)
    requires VectorEnd(|s|) <= i < |s|
    ensures PrefixSum(s, cookie, i + 1) == PrefixSum(s, cookie, i) + TailTerm(s[i], cookie)
  {
  }

  /** The header is 8 bytes, shorter than one chunk, so all of it goes through the scalar tail. */
  lemma HeaderUsesScalarRule(h: Header, i: nat)
    requires i < HEADER_SIZE
    ensures Contribution(HEADER_SIZE, i, Encode(h)[i], h.cookie) == TailTerm(Encode(h)[i], h.cookie)
  {
  }

  // ---------------------------------------------------------------------
  // Tamper evidence

  /** Overwriting byte k changes the sum by exactly the difference of the two terms at k. */
  lemma {:induction false} PrefixSumUpdate(s: seq<byte>, cookie: u16, k: nat, b: byte, m: nat)
    requires k < |s| && m <= |s|
    ensures m <= k ==> PrefixSum(s[k := b], cookie, m) == PrefixSum(s, cookie, m)
    ensures k < m ==>
      PrefixSum(s[k := b], cookie, m) + Contribution(|s|, k, s[k], cookie)
        == PrefixSum(s, cookie, m) + Contribution(|s|, k, b, cookie)
  {
    if m > 0 {
      PrefixSumUpdate(s, cookie, k, b, m - 1);
    }
  }

  /**
   * Changing exactly one payload byte always changes the checksum: the two
   * terms differ, and by less than 2^64, so the difference survives the
   * reduction modulo 2^64.
   */
  lemma SingleByteChangeDetected(h: Header, payload: seq<byte>, k: nat, b: byte)
    requires k < |payload| && b != payload[k]
    ensures ChecksumOf(h, payload[k := b]) != ChecksumOf(h, payload)
  {
    var hs := BufferSum(Encode(h), h.cookie);
    PrefixSumUpdate(payload, h.cookie, k, b, |payload|);
    ContributionInjective(|payload|, k, payload[k], b, h.cookie);
    WrapDistinct(hs + BufferSum(payload[k := b], h.cookie), hs + BufferSum(payload, h.cookie));
  }

  /**
   * Positions i and j of an n-byte buffer use the same rule for every byte:
   * both lie in the scalar tail, or both lie in the vector range at
   * offsets that meet the same byte of the cookie.
   */
  predicate SameRule(n: nat, i: nat, j: nat) {
    (VectorEnd(n) <= i && VectorEnd(n) <= j) || (i < VectorEnd(n) && j < VectorEnd(n) && i % 2 == j % 2)
  }

  lemma SameRuleSameTerm(n: nat, i: nat, j: nat, b: byte, cookie: u16)
    requires SameRule(n, i, j)
    ensures Contribution(n, i, b, cookie) == Contribution(n, j, b, cookie)
  {
    if i < VectorEnd(n) {
      OffsetParity(i);
      OffsetParity(j);
    }
  }

  /** A byte's offset within its chunk has the parity of its index. */
  lemma OffsetParity(i: nat)
    ensures i % CHUNK % 2 == i % 2
  {
    var r := i % CHUNK;
    assert i == 2 * (8 * (i / CHUNK) + r / 2) + r % 2;
    DivUnique(i, 2, 8 * (i / CHUNK) + r / 2, r % 2);
  }

  /**
   * Changes to several bytes can cancel: swapping the bytes at two
   * positions that use the same rule never changes the checksum.
   */
  lemma SwapNotDetected(h: Header, payload: seq<byte>, i: nat, j: nat)
    requires i < |payload| && j < |payload| && SameRule(|payload|, i, j)
    ensures ChecksumOf(h, payload[i := payload[j]][j := payload[i]]) == ChecksumOf(h, payload)
  {
    var n, c := |payload|, h.cookie;
    var t := payload[i := payload[j]];
    if i != j {
      PrefixSumUpdate(payload, c, i, payload[j], n);
      PrefixSumUpdate(t, c, j, payload[i], n);
      assert t[j] == payload[j];
      SameRuleSameTerm(n, i, j, payload[i], c);
      SameRuleSameTerm(n, i, j, payload[j], c);
      assert BufferSum(t[j := payload[i]], c) == BufferSum(payload, c);
    } else {
      assert t[j := payload[i]] == payload;
    }
  }

  /** For example the payloads [0, 1] and [1, 0] have the same checksum under every header. */
  lemma SwappedBytesNotDetected(h: Header)
    ensures ChecksumOf(h, [0x00, 0x01]) == ChecksumOf(h, [0x01, 0x00])
  {
    var s: seq<byte> := [0x00, 0x01];
    assert s[0 := s[1]][1 := s[0]] == [0x01, 0x00];
    SwapNotDetected(h, s, 0, 1);
  }

  // ---------------------------------------------------------------------
  // The checksum is not zero

  lemma {:induction false} PrefixSumMonotone(s: seq<byte>, cookie: u16, j: nat, k: nat)
    requires j <= k <= |s|
    ensures PrefixSum(s, cookie, j) <= PrefixSum(s, cookie, k)
  {
    if j < k {
      PrefixSumMonotone(s, cookie, j, k - 1);
    }
  }

  /** 0x2F and 0x48 differ, so they cannot both equal the cookie: one of their terms is positive. */
  lemma MagicTermsPositive(cookie: u16)
    ensures TailTerm(0x2F, cookie) + TailTerm(0x48, cookie) > 0
  {
    XorZero(0x2F, cookie);
    XorZero(0x48, cookie);
  }

  /** A valid header alone already gives a positive sum. */
  lemma HeaderSumPositive(h: Header)
    requires IsValid(h)
    ensures BufferSum(Encode(h), h.cookie) > 0
  {
    var e := Encode(h);
    IsValidBytes(h);
    assert e[0] == e[..4][0] && e[1] == e[..4][1];
    PrefixSumMonotone(e, h.cookie, 2, HEADER_SIZE);
    assert PrefixSum(e, h.cookie, 1) == TailTerm(0x2F, h.cookie);
    assert PrefixSum(e, h.cookie, 2) == TailTerm(0x2F, h.cookie) + TailTerm(0x48, h.cookie);
    MagicTermsPositive(h.cookie);
  }

  /**
   * With a valid header the checksum is never zero, for every payload of a
   * size a 64-bit process can hold: the header sum is positive and the
   * whole sum stays below 2^64.
   */
  lemma ChecksumNonZero(h: Header, payload: seq<byte>)
    requires IsValid(h) && |payload| < MAX_PAYLOAD
    ensures ChecksumOf(h, payload) != 0
  {
    HeaderSumPositive(h);
    var total := BufferSum(Encode(h), h.cookie) + BufferSum(payload, h.cookie);
    assert total < U64;
  }

  /**
   * The int of the C++ DetectTampering test: 100 (bytes 64 00 00 00)
   * overwritten with 999 (bytes E7 03 00 00) changes two bytes, and the
   * checksum changes all the same, whatever the cookie: the two sums
   * differ by 2 modulo 4.
   */
  lemma IntTamperDetected(h: Header)
    ensures ChecksumOf(h, [0xE7, 0x03, 0x00, 0x00]) != ChecksumOf(h, [0x64, 0x00, 0x00, 0x00])
  {
    var c := h.cookie;
    var s: seq<byte>, t: seq<byte> := [0xE7, 0x03, 0x00, 0x00], [0x64, 0x00, 0x00, 0x00];
    TailBytesUseScalarRule(s, c, 0);
    TailBytesUseScalarRule(s, c, 1);
    TailBytesUseScalarRule(s, c, 2);
    TailBytesUseScalarRule(s, c, 3);
    TailBytesUseScalarRule(t, c, 0);
    TailBytesUseScalarRule(t, c, 1);
    TailBytesUseScalarRule(t, c, 2);
    TailBytesUseScalarRule(t, c, 3);
    assert BufferSum(s, c) == TailTerm(0xE7, c) + TailTerm(0x03, c) + 2 * TailTerm(0x00, c);
    assert BufferSum(t, c) == TailTerm(0x64, c) + TailTerm(0x00, c) + 2 * TailTerm(0x00, c);
    TamperTermsDiffer(c);
    var hs := BufferSum(Encode(h), c);
    WrapDistinct(hs + BufferSum(s, c), hs + BufferSum(t, c));
  }

  /** For every cookie, (0xE7 ^ c) + (0x03 ^ c) and (0x64 ^ c) + (0x00 ^ c) differ by 2 modulo 4. */
  lemma TamperTermsDiffer(c: u16)
    ensures TailTerm(0xE7, c) + TailTerm(0x03, c) != TailTerm(0x64, c) + TailTerm(0x00, c)
  {
    var w, x, y, z := Xor(0xE7, c), Xor(0x03, c), Xor(0x64, c), Xor(0x00, c);
    var c0, c1 := c % 2, c / 2 % 2;
    assert w % 4 == 2 * (1 - c1) + (1 - c0) by { XorLow2(0xE7, c); }
    assert x % 4 == 2 * (1 - c1) + (1 - c0) by { XorLow2(0x03, c); }
    assert y % 4 == 2 * c1 + c0 by { XorLow2(0x64, c); }
    assert z % 4 == 2 * c1 + c0 by { XorLow2(0x00, c); }
    SumsDifferMod4(w, x, y, z, c0, c1);
  }

  lemma SumsDifferMod4(w: nat, x: nat, y: nat, z: nat, c0: nat, c1: nat)
    requires c0 < 2 && c1 < 2
    requires w % 4 == 2 * (1 - c1) + (1 - c0) && x % 4 == 2 * (1 - c1) + (1 - c0)
    requires y % 4 == 2 * c1 + c0 && z % 4 == 2 * c1 + c0
    ensures w + x != y + z
  {
  }
}
