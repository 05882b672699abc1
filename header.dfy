/**
 * The integrity header of a verifycxx container (struct verifycxx_header):
 * a 64-bit word made of a 32-bit magic constant, a 16-bit size field and a
 * 16-bit cookie (salt) taken from the low bits of the object's own address.
 *
 * In memory the header is the union of the bit-field struct and a uint64_t;
 * this model fixes the little-endian layout: magic in bytes 0-3, size in
 * bytes 4-5, cookie in bytes 6-7.
 */
module HeaderEncoding {
  import opened Bits

  /** VDH_MAGIC: the bytes "/HDV", which read as a little-endian word spell "VDH/". */
  const VDH_MAGIC: u32 := 0x5644482F

  /** sizeof(verifycxx_header): the whole header is one 64-bit word. */
  const HEADER_SIZE: nat := 8

  /** The first four bytes of every encoded valid header. */
  const MAGIC_BYTES: seq<byte> := [0x2F, 0x48, 0x44, 0x56]

  datatype Header = Header(magic: u32, size: u16, cookie: u16)

  /** is_valid(): only the magic field is checked. */
  predicate IsValid(h: Header) {
    h.magic == VDH_MAGIC
  }

  /**
   * The header constructor. Its size parameter is a uint16_t, so the
   * size_t payload size is truncated to 16 bits; the cookie is the
   * object's address masked with 0xFFFF.
   */
  function MakeHeader(size: nat, address: nat): (h: Header)
    ensures h.magic == VDH_MAGIC && IsValid(h)
    ensures h.size == size % 0x1_0000 && (size < 0x1_0000 ==> h.size == size)
    ensures h.cookie == address % 0x1_0000
  {
    Header(VDH_MAGIC, size % 0x1_0000, address % 0x1_0000)
  }

  function Join16(lo: byte, hi: byte): u16 {
    lo + 0x100 * hi
  }

  function Join32(b0: byte, b1: byte, b2: byte, b3: byte): u32 {
    Join16(b0, b1) + 0x1_0000 * Join16(b2, b3)
  }

  /** The header's 8 bytes of object representation, little-endian. */
  function Encode(h: Header): (bytes: seq<byte>)
    ensures |bytes| == HEADER_SIZE
  {
    [ h.magic % 0x1_0000 % 0x100, h.magic % 0x1_0000 / 0x100,
      h.magic / 0x1_0000 % 0x100, h.magic / 0x1_0000 / 0x100,
      h.size % 0x100, h.size / 0x100,
      h.cookie % 0x100, h.cookie / 0x100 ]
  }

  /** Reads the three fields back from 8 little-endian bytes. */
  function Decode(bytes: seq<byte>): Header
    requires |bytes| == HEADER_SIZE
  {
    Header(Join32(bytes[0], bytes[1], bytes[2], bytes[3]), Join16(bytes[4], bytes[5]), Join16(bytes[6], bytes[7]))
  }

  lemma Split16(x: u16)
    ensures Join16(x % 0x100, x / 0x100) == x
  {
  }

  lemma Split32(x: u32)
    ensures Join32(x % 0x1_0000 % 0x100, x % 0x1_0000 / 0x100, x / 0x1_0000 % 0x100, x / 0x1_0000 / 0x100) == x
  {
    Split16(x % 0x1_0000);
    Split16(x / 0x1_0000);
  }

  lemma Join16Parts(lo: byte, hi: byte)
    ensures Join16(lo, hi) % 0x100 == lo && Join16(lo, hi) / 0x100 == hi
  {
  }

  lemma Join32Parts(b0: byte, b1: byte, b2: byte, b3: byte)
    ensures var x := Join32(b0, b1, b2, b3);
      x % 0x1_0000 % 0x100 == b0 && x % 0x1_0000 / 0x100 == b1 &&
      x / 0x1_0000 % 0x100 == b2 && x / 0x1_0000 / 0x100 == b3
  {
    Join16Parts(b0, b1);
    Join16Parts(b2, b3);
  }

  /** Decoding the encoded header gives back the same magic, size and cookie. */
  lemma DecodeEncode(h: Header)
    ensures Decode(Encode(h)) == h
  {
    Split32(h.magic);
    Split16(h.size);
    Split16(h.cookie);
  }

  /** Every 8-byte pattern is the encoding of exactly the header it decodes to. */
  lemma EncodeDecode(bytes: seq<byte>)
    requires |bytes| == HEADER_SIZE
    ensures Encode(Decode(bytes)) == bytes
  {
    Join32Parts(bytes[0], bytes[1], bytes[2], bytes[3]);
    Join16Parts(bytes[4], bytes[5]);
    Join16Parts(bytes[6], bytes[7]);
  }

  /** A header is valid exactly when its first four bytes are the magic bytes. */
  lemma IsValidBytes(h: Header)
    ensures IsValid(h) <==> Encode(h)[..4] == MAGIC_BYTES
  {
    var e := Encode(h);
    if e[..4] == MAGIC_BYTES {
      assert e[0] == 0x2F && e[1] == 0x48 && e[2] == 0x44 && e[3] == 0x56;
      Split32(h.magic);
    }
  }

  /** The size and cookie fields never influence is_valid(). */
  lemma IsValidIgnoresSizeAndCookie(h: Header, size: u16, cookie: u16)
    ensures IsValid(h.(size := size, cookie := cookie)) == IsValid(h)
  {
  }

  /**
   * The union's other member, `uint64_t header`: the three fields as one
   * word, magic in the low 32 bits, size in the next 16, cookie in the top 16.
   */
  function Word(h: Header): (w: u64)
    ensures w % 0x1_0000_0000 == h.magic
    ensures w / 0x1_0000_0000 % 0x1_0000 == h.size
    ensures w / 0x1_0000_0000_0000 == h.cookie
  {
    var w := h.magic + 0x1_0000_0000 * h.size + 0x1_0000_0000_0000 * h.cookie;
    DivUnique(w, 0x1_0000_0000, h.size + 0x1_0000 * h.cookie, h.magic);
    DivUnique(h.size + 0x1_0000 * h.cookie, 0x1_0000, h.cookie, h.size);
    DivUnique(w, 0x1_0000_0000_0000, h.cookie, h.magic + 0x1_0000_0000 * h.size);
    w
  }

  /** Eight bytes read as a little-endian 64-bit word. */
  function LittleEndian64(b: seq<byte>): int
    requires |b| == HEADER_SIZE
  {
    Join32(b[0], b[1], b[2], b[3]) + 0x1_0000_0000 * Join16(b[4], b[5]) + 0x1_0000_0000_0000 * Join16(b[6], b[7])
  }

  /** The 8 encoded bytes, read little-endian, are the union's uint64_t view of the header. */
  lemma EncodeIsLittleEndian(h: Header)
    ensures LittleEndian64(Encode(h)) == Word(h)
  {
    DecodeEncode(h);
  }
}
