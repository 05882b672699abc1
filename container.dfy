/**
 * The container verifycxx<Type> and its modify_guard.
 *
 * The container owns a header, the payload (the sizeof(Type) bytes of the
 * object's representation, a fixed-length array written in place) and the
 * uint64_t checksum stored at construction and after every guarded write.
 * The object's address, which the C++ code reads through `this`, is a
 * constructor parameter.
 *
 * A modify_guard is modelled as an explicit protocol: Modify opens it,
 * Assign and WriteAt write the live payload while it is open, and Close,
 * standing for the guard's destructor, refreshes the checksum once.
 * Tamper writes a payload byte without the guard, as a const_cast write
 * through get() does.
 */
module Container {
  import opened Bits
  import opened HeaderEncoding
  import opened ChecksumEngine

  class Verifycxx {
    /** The verifycxx_header base subobject; nothing writes it after construction. */
    const header: Header
    /** The payload `*data`; the pointer itself never changes. */
    const data: array<byte>
    var checksum: u64
    /** How many times update_checksum has run. */
    ghost var refreshes: nat

    /** What construction establishes and nothing afterwards can break. */
    ghost predicate Valid()
      reads this
    {
      IsValid(header) && header.size == data.Length % 0x1_0000
    }

    /** The stored checksum matches the current header and payload. */
    ghost predicate Intact()
      reads this, data
    {
      checksum == ChecksumOf(header, data[..])
    }

    /**
     * Builds the header from sizeof(Type) and the object's address, copies
     * the initial value into a fresh payload and stores its checksum.
     */
    constructor(address: nat, value: seq<byte>)
      ensures header == MakeHeader(|value|, address)
      ensures fresh(data) && data[..] == value
      ensures checksum == ChecksumOf(header, value)
      ensures Valid() && Intact() && refreshes == 0
    {
      header := MakeHeader(|value|, address);
      data := new byte[|value|](i requires 0 <= i < |value| => value[i]);
      refreshes := 0;
      new;
      checksum := GenChecksum();
    }

    /** gen_checksum: `process` over the header bytes, then over the payload, into one sum. */
    method GenChecksum() returns (sum: u64)
      ensures sum == ChecksumOf(header, data[..])
    {
      var headerSum := Process(Encode(header), header.cookie, 0);
      sum := Process(data[..], header.cookie, headerSum);
      WrapAdd(BufferSum(Encode(header), header.cookie), BufferSum(data[..], header.cookie));
    }

    /** update_checksum: stores the checksum of the current payload. */
    method UpdateChecksum()
      modifies this
      ensures checksum == ChecksumOf(header, data[..]) && Intact()
      ensures refreshes == old(refreshes) + 1
    {
      checksum := GenChecksum();
      refreshes := refreshes + 1;
    }

    /** verify: true exactly when the stored checksum matches the current contents. */
    method Verify() returns (ok: bool)
      ensures ok <==> Intact()
    {
      var sum := GenChecksum();
      ok := checksum == sum;
    }

    /** get_checksum: the stored value, which is the checksum of the contents while they are intact. */
    function GetChecksum(): (r: u64)
      reads this, data
      ensures Intact() ==> r == ChecksumOf(header, data[..])
    {
      checksum
    }

    /** get: read access to the live payload, guarded writes included. */
    function Get(): (r: seq<byte>)
      reads data
      ensures |r| == data.Length
      ensures forall k :: 0 <= k < |r| ==> r[k] == data[k]
    {
      data[..]
    }

    /** modify: opens a guard over this container. */
    method Modify() returns (g: ModifyGuard)
      ensures fresh(g) && g.parent == this && g.open
    {
      g := new ModifyGuard(this);
    }

    /**
     * A write to payload byte k that bypasses the guard. The checksum is
     * not refreshed, so if the contents were intact and the byte really
     * changes, the next Verify reports a mismatch.
     */
    method Tamper(k: nat, b: byte)
      requires k < data.Length
      modifies data
      ensures data[..] == old(data[..])[k := b]
      ensures old(Intact()) && b != old(data[k]) ==> !Intact()
    {
      if b != data[k] {
        SingleByteChangeDetected(header, data[..], k, b);
      }
      data[k] := b;
    }
  }

  class ModifyGuard {
    /** The container the guard writes to (a reference member in the source). */
    const parent: Verifycxx
    /** False once the destructor has run. */
    var open: bool

    constructor(parent: Verifycxx)
      ensures this.parent == parent && open
    {
      this.parent := parent;
      open := true;
    }

    /** operator=: overwrites the whole payload object with a value of the same type. */
    method Assign(value: seq<byte>)
      requires open && |value| == parent.data.Length
      modifies parent.data
      ensures parent.data[..] == value
    {
      forall i | 0 <= i < |value| {
        parent.data[i] := value[i];
      }
    }

    /** A write through operator* or operator->: one payload byte changes in place. */
    method WriteAt(k: nat, b: byte)
      requires open && k < parent.data.Length
      modifies parent.data
      ensures parent.data[..] == old(parent.data[..])[k := b]
    {
      parent.data[k] := b;
    }

    /**
     * The destructor: runs update_checksum exactly once and leaves the
     * payload as the writes left it, so the container is intact again.
     */
    method Close()
      requires open
      modifies this, parent
      ensures !open
      ensures parent.Intact() && parent.checksum == ChecksumOf(parent.header, parent.data[..])
      ensures parent.data[..] == old(parent.data[..])
      ensures parent.refreshes == old(parent.refreshes) + 1
    {
      parent.UpdateChecksum();
      open := false;
    }
  }

  /**
   * get_checksum is never zero for a container whose contents are intact,
   * once its payload is smaller than the address space.
   */
  lemma StoredChecksumNonZero(v: Verifycxx)
    requires v.Valid() && v.Intact() && v.data.Length < MAX_PAYLOAD
    ensures v.GetChecksum() != 0
  {
    ChecksumNonZero(v.header, v.data[..]);
  }

  // -----------------------------------------------------------------------
  // The unit tests' scenarios, on little-endian int payloads

  /** The bytes of the int 100. */
  const INT_100: seq<byte> := [0x64, 0x00, 0x00, 0x00]

  /** A fresh container of the int 100 has a non-zero checksum. */
  method ChecksumGenerateScenario(address: nat) returns (sum: u64)
    ensures sum != 0
  {
    var value := new Verifycxx(address, INT_100);
    sum := value.GetChecksum();
    StoredChecksumNonZero(value);
  }

  /** verify holds after construction and again after a guarded assignment of 10. */
  method VerifyScenario(address: nat) returns (before: bool, after: bool)
    ensures before && after
  {
    var value := new Verifycxx(address, INT_100);
    before := value.Verify();
    var guard := value.Modify();
    guard.Assign([0x0A, 0x00, 0x00, 0x00]);
    guard.Close();
    after := value.Verify();
  }

  /** operator bool forwards to verify, which holds on a fresh container. */
  method BoolConversionScenario(address: nat) returns (b: bool)
    ensures b
  {
    var value := new Verifycxx(address, INT_100);
    b := value.Verify();
  }

  /** The struct {health = 100, mana = 50}: get()->health reads 100 and verify holds. */
  method CustomStructScenario(address: nat) returns (health: seq<byte>, ok: bool)
    ensures health == INT_100 && ok
  {
    var player := new Verifycxx(address, [0x64, 0x00, 0x00, 0x00, 0x32, 0x00, 0x00, 0x00]);
    health := player.Get()[..4];
    ok := player.Verify();
  }

  /** Overwriting the int 100 with 999 without the guard changes two bytes, and verify notices. */
  method DetectTamperingScenario(address: nat) returns (before: bool, after: bool)
    ensures before && !after
  {
    var value := new Verifycxx(address, INT_100);
    before := value.Verify();
    value.Tamper(0, 0xE7);
    value.Tamper(1, 0x03);
    assert value.data[..] == [0xE7, 0x03, 0x00, 0x00];
    IntTamperDetected(value.header);
    after := value.Verify();
  }

  /** Writes through an open guard are visible at once: the point {10, 20} reads x == 100. */
  method ModifyGuardArrowScenario(address: nat) returns (x: seq<byte>)
    ensures x == [0x64, 0x00, 0x00, 0x00]
  {
    var point := new Verifycxx(address, [0x0A, 0x00, 0x00, 0x00, 0x14, 0x00, 0x00, 0x00]);
    var guard := point.Modify();
    guard.WriteAt(0, 0x64);
    guard.WriteAt(4, 0xC8);
    x := point.Get()[..4];
    guard.Close();
  }

  /** `*guard = 100` on the int 42 is visible through get() while the guard is still open. */
  method ModifyGuardDereferenceScenario(address: nat) returns (seen: seq<byte>)
    ensures seen == INT_100
  {
    var value := new Verifycxx(address, [0x2A, 0x00, 0x00, 0x00]);
    var guard := value.Modify();
    guard.Assign(INT_100);
    seen := value.Get();
    guard.Close();
  }

  /** A guarded assignment of 200 to the int 100 changes the stored checksum and keeps verify true. */
  method ModifyUpdatesChecksumScenario(address: nat) returns (oldSum: u64, newSum: u64, ok: bool)
    ensures oldSum != newSum && ok
  {
    var value := new Verifycxx(address, INT_100);
    oldSum := value.GetChecksum();
    var guard := value.Modify();
    guard.Assign([0xC8, 0x00, 0x00, 0x00]);
    guard.Close();
    newSum := value.GetChecksum();
    ok := value.Verify();
    assert INT_100[0 := 0xC8] == [0xC8, 0x00, 0x00, 0x00];
    SingleByteChangeDetected(value.header, INT_100, 0, 0xC8);
  }

  /** verify and get_checksum change nothing, so asking twice gives the same answers. */
  method RepeatedQueries(value: Verifycxx) returns (first: bool, second: bool, sum1: u64, sum2: u64)
    ensures first == second && sum1 == sum2
    ensures first <==> value.Intact()
  {
    sum1 := value.GetChecksum();
    first := value.Verify();
    second := value.Verify();
    sum2 := value.GetChecksum();
  }
}
