/**
 * src/security_control.rs: the security-control octet of ciphered APDUs. The low four
 * bits are the security suite; bits 4 to 7 flag authentication, encryption, broadcast and
 * compression. The setters update the octet in place.
 */
module Security {
  import opened Bytes

  const AuthenticationBit: bv8 := 0x10
  const EncryptionBit: bv8 := 0x20
  const BroadcastBit: bv8 := 0x40
  const CompressionBit: bv8 := 0x80

  /** One of the four flag bits. */
  predicate IsFlagBit(m: bv8) {
    m == AuthenticationBit || m == EncryptionBit || m == BroadcastBit || m == CompressionBit
  }

  /** `(security_control & BIT) != 0`. */
  predicate HasFlag(x: bv8, m: bv8) {
    x & m != 0
  }

  /** `security_control & 0b00001111`. */
  function SuiteOf(x: bv8): (s: bv8)
    ensures s <= 15
  {
    x & 0x0F
  }

  /** The setters: `|= BIT` to set, `&= !BIT` to clear. */
  function WithFlag(x: bv8, m: bv8, on: bool): bv8 {
    if on then x | m else x & !m
  }

  /** After setting a flag, the flag reads back as set; every other flag and the suite stay as they were. */
  lemma WithFlagReadsBack(x: bv8, m: bv8, on: bool)
    requires IsFlagBit(m)
    ensures HasFlag(WithFlag(x, m, on), m) == on
    ensures forall n :: IsFlagBit(n) && n != m ==> HasFlag(WithFlag(x, m, on), n) == HasFlag(x, n)
    ensures SuiteOf(WithFlag(x, m, on)) == SuiteOf(x)
  {
  }

  /** Setting a flag to the value it already has changes nothing. */
  lemma WithFlagIdempotent(x: bv8, m: bv8, on: bool)
    requires IsFlagBit(m)
    ensures WithFlag(WithFlag(x, m, on), m, on) == WithFlag(x, m, on)
    ensures HasFlag(x, m) == on ==> WithFlag(x, m, on) == x
  {
  }

  /** The library's own examples: clearing authentication in 0xFF gives 0xEF; 0x30 authenticates and encrypts. */
  lemma FlagExamples()
    ensures WithFlag(0xFF, AuthenticationBit, false) == 0xEF
    ensures WithFlag(0x00, AuthenticationBit, true) == 0x10
    ensures HasFlag(0x30, AuthenticationBit) && HasFlag(0x30, EncryptionBit)
    ensures SuiteOf(0xF0) == 0 && SuiteOf(0xFF) == 15
  {
  }

  /** `SecurityControl::parse`: one octet, taken as it is. */
  function ParseSecurityControl(s: seq<byte>): (r: Option<(bv8, seq<byte>)>)
    ensures r.Some? <==> |s| >= 1
    ensures r.Some? ==> r.value.0 == s[0] as bv8 && r.value.1 == s[1..]
  {
    if |s| < 1 then None else Some((s[0] as bv8, s[1..]))
  }

  /** `SecurityControl`: the octet, updated in place by the setters. */
  class SecurityControl {
    var bits: bv8

    constructor(b: bv8)
      ensures bits == b
    {
      bits := b;
    }

    function SuiteId(): bv8
      reads this
    {
      SuiteOf(bits)
    }

    predicate Authentication()
      reads this
    {
      HasFlag(bits, AuthenticationBit)
    }

    predicate Encryption()
      reads this
    {
      HasFlag(bits, EncryptionBit)
    }

    predicate Broadcast()
      reads this
    {
      HasFlag(bits, BroadcastBit)
    }

    predicate Compression()
      reads this
    {
      HasFlag(bits, CompressionBit)
    }

    method SetAuthentication(on: bool)
      modifies this
      ensures bits == WithFlag(old(bits), AuthenticationBit, on)
      ensures Authentication() == on && SuiteId() == old(SuiteId())
      ensures Encryption() == old(Encryption()) && Broadcast() == old(Broadcast()) && Compression() == old(Compression())
    {
      if on {
        bits := bits | AuthenticationBit;
      } else {
        bits := bits & !AuthenticationBit;
      }
      WithFlagReadsBack(old(bits), AuthenticationBit, on);
    }

    method SetEncryption(on: bool)
      modifies this
      ensures bits == WithFlag(old(bits), EncryptionBit, on)
      ensures Encryption() == on && SuiteId() == old(SuiteId())
      ensures Authentication() == old(Authentication()) && Broadcast() == old(Broadcast()) && Compression() == old(Compression())
    {
      if on {
        bits := bits | EncryptionBit;
      } else {
        bits := bits & !EncryptionBit;
      }
      WithFlagReadsBack(old(bits), EncryptionBit, on);
    }

    method SetBroadcast(on: bool)
      modifies this
      ensures bits == WithFlag(old(bits), BroadcastBit, on)
      ensures Broadcast() == on && SuiteId() == old(SuiteId())
      ensures Authentication() == old(Authentication()) && Encryption() == old(Encryption()) && Compression() == old(Compression())
    {
      if on {
        bits := bits | BroadcastBit;
      } else {
        bits := bits & !BroadcastBit;
      }
      WithFlagReadsBack(old(bits), BroadcastBit, on);
    }

    method SetCompression(on: bool)
      modifies this
      ensures bits == WithFlag(old(bits), CompressionBit, on)
      ensures Compression() == on && SuiteId() == old(SuiteId())
      ensures Authentication() == old(Authentication()) && Encryption() == old(Encryption()) && Broadcast() == old(Broadcast())
    {
      if on {
        bits := bits | CompressionBit;
      } else {
        bits := bits & !CompressionBit;
      }
      WithFlagReadsBack(old(bits), CompressionBit, on);
    }
  }
}
