/**
 * The ciphered-APDU envelope shared by src/general_glo_ciphering.rs and src/ded_apdu.rs:
 * the octet 8, an 8-octet system title, a length, the security-control octet, an
 * invocation counter when authentication or encryption is on, and the (cipher) payload.
 * The cipher itself is AES-GCM from a foreign crate; here the ciphertext is a parameter.
 */
module Ciphering {
  import opened Bytes
  import opened Wire
  import opened Security

  datatype Ciphered = Ciphered(systemTitle: seq<byte>, securityControl: bv8, invocationCounter: Option<u32>, payload: seq<byte>)

  /** The counter is on the wire exactly when authentication or encryption is flagged. */
  predicate CounterFlagged(sc: bv8) {
    HasFlag(sc, AuthenticationBit) || HasFlag(sc, EncryptionBit)
  }

  /** What `encode` needs to write something `parse` reads back. */
  predicate Consistent(g: Ciphered) {
    |g.systemTitle| == 8
    && g.invocationCounter.Some? == CounterFlagged(g.securityControl)
    && TotalLength(g) <= 0xFFFF
  }

  /** `total_len` of `GeneralDedCiphering::encode`: the control octet, the counter if flagged, the payload. */
  function TotalLength(g: Ciphered): (n: nat)
    ensures n == 1 + (if CounterFlagged(g.securityControl) then 4 else 0) + |g.payload|
  {
    1 + (if CounterFlagged(g.securityControl) then 4 else 0) + |g.payload|
  }

  /** The length field of the encoder: short form to 127, `81 n` to 255, else `82 hi lo` (truncated to u16). */
  function LengthBytes(n: nat): (s: seq<byte>)
    ensures 1 <= |s| <= 3
  {
    if n <= 127 then [n]
    else if n <= 255 then [0x81, n]
    else [0x82] + U16Bytes(n % 0x1_0000)
  }

  function CounterBytes(ic: Option<u32>): (s: seq<byte>)
    ensures |s| == if ic.Some? then 4 else 0
  {
    if ic.Some? then U32Bytes(ic.value) else []
  }

  /** The octets `GeneralDedCiphering::encode` writes. */
  function DedBytes(g: Ciphered): seq<byte> {
    [0x08] + (g.systemTitle + (LengthBytes(TotalLength(g)) + ([g.securityControl as byte] + (CounterBytes(g.invocationCounter) + g.payload))))
  }

  /** `GeneralDedCiphering::encode`, pushing field after field. */
  method EncodeDed(g: Ciphered) returns (buf: seq<byte>)
    ensures buf == DedBytes(g)
  {
    buf := [0x08];
    buf := buf + g.systemTitle;
    var hasCounter := HasFlag(g.securityControl, AuthenticationBit) || HasFlag(g.securityControl, EncryptionBit);
    var icLen := if hasCounter then 4 else 0;
    var totalLen := 1 + icLen + |g.payload|;
    if totalLen <= 127 {
      buf := buf + [totalLen];
    } else if totalLen <= 255 {
      buf := buf + [0x81, totalLen];
    } else {
      buf := buf + ([0x82] + U16Bytes(totalLen % 0x1_0000));
    }
    buf := buf + [g.securityControl as byte];
    if g.invocationCounter.Some? {
      buf := buf + U32Bytes(g.invocationCounter.value);
    }
    buf := buf + g.payload;
    EncodeDedShape(g, buf);
  }

  lemma EncodeDedShape(g: Ciphered, buf: seq<byte>)
    requires buf == [0x08] + g.systemTitle + LengthBytes(TotalLength(g)) + [g.securityControl as byte] + CounterBytes(g.invocationCounter) + g.payload
    ensures buf == DedBytes(g)
  {
  }

  /** The length field of `GeneralDedCiphering::parse`: `81 n`, `82 hi lo`, or any other octet taken as the length. */
  function ReadDedLength(s: seq<byte>): (r: Option<(nat, seq<byte>)>)
    ensures r.Some? ==> |r.value.1| < |s|
  {
    match TakeByte(s)
    case None => None
    case Some((b, s1)) =>
      if b == 0x81 then
        match TakeByte(s1)
        case None => None
        case Some((n, s2)) => Some((n as nat, s2))
      else if b == 0x82 then
        match TakeU16(s1)
        case None => None
        case Some((n, s2)) => Some((n as nat, s2))
      else Some((b as nat, s1))
  }

  /** `cond(has_invocation_counter, be_u32)`. */
  function ReadCounter(flagged: bool, s: seq<byte>): (r: Option<(Option<u32>, seq<byte>)>)
    ensures r.Some? ==> (r.value.0.Some? <==> flagged)
    ensures r.Some? <==> (flagged ==> |s| >= 4)
  {
    if !flagged then Some((None, s))
    else
      match TakeU32(s)
      case None => None
      case Some((v, rest)) => Some((Some(v), rest))
  }

  /**
   * `GeneralDedCiphering::parse`. The payload is `length - 1 - 4·[counter]` octets; a length
   * smaller than the fields it counts, where the source's subtraction underflows, fails.
   */
  function ParseDed(s: seq<byte>): (r: Option<(Ciphered, seq<byte>)>)
    ensures r.Some? ==> |s| >= 11 && s[0] == 0x08 && r.value.0.systemTitle == s[1..9]
    ensures r.Some? ==> (r.value.0.invocationCounter.Some? <==> CounterFlagged(r.value.0.securityControl))
  {
    if |s| < 9 || s[0] != 0x08 then None
    else
      match ReadDedLength(s[9..])
      case None => None
      case Some((len, s1)) => DedBody(s[1..9], len, s1)
  }

  /** The fields after the length: the control octet, the counter if flagged, `len - 1 - 4·[counter]` payload octets. */
  function DedBody(title: seq<byte>, len: nat, s: seq<byte>): (r: Option<(Ciphered, seq<byte>)>)
    ensures r.Some? ==> |s| >= 1 && r.value.0.systemTitle == title
    ensures r.Some? ==> (r.value.0.invocationCounter.Some? <==> CounterFlagged(r.value.0.securityControl))
  {
    match TakeByte(s)
    case None => None
    case Some((scByte, s2)) =>
      var sc := scByte as bv8;
      match ReadCounter(CounterFlagged(sc), s2)
      case None => None
      case Some((ic, s3)) =>
        var icLen := if CounterFlagged(sc) then 4 else 0;
        if len < 1 + icLen || |s3| < len - 1 - icLen then None
        else Some((Ciphered(title, sc, ic, s3[..len - 1 - icLen]), s3[len - 1 - icLen..]))
  }

  lemma LongLengthBytes(n: nat, rest: seq<byte>)
    requires 255 < n <= 0xFFFF
    ensures LengthBytes(n) + rest == [0x82] + (U16Bytes(n) + rest)
  {
  }

  lemma ReadDedLengthOf(n: nat, rest: seq<byte>)
    requires n <= 0xFFFF
    ensures ReadDedLength(LengthBytes(n) + rest) == Some((n, rest))
  {
    if n <= 127 {
      TakeByteOf(n, rest);
    } else if n <= 255 {
      assert LengthBytes(n) + rest == [0x81] + ([n] + rest);
      TakeByteOf(0x81, [n] + rest);
      TakeByteOf(n, rest);
    } else {
      LongLengthBytes(n, rest);
      TakeByteOf(0x82, U16Bytes(n) + rest);
      TakeU16Of(n, rest);
    }
  }

  lemma ReadCounterOf(ic: Option<u32>, rest: seq<byte>)
    ensures ReadCounter(ic.Some?, CounterBytes(ic) + rest) == Some((ic, rest))
  {
    if ic.Some? {
      TakeU32Of(ic.value, rest);
    } else {
      assert CounterBytes(ic) + rest == rest;
    }
  }

  /** The fields after the length read back. */
  lemma {:induction false} DedBodyOf(g: Ciphered, rest: seq<byte>)
    requires Consistent(g)
    ensures DedBody(g.systemTitle, TotalLength(g), [g.securityControl as byte] + (CounterBytes(g.invocationCounter) + g.payload) + rest)
      == Some((g, rest))
  {
    var t := CounterBytes(g.invocationCounter) + (g.payload + rest);
    assert [g.securityControl as byte] + (CounterBytes(g.invocationCounter) + g.payload) + rest == [g.securityControl as byte] + t;
    TakeByteOf(g.securityControl as byte, t);
    ReadCounterOf(g.invocationCounter, g.payload + rest);
    var p := g.payload + rest;
    assert p[..|g.payload|] == g.payload && p[|g.payload|..] == rest;
  }

  /** The octets after the title: the length field, then the rest of the envelope. */
  lemma DedSplit(g: Ciphered, rest: seq<byte>)
    requires |g.systemTitle| == 8
    ensures var s := DedBytes(g) + rest;
      |s| >= 9 && s[0] == 0x08 && s[1..9] == g.systemTitle
      && s[9..] == LengthBytes(TotalLength(g)) + ([g.securityControl as byte] + (CounterBytes(g.invocationCounter) + g.payload) + rest)
  {
    var body := [g.securityControl as byte] + (CounterBytes(g.invocationCounter) + g.payload);
    var s := DedBytes(g) + rest;
    assert s == [0x08] + (g.systemTitle + (LengthBytes(TotalLength(g)) + (body + rest)));
  }

  /** `GeneralDedCiphering::parse(encode(g)) == g` when the counter is present exactly when it is flagged. */
  lemma {:induction false} DedRoundTrip(g: Ciphered, rest: seq<byte>)
    requires Consistent(g)
    ensures ParseDed(DedBytes(g) + rest) == Some((g, rest))
  {
    var body := [g.securityControl as byte] + (CounterBytes(g.invocationCounter) + g.payload);
    DedSplit(g, rest);
    ReadDedLengthOf(TotalLength(g), body + rest);
    DedBodyOf(g, rest);
  }

  /**
   * A counter carried without its flag is written but not counted in the length, so `parse`
   * reads the counter octets as payload and leaves the last four payload octets behind.
   */
  lemma {:induction false} DedUnflaggedCounter(g: Ciphered, rest: seq<byte>)
    requires |g.systemTitle| == 8 && TotalLength(g) <= 0xFFFF
    requires g.invocationCounter.Some? && !CounterFlagged(g.securityControl)
    ensures var t := U32Bytes(g.invocationCounter.value) + g.payload + rest;
      ParseDed(DedBytes(g) + rest)
        == Some((g.(invocationCounter := None, payload := t[..|g.payload|]), t[|g.payload|..]))
  {
    var t := U32Bytes(g.invocationCounter.value) + g.payload + rest;
    var body := [g.securityControl as byte] + (CounterBytes(g.invocationCounter) + g.payload);
    DedSplit(g, rest);
    ReadDedLengthOf(TotalLength(g), body + rest);
    assert body + rest == [g.securityControl as byte] + t;
    TakeByteOf(g.securityControl as byte, t);
    assert ReadCounter(false, t) == Some((None, t));
    assert DedBody(g.systemTitle, TotalLength(g), [g.securityControl as byte] + t)
      == Some((g.(invocationCounter := None, payload := t[..|g.payload|]), t[|g.payload|..]));
  }

  /** The envelope is written with the length field the size rules pick. */
  lemma LengthForms(n: nat)
    ensures n <= 127 ==> LengthBytes(n) == [n]
    ensures 127 < n <= 255 ==> LengthBytes(n) == [0x81, n]
    ensures 255 < n <= 0xFFFF ==> LengthBytes(n) == [0x82, n / 256, n % 256]
  {
    if 255 < n <= 0xFFFF {
      U16Digits(n);
    }
  }

  /** `GeneralDedCiphering::encrypt`: the ciphertext with the counter and the encryption flag set. */
  function Encrypt(ciphertext: seq<byte>, systemTitle: seq<byte>, invocationCounter: u32, sc: bv8): (g: Ciphered)
    ensures HasFlag(g.securityControl, EncryptionBit) && g.invocationCounter == Some(invocationCounter)
    ensures HasFlag(g.securityControl, AuthenticationBit) == HasFlag(sc, AuthenticationBit)
    ensures SuiteOf(g.securityControl) == SuiteOf(sc)
  {
    WithFlagReadsBack(sc, EncryptionBit, true);
    Ciphered(systemTitle, WithFlag(sc, EncryptionBit, true), Some(invocationCounter), ciphertext)
  }

  /** `GeneralDedCiphering::encrypt_authenticated`: both flags set. */
  function EncryptAuthenticated(ciphertext: seq<byte>, systemTitle: seq<byte>, invocationCounter: u32, sc: bv8): (g: Ciphered)
    ensures HasFlag(g.securityControl, EncryptionBit) && HasFlag(g.securityControl, AuthenticationBit)
    ensures g.invocationCounter == Some(invocationCounter)
    ensures HasFlag(g.securityControl, BroadcastBit) == HasFlag(sc, BroadcastBit)
    ensures HasFlag(g.securityControl, CompressionBit) == HasFlag(sc, CompressionBit)
    ensures SuiteOf(g.securityControl) == SuiteOf(sc)
  {
    var e := WithFlag(sc, EncryptionBit, true);
    WithFlagReadsBack(sc, EncryptionBit, true);
    WithFlagReadsBack(e, AuthenticationBit, true);
    Ciphered(systemTitle, WithFlag(e, AuthenticationBit, true), Some(invocationCounter), ciphertext)
  }

  /** An encrypted envelope always satisfies the counter rule, so it reads back. */
  lemma EncryptedRoundTrip(ciphertext: seq<byte>, systemTitle: seq<byte>, ic: u32, sc: bv8, authenticated: bool, rest: seq<byte>)
    requires |systemTitle| == 8 && |ciphertext| <= 0xFFFF - 5
    ensures var g := if authenticated then EncryptAuthenticated(ciphertext, systemTitle, ic, sc) else Encrypt(ciphertext, systemTitle, ic, sc);
      ParseDed(DedBytes(g) + rest) == Some((g, rest))
  {
    var g := if authenticated then EncryptAuthenticated(ciphertext, systemTitle, ic, sc) else Encrypt(ciphertext, systemTitle, ic, sc);
    DedRoundTrip(g, rest);
  }

  /** The six DED wrappers. */
  datatype DedKind = GetRequest | SetRequest | ActionRequest | GetResponse | SetResponse | ActionResponse

  function DedTag(k: DedKind): byte {
    match k
    case GetRequest => 0xD0
    case SetRequest => 0xD1
    case ActionRequest => 0xD3
    case GetResponse => 0xD4
    case SetResponse => 0xD5
    case ActionResponse => 0xD7
  }

  /** Each wrapper's `encode`: its tag, then the envelope. */
  function WrapperBytes(k: DedKind, g: Ciphered): (s: seq<byte>)
    ensures |s| == 1 + |DedBytes(g)|
    ensures s[0] == DedTag(k) && s[1..] == DedBytes(g)
  {
    [DedTag(k)] + DedBytes(g)
  }

  /** The tag tells the wrappers apart, and the envelope after it reads back. */
  lemma WrapperRoundTrip(k: DedKind, k': DedKind, g: Ciphered, rest: seq<byte>)
    requires Consistent(g)
    ensures DedTag(k) == DedTag(k') ==> k == k'
    ensures var s := WrapperBytes(k, g) + rest; s[0] == DedTag(k) && ParseDed(s[1..]) == Some((g, rest))
  {
    var s := WrapperBytes(k, g) + rest;
    assert s[1..] == DedBytes(g) + rest;
    DedRoundTrip(g, rest);
  }

  /** The length field of `GeneralGloCiphering::parse`: `82 hi lo`, or any other octet (0x81 included) as the length. */
  function ReadGloLength(s: seq<byte>): (r: Option<(nat, seq<byte>)>)
  {
    match TakeByte(s)
    case None => None
    case Some((b, s1)) =>
      if b == 0x82 then
        match TakeU16(s1)
        case None => None
        case Some((n, s2)) => Some((n as nat, s2))
      else Some((b as nat, s1))
  }

  /**
   * `GeneralGloCiphering::parse`. The payload is `length - 5` octets whether or not a counter
   * is present; a length below 5, where the source's subtraction underflows, fails.
   */
  function ParseGlo(s: seq<byte>): (r: Option<(Ciphered, seq<byte>)>)
    ensures r.Some? ==> |s| >= 11 && s[0] == 0x08 && r.value.0.systemTitle == s[1..9]
    ensures r.Some? ==> (r.value.0.invocationCounter.Some? <==> CounterFlagged(r.value.0.securityControl))
  {
    if |s| < 9 || s[0] != 0x08 then None
    else
      match ReadGloLength(s[9..])
      case None => None
      case Some((len, s1)) => if len < 5 then None else GloBody(s[1..9], len - 5, s1)
  }

  /** The fields after the length: the control octet, the counter if flagged, then n payload octets. */
  function GloBody(title: seq<byte>, n: nat, s: seq<byte>): (r: Option<(Ciphered, seq<byte>)>)
    ensures r.Some? ==> |s| >= 1 && r.value.0.systemTitle == title && |r.value.0.payload| == n
    ensures r.Some? ==> (r.value.0.invocationCounter.Some? <==> CounterFlagged(r.value.0.securityControl))
  {
    match ParseSecurityControl(s)
    case None => None
    case Some((sc, s2)) =>
      match ReadCounter(CounterFlagged(sc), s2)
      case None => None
      case Some((ic, s3)) =>
        if |s3| < n then None
        else Some((Ciphered(title, sc, ic, s3[..n]), s3[n..]))
  }

  lemma ReadGloLengthOf(n: nat, rest: seq<byte>)
    requires n <= 127 || 255 < n <= 0xFFFF
    ensures ReadGloLength(LengthBytes(n) + rest) == Some((n, rest))
  {
    if n <= 127 {
      TakeByteOf(n, rest);
    } else {
      LongLengthBytes(n, rest);
      TakeByteOf(0x82, U16Bytes(n) + rest);
      TakeU16Of(n, rest);
    }
  }

  /** The global parser's fields after the length, read from a dedicated envelope with a flagged counter. */
  lemma {:induction false} GloBodyOf(g: Ciphered, rest: seq<byte>)
    requires Consistent(g) && g.invocationCounter.Some?
    ensures GloBody(g.systemTitle, |g.payload|, [g.securityControl as byte] + (CounterBytes(g.invocationCounter) + g.payload) + rest)
      == Some((g, rest))
  {
    var t := CounterBytes(g.invocationCounter) + (g.payload + rest);
    assert [g.securityControl as byte] + (CounterBytes(g.invocationCounter) + g.payload) + rest == [g.securityControl as byte] + t;
    assert ([g.securityControl as byte] + t)[1..] == t;
    ReadCounterOf(g.invocationCounter, g.payload + rest);
    var p := g.payload + rest;
    assert p[..|g.payload|] == g.payload && p[|g.payload|..] == rest;
  }

  /**
   * The global parser reads a dedicated envelope with a flagged counter, unless its length
   * is in 128..255: the encoder writes that as `81 n`, which the global parser does not know.
   */
  lemma {:induction false} GloReadsDed(g: Ciphered, rest: seq<byte>)
    requires Consistent(g) && g.invocationCounter.Some?
    requires TotalLength(g) <= 127 || 255 < TotalLength(g)
    ensures ParseGlo(DedBytes(g) + rest) == Some((g, rest))
  {
    var body := [g.securityControl as byte] + (CounterBytes(g.invocationCounter) + g.payload);
    DedSplit(g, rest);
    ReadGloLengthOf(TotalLength(g), body + rest);
    GloBodyOf(g, rest);
  }

  /**
   * Without a counter the global parser still subtracts 5: of a dedicated envelope with
   * p payload octets it keeps the first p - 4 and leaves the last four unread.
   */
  lemma {:induction false} GloWithoutCounter(g: Ciphered, rest: seq<byte>)
    requires Consistent(g) && g.invocationCounter.None? && |g.payload| >= 4 && TotalLength(g) <= 127
    ensures var n := |g.payload| - 4;
      ParseGlo(DedBytes(g) + rest) == Some((g.(payload := g.payload[..n]), g.payload[n..] + rest))
  {
    var body := [g.securityControl as byte] + (CounterBytes(g.invocationCounter) + g.payload);
    DedSplit(g, rest);
    ReadGloLengthOf(TotalLength(g), body + rest);
    var n := |g.payload| - 4;
    var p := g.payload + rest;
    assert body + rest == [g.securityControl as byte] + p;
    assert ([g.securityControl as byte] + p)[1..] == p;
    assert p[..n] == g.payload[..n] && p[n..] == g.payload[n..] + rest;
  }

  /** The library's example: `08`, a title, length 9, control 0x10, counter 1 and four payload octets. */
  lemma GloExample()
    ensures ParseGlo([0x08, 0x4b, 0x46, 0x4d, 0x10, 0x20, 0x01, 0x12, 0xa9, 0x09, 0x10, 0x00, 0x00, 0x00, 0x01, 0xAA, 0xBB, 0xCC, 0xDD])
      == Some((Ciphered([0x4b, 0x46, 0x4d, 0x10, 0x20, 0x01, 0x12, 0xa9], 0x10, Some(1), [0xAA, 0xBB, 0xCC, 0xDD]), []))
  {
    var g := Ciphered([0x4b, 0x46, 0x4d, 0x10, 0x20, 0x01, 0x12, 0xa9], 0x10, Some(1), [0xAA, 0xBB, 0xCC, 0xDD]);
    ExampleBytes();
    GloReadsDed(g, []);
    assert DedBytes(g) + [] == DedBytes(g);
  }

  lemma ExampleBytes()
    ensures DedBytes(Ciphered([0x4b, 0x46, 0x4d, 0x10, 0x20, 0x01, 0x12, 0xa9], 0x10, Some(1), [0xAA, 0xBB, 0xCC, 0xDD]))
      == [0x08, 0x4b, 0x46, 0x4d, 0x10, 0x20, 0x01, 0x12, 0xa9, 0x09, 0x10, 0x00, 0x00, 0x00, 0x01, 0xAA, 0xBB, 0xCC, 0xDD]
  {
    var g := Ciphered([0x4b, 0x46, 0x4d, 0x10, 0x20, 0x01, 0x12, 0xa9], 0x10, Some(1), [0xAA, 0xBB, 0xCC, 0xDD]);
    assert CounterFlagged(0x10);
    assert TotalLength(g) == 9;
    assert CounterBytes(Some(1)) == [0x00, 0x00, 0x00, 0x01];
  }
}
