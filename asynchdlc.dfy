/**
 * src/transport/hdlc/async.rs: HDLC framing over an asynchronous transport. `wrap_hdlc`
 * builds one I-frame in the transport's 2048-octet frame buffer; `unwrap_hdlc` checks a
 * received frame and copies what follows its header into the caller's buffer.
 *
 * The frame is: flag, format 0xA0, length, server address, client address, control 0x10,
 * HCS (low octet first), LLC header E6 E6 00, data, FCS (low octet first), flag.
 */
module AsyncHdlc {
  import opened Bytes
  import opened HdlcCodec

  /** `usize` arithmetic wraps modulo 2^64. */
  const UsizeModulus: int := 0x1_0000_0000_0000_0000

  /** The largest slice length, `isize::MAX`, plus one. */
  const SliceLimit: int := 0x8000_0000_0000_0000

  /** `MAX_HDLC_FRAME_SIZE - HDLC_MAX_OVERHEAD_BYTES`: the most data one frame carries. */
  const MaxDataSize: nat := MaxHdlcFrameSize - HdlcMaxOverheadBytes

  // ---------------------------------------------------------------------------------------
  // The frames `wrap_hdlc` sends.

  /** Octets 1 up to the HCS: format, length, destination (server) and source (client) addresses, control. */
  function Header(lengthByte: byte, server: u32, client: u32): seq<byte> {
    [HdlcFormatType3, lengthByte] + AddressBytes(server) + AddressBytes(client) + [HdlcControlIFrame]
  }

  /** Octets 1 up to the FCS: the header, its HCS, the LLC header and the data. */
  function Body(lengthByte: byte, server: u32, client: u32, data: seq<byte>): seq<byte> {
    Header(lengthByte, server, client) + LowHigh(Fcs(Header(lengthByte, server, client))) + LlcHeader + data
  }

  /** The frame whose length position holds `lengthByte` when both check sequences are computed. */
  function FrameWith(lengthByte: byte, server: u32, client: u32, data: seq<byte>): seq<byte> {
    [HdlcFlag] + Body(lengthByte, server, client, data) + LowHigh(Fcs(Body(lengthByte, server, client, data))) + [HdlcFlag]
  }

  /** Flag, format, length, the addresses, control, HCS, LLC header, data, FCS, flag. */
  function FrameSize(server: u32, client: u32, data: seq<byte>): nat {
    12 + AddressSize(server) + AddressSize(client) + |data|
  }

  /** `frame_length as u8`: the frame size without the two flags, truncated to eight bits. */
  function LengthByte(server: u32, client: u32, data: seq<byte>): byte {
    (FrameSize(server, client, data) - 2) % 256
  }

  /** A frame as the HDLC layout intends it: the length is in place before HCS and FCS are computed. */
  function Frame(server: u32, client: u32, data: seq<byte>): seq<byte> {
    FrameWith(LengthByte(server, client, data), server, client, data)
  }

  /**
   * The frame `wrap_hdlc` sends: HCS and FCS are computed while the length position still
   * holds `stale`, the octet the buffer had there before, and the length is written last.
   */
  function WrittenFrame(stale: byte, server: u32, client: u32, data: seq<byte>): (f: seq<byte>)
    ensures |f| == FrameSize(server, client, data)
  {
    FrameLength(stale, server, client, data);
    FrameWith(stale, server, client, data)[2 := LengthByte(server, client, data)]
  }

  /** Where each part of a frame lies. */
  lemma FrameLength(lengthByte: byte, server: u32, client: u32, data: seq<byte>)
    ensures |Header(lengthByte, server, client)| == 3 + AddressSize(server) + AddressSize(client)
    ensures |Body(lengthByte, server, client, data)| == 8 + AddressSize(server) + AddressSize(client) + |data|
    ensures |FrameWith(lengthByte, server, client, data)| == FrameSize(server, client, data)
  {
  }

  /**
   * The layout of a frame, octet by octet: the flags at both ends, the length octet at 2,
   * the server address from 3 on, then the client address, and the FCS just before the
   * closing flag.
   */
  lemma FrameLayout(lengthByte: byte, server: u32, client: u32, data: seq<byte>)
    ensures var f, ks := FrameWith(lengthByte, server, client, data), AddressSize(server);
      |f| == FrameSize(server, client, data)
      && f[0] == HdlcFlag && f[1] == HdlcFormatType3 && f[2] == lengthByte && f[|f| - 1] == HdlcFlag
      && f[3..3 + ks] == AddressBytes(server)
      && f[1..|f| - 3] == Body(lengthByte, server, client, data)
      && f[|f| - 3..|f| - 1] == LowHigh(Fcs(Body(lengthByte, server, client, data)))
      && f[3 + ks..|f| - 3] == HeaderTail(lengthByte, server, client) + data
  {
    var f := FrameWith(lengthByte, server, client, data);
    var b := Body(lengthByte, server, client, data);
    var ks := AddressSize(server);
    FrameLength(lengthByte, server, client, data);
    Enveloped(b, LowHigh(Fcs(b)), f);
    BodyLayout(lengthByte, server, client, data);
    assert f[1..|f| - 3] == b;
    SliceWithin(f, 1, b, 0, 2 + ks);
    SliceWithin(f, 1, b, 2, 2 + ks);
    SliceWithin(f, 1, b, 2 + ks, |b|);
  }

  /** The body: format, length, server address, then the header tail and the data. */
  lemma BodyLayout(lengthByte: byte, server: u32, client: u32, data: seq<byte>)
    ensures var b, ks := Body(lengthByte, server, client, data), AddressSize(server);
      |b| == 8 + ks + AddressSize(client) + |data|
      && b[..2 + ks] == [HdlcFormatType3, lengthByte] + AddressBytes(server)
      && b[2..2 + ks] == AddressBytes(server)
      && b[2 + ks..] == HeaderTail(lengthByte, server, client) + data
  {
    var sa, ca := AddressBytes(server), AddressBytes(client);
    var hcs := LowHigh(Fcs(Header(lengthByte, server, client)));
    Regrouped([HdlcFormatType3, lengthByte], sa, ca, [HdlcControlIFrame], hcs, LlcHeader, data);
    Split3([HdlcFormatType3, lengthByte], sa, ca + [HdlcControlIFrame] + hcs + LlcHeader + data);
  }

  /** `+` regrouped: the header's pieces, the HCS, the LLC header and the data. */
  lemma Regrouped(p: seq<byte>, sa: seq<byte>, ca: seq<byte>, c: seq<byte>, hcs: seq<byte>, llc: seq<byte>, data: seq<byte>)
    ensures p + sa + ca + c + hcs + llc + data == (p + sa) + (ca + c + hcs + llc + data)
  {
  }

  /** The three pieces of `p + q + r`. */
  lemma Split3(p: seq<byte>, q: seq<byte>, r: seq<byte>)
    ensures (p + q + r)[..|p| + |q|] == p + q
    ensures (p + q + r)[|p|..|p| + |q|] == q
    ensures (p + q + r)[|p| + |q|..] == r
  {
  }

  /** Between the flags: `b`, then the two octets `c`. */
  lemma Enveloped(b: seq<byte>, c: seq<byte>, f: seq<byte>)
    requires |c| == 2 && f == [HdlcFlag] + b + c + [HdlcFlag]
    ensures |f| == |b| + 4 && f[0] == HdlcFlag && f[|f| - 1] == HdlcFlag
    ensures f[1..|f| - 3] == b && f[|f| - 3..|f| - 1] == c
  {
  }

  /** A slice of a piece is a slice of the whole. */
  lemma SliceWithin(f: seq<byte>, off: nat, b: seq<byte>, i: nat, j: nat)
    requires off + |b| <= |f| && f[off..off + |b|] == b && i <= j <= |b|
    ensures f[off + i..off + j] == b[i..j]
  {
    forall k | 0 <= k < j - i
      ensures f[off + i..off + j][k] == b[i..j][k]
    {
      assert f[off + i + k] == f[off..off + |b|][i + k];
    }
  }

  /** What follows the server address up to the data: the client address, control, HCS and LLC header. */
  function HeaderTail(lengthByte: byte, server: u32, client: u32): (t: seq<byte>)
    ensures |t| == AddressSize(client) + 6
  {
    AddressBytes(client) + [HdlcControlIFrame] + LowHigh(Fcs(Header(lengthByte, server, client))) + LlcHeader
  }

  /**
   * The octets `unwrap_hdlc` returns ahead of the data: it skips only one address, so it
   * starts copying six octets into the header tail and keeps the last client-address-size octets.
   */
  function Leftover(lengthByte: byte, server: u32, client: u32): (t: seq<byte>)
    ensures |t| == AddressSize(client)
  {
    HeaderTail(lengthByte, server, client)[6..]
  }

  /** With a one-octet client address that is the LLC quality octet 0x00. */
  lemma OneOctetClientLeftover(lengthByte: byte, server: u32, client: u32)
    requires client <= 0x7F
    ensures Leftover(lengthByte, server, client) == [0x00]
  {
    var t := HeaderTail(lengthByte, server, client);
    assert t[6] == LlcHeader[2];
  }

  /** The length octet is the frame size without the flags as long as that fits in eight bits. */
  lemma LengthByteTruncated(server: u32, client: u32, data: seq<byte>)
    ensures FrameSize(server, client, data) <= 257 ==> LengthByte(server, client, data) == FrameSize(server, client, data) - 2
    ensures FrameSize(server, client, data) == 258 ==> LengthByte(server, client, data) == 0
  {
  }

  // ---------------------------------------------------------------------------------------
  // What `unwrap_hdlc` accepts.

  /**
   * The address scan: from `pos` on, past the octets whose low bit is 0, but never past
   * four octets before the end.
   */
  function ScanAddress(frame: seq<byte>, pos: nat): (r: nat)
    requires 4 <= |frame| && pos <= |frame| - 4
    ensures pos <= r <= |frame| - 4
    ensures forall i :: pos <= i < r ==> frame[i] % 2 == 0
    ensures r < |frame| - 4 ==> frame[r] % 2 == 1
    decreases |frame| - pos
  {
    if pos < |frame| - 4 && frame[pos] % 2 == 0 then ScanAddress(frame, pos + 1) else pos
  }

  /** The scan stops at the first octet with the low bit set, if there is one before the limit. */
  lemma ScanStopsAtOdd(frame: seq<byte>, pos: nat, stop: nat)
    requires 4 <= |frame| && pos <= stop < |frame| - 4
    requires frame[stop] % 2 == 1
    requires forall i :: pos <= i < stop ==> frame[i] % 2 == 0
    ensures ScanAddress(frame, pos) == stop
  {
  }

  /** The read position after the scan, the last address octet, the control octet and the HCS. */
  function InfoStart(frame: seq<byte>): (pos: nat)
    requires |frame| >= HdlcMinFrameSize
    ensures 6 <= pos <= |frame| - 1
  {
    var scanned := ScanAddress(frame, 3);
    (if scanned < |frame| - 4 then scanned + 1 else scanned) + 1 + 2
  }

  /** `a - b` on `usize`: below zero it wraps around, as a release build computes it. */
  function WrappingSub(a: nat, b: nat): (r: nat)
    requires a < UsizeModulus && b < UsizeModulus
    ensures r < UsizeModulus
    ensures b <= a ==> r == a - b
    ensures a < b ==> r == UsizeModulus - (b - a)
  {
    if b <= a then a - b else a - b + UsizeModulus
  }

  /**
   * The FCS check of `unwrap_hdlc`: the two octets before the closing flag hold the FCS of
   * the octets between the opening flag and them, low octet first.
   */
  predicate FcsMatches(frame: seq<byte>)
    requires |frame| >= 4
  {
    LowHigh(Fcs(frame[1..|frame| - 3])) == [frame[|frame| - 3], frame[|frame| - 2]]
  }

  /** `u16::from_le_bytes`. */
  function FromLeBytes(low: byte, high: byte): (v: nat)
    ensures v < 0x1_0000
  {
    low as int + 256 * high as int
  }

  /**
   * The received FCS read as a little-endian `u16` equals the computed one exactly when the
   * two octets are the computed register stored low octet first; `Unwrap` compares octets.
   */
  lemma ReceivedFcs(x: bv16, low: byte, high: byte)
    ensures FromLeBytes(low, high) == x as int <==> LowHigh(x) == [low, high]
  {
    LowHighValue(x);
  }

  /**
   * The outcome of `unwrap_hdlc` on `frame` with an output buffer of `capacity` octets:
   * the copied octets, or the first check that fails.
   */
  function Unwrap(frame: seq<byte>, capacity: nat): (r: Result<seq<byte>, HdlcError>)
    requires capacity < SliceLimit && |frame| < SliceLimit
    ensures r.Ok? ==> |r.value| <= capacity && |frame| >= HdlcMinFrameSize
    ensures r.Ok? ==> frame[0] == HdlcFlag && frame[|frame| - 1] == HdlcFlag
    ensures r.Ok? ==> FcsMatches(frame)
  {
    if |frame| < HdlcMinFrameSize then Err(FrameTooShort)
    else if frame[0] != HdlcFlag then Err(InvalidFlag)
    else
      var pos := InfoStart(frame);
      var fcsPos := |frame| - 3;
      var infoLen := WrappingSub(fcsPos, pos);
      if infoLen < |LlcHeader| then Err(InvalidFrame)
      else if !FcsMatches(frame) then Err(FcsError)
      else if frame[|frame| - 1] != HdlcFlag then Err(InvalidFlag)
      else if infoLen - |LlcHeader| > capacity then Err(BufferTooSmall)
      else Ok(frame[pos + 3..fcsPos])
  }

  /** What `unwrap_hdlc` returns for an outcome of `Unwrap`: the number of octets copied, or the error. */
  function Copied(outcome: Result<seq<byte>, HdlcError>): (r: Result<nat, HdlcError>)
    ensures r.Ok? <==> outcome.Ok?
    ensures r.Ok? ==> r.value == |outcome.value|
    ensures r.Err? ==> r.error == outcome.error
  {
    match outcome
    case Ok(octets) => Ok(|octets|)
    case Err(e) => Err(e)
  }

  /** The checks of `Unwrap` that follow the address scan. */
  lemma UnwrapAfterScan(frame: seq<byte>, capacity: nat)
    requires capacity < SliceLimit && |frame| < SliceLimit
    requires |frame| >= HdlcMinFrameSize && frame[0] == HdlcFlag
    ensures var pos, fcsPos := InfoStart(frame), |frame| - 3;
      var infoLen := WrappingSub(fcsPos, pos);
      Unwrap(frame, capacity)
      == if infoLen < |LlcHeader| then Err(InvalidFrame)
         else if !FcsMatches(frame) then Err(FcsError)
         else if frame[|frame| - 1] != HdlcFlag then Err(InvalidFlag)
         else if infoLen - |LlcHeader| > capacity then Err(BufferTooSmall)
         else Ok(frame[pos + 3..fcsPos])
  {
  }

  /** The first two checks: frames shorter than eleven octets, then a wrong opening flag. */
  lemma UnwrapRefusals(frame: seq<byte>, capacity: nat)
    requires capacity < SliceLimit && |frame| < SliceLimit
    ensures |frame| < HdlcMinFrameSize ==> Unwrap(frame, capacity) == Err(FrameTooShort)
    ensures |frame| >= HdlcMinFrameSize && frame[0] != HdlcFlag ==> Unwrap(frame, capacity) == Err(InvalidFlag)
  {
  }

  /**
   * An eleven-octet frame whose octets 3 to 6 all have the low bit clear: the scan stops at
   * 7, the read position passes the FCS position, and `fcs_pos - pos` underflows. A release
   * build wraps it to a huge length, so the frame is never refused as too short for the LLC
   * header, and it can at best fail later.
   */
  lemma ShortFrameLengthWraps(frame: seq<byte>, capacity: nat)
    requires capacity < SliceLimit && |frame| == HdlcMinFrameSize && frame[0] == HdlcFlag
    requires forall k :: 3 <= k < 7 ==> frame[k] % 2 == 0
    ensures InfoStart(frame) == |frame| - 1
    ensures WrappingSub(|frame| - 3, InfoStart(frame)) == UsizeModulus - 2
    ensures Unwrap(frame, capacity).Err? && Unwrap(frame, capacity) != Err(InvalidFrame)
  {
  }

  /**
   * Every frame laid out with its length in place passes the checks of `unwrap_hdlc`. What
   * it returns is the data preceded by the last client-address-size octets of the header
   * tail, or `BufferTooSmall` when that does not fit.
   */
  lemma FrameUnwrapped(server: u32, client: u32, data: seq<byte>, capacity: nat)
    requires |data| <= MaxDataSize && capacity < SliceLimit
    ensures Unwrap(Frame(server, client, data), capacity)
      == if AddressSize(client) + |data| > capacity then Err(BufferTooSmall)
         else Ok(Leftover(LengthByte(server, client, data), server, client) + data)
  {
    var lb := LengthByte(server, client, data);
    var f := Frame(server, client, data);
    ChecksPass(lb, server, client, data);
    LeftoverAt(lb, server, client, data);
  }

  /** With one-octet addresses on both sides, the data comes back behind the octet 0x00. */
  lemma OneOctetAddressesUnwrapped(server: u32, client: u32, data: seq<byte>, capacity: nat)
    requires server <= 0x7F && client <= 0x7F
    requires |data| <= MaxDataSize && |data| < capacity < SliceLimit
    ensures Unwrap(Frame(server, client, data), capacity) == Ok([0x00] + data)
  {
    FrameUnwrapped(server, client, data, capacity);
    OneOctetClientLeftover(LengthByte(server, client, data), server, client);
  }

  /** The scan and the length checks on a frame laid out by `FrameWith`, whatever its length octet. */
  lemma ScanOfFrame(lengthByte: byte, server: u32, client: u32, data: seq<byte>)
    requires |data| <= MaxDataSize
    ensures var f := FrameWith(lengthByte, server, client, data);
      |f| >= HdlcMinFrameSize && InfoStart(f) == 6 + AddressSize(server)
  {
    var f := FrameWith(lengthByte, server, client, data);
    var ks := AddressSize(server);
    FrameLayout(lengthByte, server, client, data);
    var a := AddressBytes(server);
    assert f[3..3 + ks] == a;
    forall i | 3 <= i < 2 + ks
      ensures f[i] % 2 == 0
    {
      assert f[i] == a[i - 3];
    }
    assert f[2 + ks] == a[ks - 1];
    ScanStopsAtOdd(f, 3, 2 + ks);
  }

  /** A frame laid out by `FrameWith` passes every check but the size of the output. */
  lemma ChecksPass(lengthByte: byte, server: u32, client: u32, data: seq<byte>)
    requires |data| <= MaxDataSize
    ensures var f := FrameWith(lengthByte, server, client, data);
      |f| >= HdlcMinFrameSize && f[0] == HdlcFlag && f[|f| - 1] == HdlcFlag
      && InfoStart(f) == 6 + AddressSize(server)
      && WrappingSub(|f| - 3, InfoStart(f)) == 3 + AddressSize(client) + |data|
      && FcsMatches(f)
  {
    var f := FrameWith(lengthByte, server, client, data);
    var b := Body(lengthByte, server, client, data);
    FrameLayout(lengthByte, server, client, data);
    ScanOfFrame(lengthByte, server, client, data);
    var stored := f[|f| - 3..|f| - 1];
    assert stored == LowHigh(Fcs(b));
    assert f[|f| - 3] == stored[0] && f[|f| - 2] == stored[1];
  }

  /** Where the copy starts in a frame laid out by `FrameWith`: the leftover octets, then the data. */
  lemma LeftoverAt(lengthByte: byte, server: u32, client: u32, data: seq<byte>)
    ensures var f, ks := FrameWith(lengthByte, server, client, data), AddressSize(server);
      |f| == FrameSize(server, client, data)
      && f[9 + ks..|f| - 3] == Leftover(lengthByte, server, client) + data
  {
    var f := FrameWith(lengthByte, server, client, data);
    var ks := AddressSize(server);
    var t := HeaderTail(lengthByte, server, client);
    FrameLayout(lengthByte, server, client, data);
    assert f[3 + ks..|f| - 3] == t + data;
    assert f[9 + ks..|f| - 3] == (t + data)[6..];
    assert (t + data)[6..] == t[6..] + data;
  }

  /**
   * What `wrap_hdlc` sends is refused by `unwrap_hdlc` with `FcsError` exactly when the
   * octet left in the length position differs from the new length: the FCS was computed
   * over the old octet.
   */
  lemma WrittenFrameChecked(stale: byte, server: u32, client: u32, data: seq<byte>, capacity: nat)
    requires |data| <= MaxDataSize && capacity < SliceLimit
    ensures Unwrap(WrittenFrame(stale, server, client, data), capacity) == Err(FcsError)
      <==> stale != LengthByte(server, client, data)
  {
    if stale == LengthByte(server, client, data) {
      var f := FrameWith(stale, server, client, data);
      FrameLength(stale, server, client, data);
      FrameLayout(stale, server, client, data);
      assert f[2 := stale] == f;
      FrameUnwrapped(server, client, data, capacity);
    } else {
      WrittenFrameRefused(stale, server, client, data, capacity);
    }
  }

  /**
   * When the length position already holds the new length (the previous frame had the same
   * size), the frame as written is the intended frame: a second `send` of equally long data
   * puts a frame on the wire that passes its own FCS check.
   */
  lemma StaleLengthMatches(server: u32, client: u32, data: seq<byte>)
    requires |data| <= MaxDataSize
    ensures WrittenFrame(LengthByte(server, client, data), server, client, data) == Frame(server, client, data)
  {
    var stale := LengthByte(server, client, data);
    var f := FrameWith(stale, server, client, data);
    FrameLength(stale, server, client, data);
    FrameLayout(stale, server, client, data);
    assert f[2 := stale] == f;
  }

  lemma WrittenFrameRefused(stale: byte, server: u32, client: u32, data: seq<byte>, capacity: nat)
    requires |data| <= MaxDataSize && capacity < SliceLimit
    requires stale != LengthByte(server, client, data)
    ensures Unwrap(WrittenFrame(stale, server, client, data), capacity) == Err(FcsError)
  {
    var f := FrameWith(stale, server, client, data);
    var g := WrittenFrame(stale, server, client, data);
    ChecksPass(stale, server, client, data);
    assert |g| == |f| && g[0] == f[0];
    SameScan(f, g);
    WrittenFcsWrong(stale, server, client, data);
    UnwrapAfterScan(g, capacity);
  }

  /** The FCS stored in what `wrap_hdlc` sends does not match the octets it covers once the length octet changed. */
  lemma WrittenFcsWrong(stale: byte, server: u32, client: u32, data: seq<byte>)
    requires |data| <= MaxDataSize
    requires stale != LengthByte(server, client, data)
    ensures !FcsMatches(WrittenFrame(stale, server, client, data))
  {
    var lb := LengthByte(server, client, data);
    var f := FrameWith(stale, server, client, data);
    var g := WrittenFrame(stale, server, client, data);
    var b := Body(stale, server, client, data);
    WrittenOctets(stale, server, client, data);
    WrittenFcsDiffers(stale, server, client, data);
    FcsMismatch(g, Fcs(b));
  }

  /** The checked octets differ from the body the FCS was computed over in the length octet only. */
  lemma WrittenFcsDiffers(stale: byte, server: u32, client: u32, data: seq<byte>)
    requires |data| <= MaxDataSize
    requires stale != LengthByte(server, client, data)
    ensures var g := WrittenFrame(stale, server, client, data);
      |g| >= 4 && Fcs(g[1..|g| - 3]) != Fcs(Body(stale, server, client, data))
  {
    var b := Body(stale, server, client, data);
    WrittenOctets(stale, server, client, data);
    SingleOctetChangeDetected([HdlcFormatType3], LengthByte(server, client, data), stale, b[2..]);
  }

  /** A frame whose FCS octets store a register other than the FCS of what they cover fails the check. */
  lemma FcsMismatch(frame: seq<byte>, y: bv16)
    requires |frame| >= 4 && Fcs(frame[1..|frame| - 3]) != y
    requires [frame[|frame| - 3], frame[|frame| - 2]] == LowHigh(y)
    ensures !FcsMatches(frame)
  {
    var x := Fcs(frame[1..|frame| - 3]);
    if LowHigh(x) == LowHigh(y) {
      LowHighInjective(x, y);
    }
  }

  /** What `wrap_hdlc` sends around the length octet: the body it checked, with that octet replaced. */
  lemma WrittenOctets(stale: byte, server: u32, client: u32, data: seq<byte>)
    ensures var f, g := FrameWith(stale, server, client, data), WrittenFrame(stale, server, client, data);
      var b := Body(stale, server, client, data);
      |g| == |f| == |b| + 4 && |b| >= 2
      && b == [HdlcFormatType3] + [stale] + b[2..]
      && g[1..|g| - 3] == [HdlcFormatType3] + [LengthByte(server, client, data)] + b[2..]
      && [g[|g| - 3], g[|g| - 2]] == LowHigh(Fcs(b))
  {
    var lb := LengthByte(server, client, data);
    var f := FrameWith(stale, server, client, data);
    var g := WrittenFrame(stale, server, client, data);
    var b := Body(stale, server, client, data);
    FrameLayout(stale, server, client, data);
    assert f[1..|f| - 3] == b;
    assert b == [HdlcFormatType3] + [stale] + b[2..];
    assert g[1..|g| - 3] == f[1..|f| - 3][1 := lb];
    assert g[|g| - 3] == f[|f| - 3] && g[|g| - 2] == f[|f| - 2];
  }

  /** Two frames that differ only in octet 2 are scanned alike. */
  lemma SameScan(f: seq<byte>, g: seq<byte>)
    requires |f| == |g| >= HdlcMinFrameSize
    requires forall i :: 0 <= i < |f| && i != 2 ==> f[i] == g[i]
    ensures InfoStart(f) == InfoStart(g)
  {
    ScansAgree(f, g, 3);
  }

  lemma {:induction false} ScansAgree(f: seq<byte>, g: seq<byte>, pos: nat)
    requires |f| == |g| >= HdlcMinFrameSize && 3 <= pos <= |f| - 4
    requires forall i :: 0 <= i < |f| && i != 2 ==> f[i] == g[i]
    ensures ScanAddress(f, pos) == ScanAddress(g, pos)
    decreases |f| - pos
  {
    if pos < |f| - 4 && f[pos] % 2 == 0 {
      ScansAgree(f, g, pos + 1);
    }
  }

  /**
   * The doc example's transport, client 0x01 and server 0x10, with a zeroed frame buffer:
   * its first frame carrying two octets has the length 14 and is refused by its peer.
   */
  lemma FirstFrameRefused(data: seq<byte>, capacity: nat)
    requires |data| == 2 && capacity < SliceLimit
    ensures LengthByte(0x10, 0x01, data) == 14
    ensures Unwrap(WrittenFrame(0, 0x10, 0x01, data), capacity) == Err(FcsError)
  {
    WrittenFrameRefused(0, 0x10, 0x01, data, capacity);
  }

  /** `AsyncHdlcTransport` without the inner transport it sends through. */
  class AsyncHdlcTransport {
    const clientAddress: u32
    const serverAddress: u32
    const frameBuffer: array<byte>
    const recvBuffer: array<byte>
    var recvLen: nat

    ghost predicate Valid() {
      frameBuffer.Length == MaxHdlcFrameSize && recvBuffer.Length == MaxHdlcFrameSize && frameBuffer != recvBuffer
    }

    /** `new`: both buffers zeroed, nothing received. */
    constructor (client: u32, server: u32)
      ensures Valid() && fresh(frameBuffer) && fresh(recvBuffer)
      ensures clientAddress == client && serverAddress == server && recvLen == 0
      ensures forall i :: 0 <= i < MaxHdlcFrameSize ==> frameBuffer[i] == 0 && recvBuffer[i] == 0
    {
      clientAddress := client;
      serverAddress := server;
      frameBuffer := new byte[MaxHdlcFrameSize](_ => 0);
      recvBuffer := new byte[MaxHdlcFrameSize](_ => 0);
      recvLen := 0;
    }

    /**
     * `wrap_hdlc` as written: the frame is built with the length position untouched, then the
     * length is stored there. Leaving the octet untouched is writing back the octet that is
     * already there, so the build is `WriteFrame` with that octet.
     */
    method WrapHdlc(data: seq<byte>) returns (r: Result<nat, HdlcError>)
      requires Valid()
      modifies frameBuffer
      ensures |data| > MaxDataSize ==> r == Err(FrameTooLarge) && frameBuffer[..] == old(frameBuffer[..])
      ensures |data| <= MaxDataSize ==> r == Ok(FrameSize(serverAddress, clientAddress, data))
      ensures |data| <= MaxDataSize ==>
        frameBuffer[..r.value] == WrittenFrame(old(frameBuffer[2]), serverAddress, clientAddress, data)
        && frameBuffer[r.value..] == old(frameBuffer[r.value..])
    {
      if |data| > MaxHdlcFrameSize - HdlcMaxOverheadBytes {
        return Err(FrameTooLarge);
      }
      var stale := frameBuffer[2];
      var pos := WriteFrame(stale, data);
      ghost var built := frameBuffer[..pos];
      frameBuffer[2] := (pos - 2) % 256;
      assert frameBuffer[..pos] == built[2 := LengthByte(serverAddress, clientAddress, data)];
      return Ok(pos);
    }

    /** `wrap_hdlc` with the length stored before the check sequences are computed. */
    method WrapHdlcCorrected(data: seq<byte>) returns (r: Result<nat, HdlcError>)
      requires Valid()
      modifies frameBuffer
      ensures |data| > MaxDataSize ==> r == Err(FrameTooLarge) && frameBuffer[..] == old(frameBuffer[..])
      ensures |data| <= MaxDataSize ==> r == Ok(FrameSize(serverAddress, clientAddress, data))
      ensures |data| <= MaxDataSize ==>
        frameBuffer[..r.value] == Frame(serverAddress, clientAddress, data)
        && frameBuffer[r.value..] == old(frameBuffer[r.value..])
    {
      if |data| > MaxHdlcFrameSize - HdlcMaxOverheadBytes {
        return Err(FrameTooLarge);
      }
      var frameLength := 10 + AddressSize(serverAddress) + AddressSize(clientAddress) + |data|;
      assert frameLength % 256 == LengthByte(serverAddress, clientAddress, data);
      var pos := WriteFrame(frameLength % 256, data);
      return Ok(pos);
    }

    /**
     * `send`: the frame is built in the frame buffer by `wrap_hdlc` as written and handed to the
     * inner transport; `accepted` is whether that transport took it. The result is the frame put
     * on the wire, whose check sequences cover the octet the length position held before.
     */
    method Send(data: seq<byte>, accepted: bool) returns (r: Result<seq<byte>, HdlcError>)
      requires Valid()
      modifies frameBuffer
      ensures |data| > MaxDataSize ==> r == Err(FrameTooLarge) && frameBuffer[..] == old(frameBuffer[..])
      ensures |data| <= MaxDataSize && !accepted ==> r == Err(TransportError)
      ensures |data| <= MaxDataSize && accepted ==>
        r == Ok(WrittenFrame(old(frameBuffer[2]), serverAddress, clientAddress, data))
      ensures |data| <= MaxDataSize ==>
        frameBuffer[..FrameSize(serverAddress, clientAddress, data)] == WrittenFrame(old(frameBuffer[2]), serverAddress, clientAddress, data)
        && frameBuffer[2] == LengthByte(serverAddress, clientAddress, data)
        && frameBuffer[FrameSize(serverAddress, clientAddress, data)..] == old(frameBuffer[FrameSize(serverAddress, clientAddress, data)..])
    {
      var wrapped := WrapHdlc(data);
      if wrapped.Err? {
        return Err(wrapped.error);
      }
      var frame := frameBuffer[..wrapped.value];
      assert frameBuffer[2] == frame[2];
      if !accepted {
        return Err(TransportError);
      }
      return Ok(frame);
    }

    /** `send` over the corrected `wrap_hdlc`: the frame put on the wire is the intended frame. */
    method SendCorrected(data: seq<byte>, accepted: bool) returns (r: Result<seq<byte>, HdlcError>)
      requires Valid()
      modifies frameBuffer
      ensures |data| > MaxDataSize ==> r == Err(FrameTooLarge) && frameBuffer[..] == old(frameBuffer[..])
      ensures |data| <= MaxDataSize && !accepted ==> r == Err(TransportError)
      ensures |data| <= MaxDataSize && accepted ==> r == Ok(Frame(serverAddress, clientAddress, data))
      ensures |data| <= MaxDataSize ==>
        frameBuffer[..FrameSize(serverAddress, clientAddress, data)] == Frame(serverAddress, clientAddress, data)
        && frameBuffer[FrameSize(serverAddress, clientAddress, data)..] == old(frameBuffer[FrameSize(serverAddress, clientAddress, data)..])
    {
      var wrapped := WrapHdlcCorrected(data);
      if wrapped.Err? {
        return Err(wrapped.error);
      }
      var frame := frameBuffer[..wrapped.value];
      if !accepted {
        return Err(TransportError);
      }
      return Ok(frame);
    }

    /**
     * `recv`: `delivered` is what the inner transport wrote into the receive buffer. Nothing
     * delivered is a transport error; otherwise its length is kept and it is unwrapped into `output`.
     */
    method Recv(delivered: seq<byte>, output: array<byte>) returns (r: Result<nat, HdlcError>)
      requires Valid() && |delivered| <= MaxHdlcFrameSize && output.Length < SliceLimit
      requires output != recvBuffer && output != frameBuffer
      modifies this, recvBuffer, output
      ensures |delivered| == 0 ==> r == Err(TransportError) && recvLen == old(recvLen) && unchanged(output)
      ensures |delivered| > 0 ==> recvLen == |delivered| && recvBuffer[..recvLen] == delivered
      ensures |delivered| > 0 ==> r == Copied(Unwrap(delivered, output.Length))
      ensures r.Ok? ==> output[..r.value] == Unwrap(delivered, output.Length).value
    {
      if |delivered| == 0 {
        return Err(TransportError);
      }
      CopySlice(recvBuffer, 0, delivered);
      recvLen := |delivered|;
      r := UnwrapHdlc(recvBuffer[..recvLen], output);
    }

    /** The body of `wrap_hdlc` from the opening flag to the closing one, with `lengthByte` in the length position. */
    method WriteFrame(lengthByte: byte, data: seq<byte>) returns (pos: nat)
      requires Valid() && |data| <= MaxDataSize
      modifies frameBuffer
      ensures pos == FrameSize(serverAddress, clientAddress, data)
      ensures frameBuffer[..pos] == FrameWith(lengthByte, serverAddress, clientAddress, data)
      ensures frameBuffer[pos..] == old(frameBuffer[pos..])
    {
      ghost var size := FrameSize(serverAddress, clientAddress, data);
      ghost var tail := frameBuffer[size..];
      FrameLength(lengthByte, serverAddress, clientAddress, data);
      pos := 0;
      frameBuffer[pos] := HdlcFlag;
      pos := pos + 1;
      frameBuffer[pos] := HdlcFormatType3;
      pos := pos + 1;
      frameBuffer[pos] := lengthByte;
      pos := pos + 1;
      // `w` is what the buffer holds before `pos`.
      ghost var w: seq<byte> := [HdlcFlag] + [HdlcFormatType3, lengthByte];
      assert frameBuffer[..pos] == w;
      assert frameBuffer[size..] == tail;

      pos := PutAddress(serverAddress, pos, w, size, tail);
      w := w + AddressBytes(serverAddress);
      pos := PutAddress(clientAddress, pos, w, size, tail);
      w := w + AddressBytes(clientAddress);
      pos := Put(pos, [HdlcControlIFrame], w, size, tail);
      w := w + [HdlcControlIFrame];
      ghost var header := Header(lengthByte, serverAddress, clientAddress);
      Regrouped4([HdlcFlag], [HdlcFormatType3, lengthByte], AddressBytes(serverAddress), AddressBytes(clientAddress), [HdlcControlIFrame]);
      FlagDropped(frameBuffer[..], pos, header);

      var hcs := ComputeFcs(frameBuffer[1..pos]);
      pos := Put(pos, LowHigh(hcs), w, size, tail);
      w := w + LowHigh(hcs);
      pos := Put(pos, LlcHeader, w, size, tail);
      w := w + LlcHeader;
      pos := Put(pos, data, w, size, tail);
      w := w + data;
      ghost var body := Body(lengthByte, serverAddress, clientAddress, data);
      Regrouped4([HdlcFlag], header, LowHigh(hcs), LlcHeader, data);
      FlagDropped(frameBuffer[..], pos, body);

      var fcs := ComputeFcs(frameBuffer[1..pos]);
      pos := Put(pos, LowHigh(fcs), w, size, tail);
      w := w + LowHigh(fcs);
      pos := Put(pos, [HdlcFlag], w, size, tail);
    }

    /** Stores `piece` at `pos`, behind the octets `written`, leaving the octets from `size` on alone. */
    method Put(pos: nat, piece: seq<byte>, ghost written: seq<byte>, ghost size: nat, ghost tail: seq<byte>) returns (next: nat)
      requires |written| == pos && pos + |piece| <= size <= frameBuffer.Length
      requires frameBuffer[..pos] == written && frameBuffer[size..] == tail
      modifies frameBuffer
      ensures next == pos + |piece|
      ensures frameBuffer[..next] == written + piece && frameBuffer[size..] == tail
    {
      ghost var before := frameBuffer[..];
      CopySlice(frameBuffer, pos, piece);
      Extended(before, frameBuffer[..], pos, written, piece, size, tail);
      next := pos + |piece|;
    }

    /** `encode_address` at `pos`, behind the octets `written`, leaving the octets from `size` on alone. */
    method PutAddress(address: u32, pos: nat, ghost written: seq<byte>, ghost size: nat, ghost tail: seq<byte>) returns (next: nat)
      requires |written| == pos && pos + AddressSize(address) <= size <= frameBuffer.Length
      requires frameBuffer[..pos] == written && frameBuffer[size..] == tail
      modifies frameBuffer
      ensures next == pos + AddressSize(address)
      ensures frameBuffer[..next] == written + AddressBytes(address) && frameBuffer[size..] == tail
    {
      ghost var before := frameBuffer[..];
      var len := EncodeAddress(address, frameBuffer, pos);
      Extended(before, frameBuffer[..], pos, written, AddressBytes(address), size, tail);
      next := pos + len;
    }

    /**
     * `unwrap_hdlc`: the checks in the source's order, the address scan as its while loop,
     * and the copy into `output`, which is written only when the frame is accepted.
     */
    method UnwrapHdlc(frame: seq<byte>, output: array<byte>) returns (r: Result<nat, HdlcError>)
      requires output.Length < SliceLimit && |frame| < SliceLimit
      modifies output
      ensures r == Copied(Unwrap(frame, output.Length))
      ensures r.Err? ==> unchanged(output)
      ensures r.Ok? ==> output[..r.value] == Unwrap(frame, output.Length).value
      ensures r.Ok? ==> output[r.value..] == old(output[r.value..])
    {
      if |frame| < HdlcMinFrameSize {
        return Err(FrameTooShort);
      }
      var pos := 0;
      if frame[pos] != HdlcFlag {
        return Err(InvalidFlag);
      }
      pos := pos + 1;
      // The format octet, then the length octet, which is read and not used.
      pos := pos + 1;
      pos := pos + 1;
      // `frame[pos] & HDLC_ADDRESS_LSB_MASK == 0`
      while pos < |frame| - 4 && frame[pos] % 2 == 0
        invariant 3 <= pos <= |frame| - 4
        invariant ScanAddress(frame, pos) == ScanAddress(frame, 3)
        decreases |frame| - pos
      {
        pos := pos + 1;
      }
      if pos < |frame| - 4 {
        pos := pos + 1;
      }
      pos := pos + 1;
      pos := pos + 2;
      assert pos == InfoStart(frame);
      var fcsPos := |frame| - 2 - 1;
      var infoLen := WrappingSub(fcsPos, pos);
      UnwrapAfterScan(frame, output.Length);
      if infoLen < |LlcHeader| {
        return Err(InvalidFrame);
      }
      var expected := ComputeFcs(frame[1..fcsPos]);
      // `expected_fcs != u16::from_le_bytes(..)`, compared octet by octet (`ReceivedFcs`).
      var received := [frame[fcsPos], frame[fcsPos + 1]];
      if LowHigh(expected) != received {
        return Err(FcsError);
      }
      if frame[|frame| - 1] != HdlcFlag {
        return Err(InvalidFlag);
      }
      pos := pos + |LlcHeader|;
      var dataLen := infoLen - |LlcHeader|;
      if dataLen > output.Length {
        return Err(BufferTooSmall);
      }
      CopySlice(output, 0, frame[pos..pos + dataLen]);
      return Ok(dataLen);
    }
  }

  /**
   * One write of `piece` right after `prefix`, before `size`: the prefix grows by the piece
   * and the octets from `size` on stay what they were.
   */
  lemma Extended(before: seq<byte>, after: seq<byte>, pos: nat, prefix: seq<byte>, piece: seq<byte>, size: nat, tail: seq<byte>)
    requires |before| == |after| && |prefix| == pos && pos + |piece| <= size <= |before|
    requires before[..pos] == prefix && before[size..] == tail
    requires after[..pos] == before[..pos]
    requires after[pos..pos + |piece|] == piece
    requires after[pos + |piece|..] == before[pos + |piece|..]
    ensures after[..pos + |piece|] == prefix + piece
    ensures after[size..] == tail
  {
    var n := pos + |piece|;
    assert after[..n] == after[..pos] + after[pos..n];
    assert after[size..] == after[n..][size - n..];
    assert before[size..] == before[n..][size - n..];
  }

  /** `+` regrouped behind a first piece. */
  lemma Regrouped4(x: seq<byte>, a: seq<byte>, b: seq<byte>, c: seq<byte>, d: seq<byte>)
    ensures x + a + b + c + d == x + (a + b + c + d)
  {
  }

  /** The octets from 1 on of a prefix that starts with the flag. */
  lemma FlagDropped(s: seq<byte>, pos: nat, h: seq<byte>)
    requires 1 <= pos <= |s| && s[..pos] == [HdlcFlag] + h
    ensures s[1..pos] == h
  {
    assert s[1..pos] == s[..pos][1..];
  }
}
