/**
 * src/mbus.rs: the M-Bus data link layer. A DLMS message travels either in one telegram with
 * a short or long transport header, or split over segment telegrams numbered 0, 1, 2, ...
 * modulo 16 whose user data start with the two access-point octets; the layer joins the
 * segments up to the last one and hands back the telegrams that follow.
 */
module MBus {
  import opened Bytes
  import opened ControlInfo

  /** The `mbusparse::Telegram` fields the layer reads: a long frame's control and user data, or any other kind of telegram. */
  datatype Telegram = LongFrame(controlInformation: byte, userData: seq<byte>) | OtherFrame

  /** `InvalidFormat`, `ChecksumMismatch` and `Incomplete`, and the failure of reading a header octet past the user data. */
  datatype MBusError = InvalidFormat | ChecksumMismatch | Incomplete | ShortUserData

  /** The telegrams after the message, and the message. */
  type Next = Result<(seq<Telegram>, seq<byte>), MBusError>

  /** The transport header of a whole message: access number, status, configuration, with the manufacturer, version and device type before them in the long form. */
  function HeaderSize(h: HeaderType): nat {
    if h == Long then 6 else 3
  }

  /**
   * The `for telegram in input` loop from the current telegram on, with the segment number it
   * expects and the payload joined so far.
   */
  function Reassemble(ts: seq<Telegram>, current: nat, payload: seq<byte>): (r: Next)
    requires current < 16
    ensures r.Ok? ==> |r.value.0| < |ts| && r.value.0 == ts[|ts| - |r.value.0|..]
    decreases |ts|
  {
    if |ts| == 0 then Err(Incomplete)
    else
      match ts[0]
      case OtherFrame => Err(InvalidFormat)
      case LongFrame(ci, ud) =>
        match FromByte(ci)
        case Err(_) => Err(InvalidFormat)
        case Ok(Unsegmented(h, _)) =>
          if |ud| < HeaderSize(h) then Err(ShortUserData) else Ok((ts[1..], ud[HeaderSize(h)..]))
        case Ok(Segmented(segment, last)) =>
          if current != segment then Err(ChecksumMismatch)
          else if |ud| < 2 then Err(ShortUserData)
          else if last then Ok((ts[1..], payload + ud[2..]))
          else Reassemble(ts[1..], (current + 1) % 16, payload + ud[2..])
  }

  /** `parse_mbus` / `next_frame`: the loop from the first telegram, expecting segment 0. */
  function ParseMBus(input: seq<Telegram>): Next {
    Reassemble(input, 0, [])
  }

  /** The loop itself, with `payload`, `current_segment` and `len` as the source keeps them. */
  method NextFrame(input: seq<Telegram>) returns (r: Next)
    ensures r == ParseMBus(input)
  {
    var payload: seq<byte> := [];
    var current: nat := 0;
    var len := 0;
    while len < |input|
      invariant 0 <= len <= |input| && current < 16
      invariant Reassemble(input[len..], current, payload) == ParseMBus(input)
      decreases |input| - len
    {
      var t := input[len];
      assert input[len..][1..] == input[len + 1..];
      if t.OtherFrame? {
        return Err(InvalidFormat);
      }
      var ci := FromByte(t.controlInformation);
      if ci.Err? {
        return Err(InvalidFormat);
      }
      FromByteInjective(t.controlInformation);
      match ci.value {
        case Unsegmented(h, _) =>
          if |t.userData| < HeaderSize(h) {
            return Err(ShortUserData);
          }
          len := len + 1;
          return Ok((input[len..], t.userData[HeaderSize(h)..]));
        case Segmented(segment, last) =>
          if current != segment {
            return Err(ChecksumMismatch);
          }
          // `(current_segment + 1) & 0b1111`
          current := (current + 1) % 16;
          if |t.userData| < 2 {
            return Err(ShortUserData);
          }
          payload := payload + t.userData[2..];
          len := len + 1;
          if last {
            return Ok((input[len..], payload));
          }
      }
    }
    return Err(Incomplete);
  }

  /** The control-information octet of segment `n`. */
  function SegmentByte(n: nat, last: bool): byte
    requires n < 16
  {
    ToByte(Segmented(n, last))
  }

  /** Every block starts with the two access-point octets. */
  predicate Blocks(blocks: seq<seq<byte>>) {
    forall i :: 0 <= i < |blocks| ==> |blocks[i]| >= 2
  }

  /**
   * A message sent as segments numbered from `start` on, one block of user data each; when
   * `closed`, the last telegram carries the last-segment bit.
   */
  function Segments(start: nat, blocks: seq<seq<byte>>, closed: bool): (ts: seq<Telegram>)
    requires start < 16
    ensures |ts| == |blocks|
    decreases |blocks|
  {
    if |blocks| == 0 then []
    else [LongFrame(SegmentByte(start, closed && |blocks| == 1), blocks[0])] + Segments((start + 1) % 16, blocks[1..], closed)
  }

  /** The message the segments carry: each block without its access-point octets, in order. */
  function Payload(blocks: seq<seq<byte>>): seq<byte>
    requires Blocks(blocks)
    decreases |blocks|
  {
    if |blocks| == 0 then [] else blocks[0][2..] + Payload(blocks[1..])
  }

  /** A whole message in one telegram is its user data without the transport header; it consumes that telegram alone. */
  lemma UnsegmentedMessage(ci: byte, ud: seq<byte>, more: seq<Telegram>)
    requires FromByte(ci).Ok? && FromByte(ci).value.Unsegmented?
    requires |ud| >= (if FromByte(ci).value.header == Long then 6 else 3)
    ensures ParseMBus([LongFrame(ci, ud)] + more) == Ok((more, ud[(if FromByte(ci).value.header == Long then 6 else 3)..]))
  {
    assert ([LongFrame(ci, ud)] + more)[1..] == more;
  }

  /** The segments of a message, whatever their number, reassemble to its payload; the telegrams after the last segment are left over. */
  lemma {:induction false} SegmentsReassemble(start: nat, blocks: seq<seq<byte>>, more: seq<Telegram>, payload: seq<byte>)
    requires start < 16 && |blocks| >= 1 && Blocks(blocks)
    ensures Reassemble(Segments(start, blocks, true) + more, start, payload) == Ok((more, payload + Payload(blocks)))
    decreases |blocks|
  {
    var ts := Segments(start, blocks, true) + more;
    var next := (start + 1) % 16;
    ToByteRoundTrip(Segmented(start, |blocks| == 1));
    assert ts[0] == LongFrame(SegmentByte(start, |blocks| == 1), blocks[0]);
    assert |blocks[0]| >= 2;
    if |blocks| == 1 {
      assert ts[1..] == more;
      assert blocks[1..] == [];
      assert Payload(blocks) == blocks[0][2..] + [];
      assert Payload(blocks) == blocks[0][2..];
    } else {
      assert ts[1..] == Segments(next, blocks[1..], true) + more;
      SegmentsReassemble(next, blocks[1..], more, payload + blocks[0][2..]);
      assert payload + blocks[0][2..] + Payload(blocks[1..]) == payload + Payload(blocks);
    }
  }

  /** `next_frame` on a message split into segments from 0: the payload, and the telegrams after it. */
  lemma MessageReassembled(blocks: seq<seq<byte>>, more: seq<Telegram>)
    requires |blocks| >= 1 && Blocks(blocks)
    ensures ParseMBus(Segments(0, blocks, true) + more) == Ok((more, Payload(blocks)))
  {
    SegmentsReassemble(0, blocks, more, []);
    assert [] + Payload(blocks) == Payload(blocks);
  }

  /** Input that ends before the last segment is `Incomplete`. */
  lemma {:induction false} MissingLastSegment(start: nat, blocks: seq<seq<byte>>, payload: seq<byte>)
    requires start < 16 && Blocks(blocks)
    ensures Reassemble(Segments(start, blocks, false), start, payload) == Err(Incomplete)
    decreases |blocks|
  {
    if |blocks| > 0 {
      var ts := Segments(start, blocks, false);
      ToByteRoundTrip(Segmented(start, false));
      assert ts[1..] == Segments((start + 1) % 16, blocks[1..], false);
      MissingLastSegment((start + 1) % 16, blocks[1..], payload + blocks[0][2..]);
    }
  }

  /** The segment number expected after `k` more segments from `start`. */
  function After(start: nat, k: nat): (n: nat)
    requires start < 16
    ensures n < 16
    decreases k
  {
    if k == 0 then start else After((start + 1) % 16, k - 1)
  }

  lemma {:induction false} AfterIsModulo(start: nat, k: nat)
    requires start < 16
    ensures After(start, k) == (start + k) % 16
    decreases k
  {
    if k > 0 {
      AfterIsModulo((start + 1) % 16, k - 1);
      ModuloStep(start, k);
    }
  }

  lemma ModuloStep(start: nat, k: nat)
    requires start < 16 && k > 0
    ensures ((start + 1) % 16 + (k - 1)) % 16 == (start + k) % 16
  {
    if start == 15 {
      assert (start + 1) % 16 + (k - 1) + 16 == start + k;
    }
  }

  /** After the segments numbered from `start`, a segment with any number but the next one is a `ChecksumMismatch`. */
  lemma SegmentOutOfOrder(start: nat, blocks: seq<seq<byte>>, ci: byte, ud: seq<byte>, more: seq<Telegram>, payload: seq<byte>)
    requires start < 16 && Blocks(blocks)
    requires FromByte(ci).Ok? && FromByte(ci).value.Segmented?
    requires FromByte(ci).value.segment != (start + |blocks|) % 16
    ensures Reassemble(Segments(start, blocks, false) + [LongFrame(ci, ud)] + more, start, payload) == Err(ChecksumMismatch)
  {
    AfterIsModulo(start, |blocks|);
    OutOfOrderAfter(start, blocks, ci, ud, more, payload);
  }

  lemma {:induction false} OutOfOrderAfter(start: nat, blocks: seq<seq<byte>>, ci: byte, ud: seq<byte>, more: seq<Telegram>, payload: seq<byte>)
    requires start < 16 && Blocks(blocks)
    requires FromByte(ci).Ok? && FromByte(ci).value.Segmented?
    requires FromByte(ci).value.segment != After(start, |blocks|)
    ensures Reassemble(Segments(start, blocks, false) + [LongFrame(ci, ud)] + more, start, payload) == Err(ChecksumMismatch)
    decreases |blocks|
  {
    var ts := Segments(start, blocks, false) + [LongFrame(ci, ud)] + more;
    if |blocks| == 0 {
      assert ts[0] == LongFrame(ci, ud);
    } else {
      var next := (start + 1) % 16;
      ToByteRoundTrip(Segmented(start, false));
      assert |blocks[0]| >= 2;
      assert ts[1..] == Segments(next, blocks[1..], false) + [LongFrame(ci, ud)] + more;
      OutOfOrderAfter(next, blocks[1..], ci, ud, more, payload + blocks[0][2..]);
    }
  }

  /** A first telegram that is not a long frame, or whose control information is not a known octet, is `InvalidFormat`. */
  lemma InvalidTelegramRefused(t: Telegram, more: seq<Telegram>)
    requires t.OtherFrame? || !IsControlByte(t.controlInformation)
    ensures ParseMBus([t] + more) == Err(InvalidFormat)
  {
    if t.LongFrame? {
      FromByteDomain(t.controlInformation);
    }
  }

  /** Calling `next_frame` again on what is left returns the next message. */
  lemma SuccessiveMessages(first: seq<seq<byte>>, second: seq<seq<byte>>, more: seq<Telegram>)
    requires |first| >= 1 && Blocks(first) && |second| >= 1 && Blocks(second)
    ensures ParseMBus(Segments(0, first, true) + Segments(0, second, true) + more)
      == Ok((Segments(0, second, true) + more, Payload(first)))
    ensures ParseMBus(Segments(0, second, true) + more) == Ok((more, Payload(second)))
  {
    assert Segments(0, first, true) + Segments(0, second, true) + more == Segments(0, first, true) + (Segments(0, second, true) + more);
    MessageReassembled(first, Segments(0, second, true) + more);
    MessageReassembled(second, more);
  }

  /** A whole-message telegram in the middle of a segmented one ends the call with its own data: the joined segments are dropped. */
  lemma UnsegmentedAfterSegments(blocks: seq<seq<byte>>, ci: byte, ud: seq<byte>, more: seq<Telegram>, payload: seq<byte>)
    requires Blocks(blocks)
    requires FromByte(ci).Ok? && FromByte(ci).value.Unsegmented? && |ud| >= HeaderSize(FromByte(ci).value.header)
    ensures Reassemble(Segments(0, blocks, false) + [LongFrame(ci, ud)] + more, 0, payload)
      == Ok((more, ud[HeaderSize(FromByte(ci).value.header)..]))
  {
    UnsegmentedAfter(0, blocks, ci, ud, more, payload);
  }

  lemma {:induction false} UnsegmentedAfter(start: nat, blocks: seq<seq<byte>>, ci: byte, ud: seq<byte>, more: seq<Telegram>, payload: seq<byte>)
    requires start < 16 && Blocks(blocks)
    requires FromByte(ci).Ok? && FromByte(ci).value.Unsegmented? && |ud| >= HeaderSize(FromByte(ci).value.header)
    ensures Reassemble(Segments(start, blocks, false) + [LongFrame(ci, ud)] + more, start, payload)
      == Ok((more, ud[HeaderSize(FromByte(ci).value.header)..]))
    decreases |blocks|
  {
    var ts := Segments(start, blocks, false) + [LongFrame(ci, ud)] + more;
    if |blocks| == 0 {
      assert ts[0] == LongFrame(ci, ud);
      assert ts[1..] == more;
    } else {
      var next := (start + 1) % 16;
      ToByteRoundTrip(Segmented(start, false));
      assert ts[1..] == Segments(next, blocks[1..], false) + [LongFrame(ci, ud)] + more;
      UnsegmentedAfter(next, blocks[1..], ci, ud, more, payload + blocks[0][2..]);
    }
  }
}
