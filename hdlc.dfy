/**
 * src/hdlc.rs: the HDLC data link layer above the frame parser. The first frame's
 * information field starts with the three-octet LLC header; a message is one unsegmented
 * frame, or a run of segmented frames closed by the first unsegmented one, whose information
 * fields are joined.
 */
module HdlcLink {
  import opened Bytes

  /** The `hdlcparse::type3::HdlcFrame` fields the layer reads. */
  datatype HdlcFrame = HdlcFrame(information: seq<byte>, segmented: bool)

  datatype Destination = Unicast | Broadcast
  datatype MessageType = Command | Response

  datatype LlcHeader = LlcHeader(destination: Destination, messageType: MessageType, quality: byte)

  datatype LinkError = InvalidFormat | Incomplete

  /** The LLC destination, source and quality octets the layer accepts. */
  predicate IsLlcHeader(s: seq<byte>) {
    |s| >= 3 && (s[0] == 0xE6 || s[0] == 0xFF) && (s[1] == 0xE6 || s[1] == 0xE7) && s[2] == 0
  }

  /**
   * `parse_llc_header`: quality first, then the destination (E6 unicast, FF broadcast), then
   * the source (E6 command, E7 response); whatever fails is `InvalidFormat`.
   */
  function ParseLlcHeader(s: seq<byte>): (r: Result<(seq<byte>, LlcHeader), LinkError>)
    ensures r.Ok? <==> IsLlcHeader(s)
    ensures r.Ok? ==> r.value.0 == s[3..]
    ensures r.Err? ==> r.error == InvalidFormat
  {
    if |s| < 3 then Err(InvalidFormat)
    else if s[2] != 0 then Err(InvalidFormat)
    else if s[0] != 0xE6 && s[0] != 0xFF then Err(InvalidFormat)
    else if s[1] != 0xE6 && s[1] != 0xE7 then Err(InvalidFormat)
    else Ok((s[3..], LlcHeader(if s[0] == 0xE6 then Unicast else Broadcast, if s[1] == 0xE6 then Command else Response, 0)))
  }

  /** The header is decoded as it was sent. */
  lemma LlcHeaderFields(s: seq<byte>)
    requires IsLlcHeader(s)
    ensures ParseLlcHeader(s).value.1.destination == (if s[0] == 0xE6 then Unicast else Broadcast)
    ensures ParseLlcHeader(s).value.1.messageType == (if s[1] == 0xE6 then Command else Response)
  {
  }

  /** The frames after the message, and the message. */
  type Next = Result<(seq<HdlcFrame>, seq<byte>), LinkError>

  /** The index of the first unsegmented frame at or after `i`, if any. */
  function FirstUnsegmented(frames: seq<HdlcFrame>, i: nat): (j: Option<nat>)
    requires i <= |frames|
    ensures j.Some? ==> i <= j.value < |frames| && !frames[j.value].segmented
    ensures j.Some? ==> forall k :: i <= k < j.value ==> frames[k].segmented
    ensures j.None? ==> forall k :: i <= k < |frames| ==> frames[k].segmented
    decreases |frames| - i
  {
    if i == |frames| then None
    else if !frames[i].segmented then Some(i)
    else FirstUnsegmented(frames, i + 1)
  }

  /** The information fields of `frames[i..j]`, one after the other. */
  function Joined(frames: seq<HdlcFrame>, i: nat, j: nat): seq<byte>
    requires i <= j <= |frames|
    decreases j - i
  {
    if i == j then [] else Joined(frames, i, j - 1) + frames[j - 1].information
  }

  /**
   * `next_frame`: no frame is `Incomplete`; the first frame's LLC header is checked and
   * stripped; a segmented first frame is joined with the frames after it up to and including
   * the first unsegmented one, and without one the message is `Incomplete`.
   */
  function NextFrameSpec(frames: seq<HdlcFrame>): Next {
    if |frames| == 0 then Err(Incomplete)
    else
      match ParseLlcHeader(frames[0].information)
      case Err(e) => Err(e)
      case Ok((body, _)) =>
        if !frames[0].segmented then Ok((frames[1..], body))
        else
          match FirstUnsegmented(frames, 1)
          case None => Err(Incomplete)
          case Some(j) => Ok((frames[j + 1..], body + Joined(frames, 1, j + 1)))
  }

  /** The source's loop: `information` extended with each frame, `len` counted, `done` at the first unsegmented frame. */
  method NextFrame(frames: seq<HdlcFrame>) returns (r: Next)
    ensures r == NextFrameSpec(frames)
  {
    if |frames| == 0 {
      return Err(Incomplete);
    } else if !frames[0].segmented {
      var header := ParseLlcHeader(frames[0].information);
      if header.Err? {
        return Err(header.error);
      }
      return Ok((frames[1..], header.value.0));
    }
    var header := ParseLlcHeader(frames[0].information);
    if header.Err? {
      return Err(header.error);
    }
    var body := header.value.0;
    var information := body;
    var done := false;
    var len := 0;
    while len + 1 < |frames| && !done
      invariant 0 <= len < |frames|
      invariant information == body + Joined(frames, 1, len + 1)
      invariant done ==> FirstUnsegmented(frames, 1) == Some(len)
      invariant !done ==> FirstUnsegmented(frames, 1) == FirstUnsegmented(frames, len + 1)
      decreases |frames| - len, if done then 0 else 1
    {
      var frame := frames[len + 1];
      information := information + frame.information;
      len := len + 1;
      if !frame.segmented {
        done := true;
      }
    }
    if done {
      return Ok((frames[len + 1..], information));
    } else {
      return Err(Incomplete);
    }
  }

  /** One unsegmented frame is its information field without the LLC header; the frames after it are left. */
  lemma UnsegmentedFrame(f: HdlcFrame, more: seq<HdlcFrame>)
    requires !f.segmented && IsLlcHeader(f.information)
    ensures NextFrameSpec([f] + more) == Ok((more, f.information[3..]))
  {
    assert ([f] + more)[1..] == more;
  }

  /**
   * A segmented first frame followed by segmented frames up to an unsegmented frame `j`: the
   * message is the first information field without its LLC header, then the information
   * fields of frames 1 to `j` whole (only the first LLC header is stripped), and the frames
   * after `j` are left over.
   */
  lemma SegmentedMessage(frames: seq<HdlcFrame>, j: nat)
    requires 1 <= j < |frames| && frames[0].segmented && IsLlcHeader(frames[0].information)
    requires forall k :: 1 <= k < j ==> frames[k].segmented
    requires !frames[j].segmented
    ensures NextFrameSpec(frames) == Ok((frames[j + 1..], frames[0].information[3..] + Joined(frames, 1, j + 1)))
  {
    FirstUnsegmentedIs(frames, 1, j);
  }

  lemma {:induction false} FirstUnsegmentedIs(frames: seq<HdlcFrame>, i: nat, j: nat)
    requires i <= j < |frames| && !frames[j].segmented
    requires forall k :: i <= k < j ==> frames[k].segmented
    ensures FirstUnsegmented(frames, i) == Some(j)
    decreases j - i
  {
    if i < j {
      FirstUnsegmentedIs(frames, i + 1, j);
    }
  }

  /** A run of segmented frames with no unsegmented frame to close it is `Incomplete`. */
  lemma AllSegmentedIncomplete(frames: seq<HdlcFrame>)
    requires |frames| >= 1 && IsLlcHeader(frames[0].information)
    requires forall k :: 0 <= k < |frames| ==> frames[k].segmented
    ensures NextFrameSpec(frames) == Err(Incomplete)
  {
    NoUnsegmented(frames, 1);
  }

  lemma {:induction false} NoUnsegmented(frames: seq<HdlcFrame>, i: nat)
    requires 1 <= i <= |frames|
    requires forall k :: i <= k < |frames| ==> frames[k].segmented
    ensures FirstUnsegmented(frames, i) == None
    decreases |frames| - i
  {
    if i < |frames| {
      NoUnsegmented(frames, i + 1);
    }
  }

  /** A first frame without a valid LLC header is `InvalidFormat`, segmented or not; so is no input `Incomplete`. */
  lemma BadLlcRefused(frames: seq<HdlcFrame>)
    ensures |frames| == 0 ==> NextFrameSpec(frames) == Err(Incomplete)
    ensures |frames| >= 1 && !IsLlcHeader(frames[0].information) ==> NextFrameSpec(frames) == Err(InvalidFormat)
  {
  }

  /** Joining two segments: the information of frames 1 and 2 follow the stripped first field. */
  lemma TwoSegmentsJoined(first: seq<byte>, second: seq<byte>, more: seq<HdlcFrame>)
    requires IsLlcHeader(first)
    ensures NextFrameSpec([HdlcFrame(first, true), HdlcFrame(second, false)] + more) == Ok((more, first[3..] + second))
  {
    var frames := [HdlcFrame(first, true), HdlcFrame(second, false)] + more;
    SegmentedMessage(frames, 1);
    assert Joined(frames, 1, 1) == [];
    assert Joined(frames, 1, 2) == [] + second == second;
    assert frames[0].information == first;
    assert frames[2..] == more;
  }
}
