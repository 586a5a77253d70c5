/**
 * src/client/sync.rs: the client. `DlmsSession` holds the settings, the association state and
 * the invoke-id counter; it builds requests and maps responses to results. `DlmsClient` drives
 * a session over a transport: here the transport is the list of frames sent so far and the
 * list of replies still to be received, so that what each call sends and what it makes of
 * the reply can be stated.
 */
module ClientSession {
  import opened Bytes
  import opened AxdrData
  import Obis
  import G = GetService
  import S = SetService
  import A = ActionService
  import opened AcseEnums
  import Aarq
  import Aare
  import I = Initiate
  import C = Conformance
  import Release

  // ---------------------------------------------------------------------------
  // Settings and state (lines 105-171)
  // ---------------------------------------------------------------------------

  /** `DEFAULT_MAX_ATTRIBUTES_PER_REQUEST` of src/client.rs. */
  const DefaultMaxAttributesPerRequest: nat := 10

  datatype ClientSettings = ClientSettings(
    clientAddress: byte,
    serverAddress: u16,
    authenticationMechanism: MechanismName,
    authenticationValue: Option<seq<byte>>,
    applicationContextName: ContextName,
    maxPduSize: u16,
    maxAttributesPerRequest: Option<nat>)

  /** `ClientSettings::default`: public client 16, management logical device 1, no security. */
  const DefaultSettings: ClientSettings :=
    ClientSettings(16, 1, LowestLevelSecurity, None, LogicalNameReferencing, 0xFFFF, Some(DefaultMaxAttributesPerRequest))

  datatype SessionState = SessionState(
    associated: bool,
    negotiatedMaxPduSize: u16,
    negotiatedConformance: Option<seq<bv8>>,
    associationResult: Option<AssociationResult>,
    associationDiagnostic: Option<byte>)

  /** `SessionState::default`. */
  const InitialState: SessionState := SessionState(false, 0, None, None, None)

  /**
   * The state after `handle_aare`: the result and diagnostic are always recorded; an
   * accepted association is entered, and the server's PDU size and conformance are copied
   * when it sent an InitiateResponse; a refused one is left.
   */
  function AareHandled(st: SessionState, aare: Aare.AareApdu): (st2: SessionState)
    ensures st2.associationResult == Some(aare.result)
    ensures st2.associationDiagnostic == Some(DiagnosticCode(aare.resultSourceDiagnostic))
    ensures st2.associated <==> aare.result == Accepted
    ensures aare.result == Accepted && aare.userInformation.Some? ==>
      && st2.negotiatedMaxPduSize == aare.userInformation.value.serverMaxReceivePduSize
      && st2.negotiatedConformance == Some(C.ToBytes(aare.userInformation.value.negotiatedConformance))
    ensures !(aare.result == Accepted && aare.userInformation.Some?) ==>
      st2.negotiatedMaxPduSize == st.negotiatedMaxPduSize && st2.negotiatedConformance == st.negotiatedConformance
  {
    var recorded := st.(associationResult := Some(aare.result),
                        associationDiagnostic := Some(DiagnosticCode(aare.resultSourceDiagnostic)));
    if aare.result != Accepted then recorded.(associated := false)
    else if aare.userInformation.None? then recorded.(associated := true)
    else
      var ui := aare.userInformation.value;
      recorded.(associated := true, negotiatedMaxPduSize := ui.serverMaxReceivePduSize,
                negotiatedConformance := Some(C.ToBytes(ui.negotiatedConformance)))
  }

  /** The conformance the session stores is the negotiated one, read back from its three octets. */
  lemma NegotiatedConformanceKept(st: SessionState, aare: Aare.AareApdu)
    requires aare.result == Accepted && aare.userInformation.Some?
    requires C.Fits(aare.userInformation.value.negotiatedConformance)
    ensures var b := AareHandled(st, aare).negotiatedConformance.value;
            |b| == 3 && C.FromBytes(b[0], b[1], b[2]) == aare.userInformation.value.negotiatedConformance
  {
    C.BytesRoundTrip(aare.userInformation.value.negotiatedConformance);
  }

  // ---------------------------------------------------------------------------
  // Invoke ids (lines 241-245)
  // ---------------------------------------------------------------------------

  /** The id `n` calls of `next_invoke_id` after `start`: `wrapping_add` on a u8. */
  function IdAfter(start: byte, n: nat): byte {
    (start + n) % 256
  }

  lemma IdAfterStep(start: byte, n: nat)
    ensures IdAfter(IdAfter(start, n), 1) == IdAfter(start, n + 1)
  {
    var q := (start + n) / 256;
    assert start + n == 256 * q + IdAfter(start, n);
  }

  /** The id comes back to where it started after 256 requests, and not before. */
  lemma {:induction false} IdsDistinctWithinWindow(start: byte, i: nat, j: nat)
    requires i < j < 256
    ensures IdAfter(start, i) != IdAfter(start, j)
    ensures IdAfter(start, 256) == start
  {
    IdAfterBelow(start, i);
    IdAfterBelow(start, j);
  }

  lemma IdAfterBelow(start: byte, n: nat)
    requires n < 256
    ensures IdAfter(start, n) == if start + n < 256 then start + n else start + n - 256
  {
  }

  // ---------------------------------------------------------------------------
  // DlmsSession (lines 173-396)
  // ---------------------------------------------------------------------------

  class DlmsSession {
    const settings: ClientSettings
    var state: SessionState
    var invokeId: byte

    /** `DlmsSession::new`. */
    constructor(settings: ClientSettings)
      ensures this.settings == settings && state == InitialState && invokeId == 0
    {
      this.settings := settings;
      state := InitialState;
      invokeId := 0;
    }

    /**
     * `generate_aarq`: the library's logical-name AARQ for the configured PDU size, with the
     * configured context and mechanism, and the secret, if any, as a character string.
     */
    function GenerateAarq(): (a: Aarq.AarqApdu)
      ensures a.applicationContextName == settings.applicationContextName
      ensures a.mechanismName == Some(settings.authenticationMechanism)
      ensures settings.authenticationValue.None? ==> a.callingAuthenticationValue == None
      ensures settings.authenticationValue.Some? ==> a.callingAuthenticationValue == Some(CharString(settings.authenticationValue.value))
      ensures a.userInformation == Some(I.NewRequest(C.TypicalClientLn, settings.maxPduSize))
      ensures a.protocolVersion == Aarq.ProtocolVersion && a.callingApTitle == None && a.calledApTitle == None
    {
      var auth := if settings.authenticationValue.Some? then Some(CharString(settings.authenticationValue.value)) else None;
      Aarq.NewSimpleLn(settings.maxPduSize).(applicationContextName := settings.applicationContextName,
        mechanismName := Some(settings.authenticationMechanism), callingAuthenticationValue := auth)
    }

    /** `handle_aare`: Ok exactly when the association is accepted. */
    method HandleAare(aare: Aare.AareApdu) returns (r: Result<(), AssociationResult>)
      modifies this
      ensures state == AareHandled(old(state), aare) && invokeId == old(invokeId)
      ensures r.Ok? <==> Aare.IsAccepted(aare)
      ensures r.Err? ==> r.error == aare.result
    {
      state := state.(associationResult := Some(aare.result),
                      associationDiagnostic := Some(DiagnosticCode(aare.resultSourceDiagnostic)));
      if aare.result == Accepted {
        state := state.(associated := true);
        if aare.userInformation.Some? {
          var userInfo := aare.userInformation.value;
          state := state.(negotiatedMaxPduSize := userInfo.serverMaxReceivePduSize,
                          negotiatedConformance := Some(C.ToBytes(userInfo.negotiatedConformance)));
        }
        r := Ok(());
      } else {
        state := state.(associated := false);
        r := Err(aare.result);
      }
    }

    /** `generate_release_request`: a normal release, sent as `62 03 80 01 00`. */
    function GenerateReleaseRequest(): (a: Release.ReleaseApdu)
      ensures a.reason == Some(Release.Normal) && a.userInformation == None
      ensures Release.Encodable(a) && Release.ReleaseBytes(Release.RlrqNumber, a) == [0x62, 0x03, 0x80, 0x01, 0x00]
    {
      Release.RlrqNewBytes();
      Release.New()
    }

    /** `handle_release_response`: whatever the response says, the association is over. */
    method HandleReleaseResponse(rlre: Release.ReleaseApdu)
      modifies this
      ensures state == old(state).(associated := false) && invokeId == old(invokeId)
    {
      state := state.(associated := false);
    }

    /** `next_invoke_id`: the current id, and the counter moved on by one modulo 256. */
    method NextInvokeId() returns (id: byte)
      modifies this
      ensures id == old(invokeId) && invokeId == IdAfter(old(invokeId), 1) && state == old(state)
    {
      id := invokeId;
      invokeId := (invokeId + 1) % 256;
    }

    /** `generate_get_request`: a GET-Request-Normal carrying the next invoke id. */
    method GenerateGetRequest(classId: u16, obisCode: Obis.ObisCode, attributeId: i8, accessSelection: Option<G.AccessSelector>)
      returns (r: G.GetRequest)
      modifies this
      ensures r == G.RequestNormal(old(invokeId), G.AttributeDescriptor(classId, obisCode, attributeId), accessSelection)
      ensures G.RequestBytes(r)[2] == old(invokeId)
      ensures invokeId == IdAfter(old(invokeId), 1) && state == old(state)
    {
      var id := NextInvokeId();
      r := G.RequestNormal(id, G.AttributeDescriptor(classId, obisCode, attributeId), accessSelection);
    }

    /** `generate_set_request`: a SET-Request-Normal carrying the next invoke id. */
    method GenerateSetRequest(classId: u16, obisCode: Obis.ObisCode, attributeId: i8, value: Data, accessSelection: Option<G.AccessSelector>)
      returns (r: S.SetRequest)
      modifies this
      ensures r == S.RequestNormal(old(invokeId), G.AttributeDescriptor(classId, obisCode, attributeId), accessSelection, value)
      ensures S.RequestBytes(r)[2] == old(invokeId)
      ensures invokeId == IdAfter(old(invokeId), 1) && state == old(state)
    {
      var id := NextInvokeId();
      r := S.RequestNormal(id, G.AttributeDescriptor(classId, obisCode, attributeId), accessSelection, value);
    }

    /** `generate_action_request`: an ACTION-Request-Normal carrying the next invoke id. */
    method GenerateActionRequest(classId: u16, obisCode: Obis.ObisCode, methodId: i8, parameters: Option<Data>)
      returns (r: A.ActionRequest)
      modifies this
      ensures r == A.RequestNormal(old(invokeId), A.MethodDescriptor(classId, obisCode, methodId, parameters))
      ensures A.RequestBytes(r)[2] == old(invokeId)
      ensures invokeId == IdAfter(old(invokeId), 1) && state == old(state)
    {
      var id := NextInvokeId();
      r := A.RequestNormal(id, A.MethodDescriptor(classId, obisCode, methodId, parameters));
    }

    /**
     * `handle_get_response`: the value of a Normal response, its error, or OtherReason for the
     * block and list choices. The expected invoke id is not compared.
     */
    static function HandleGetResponse(response: G.GetResponse, expectedInvokeId: byte): (r: Result<Data, G.DataAccessResult>)
      ensures r.Ok? <==> response.ResponseNormal? && response.result.Data?
      ensures r.Ok? ==> r.value == response.result.data
      ensures response.ResponseNormal? && response.result.DataAccessError? ==> r == Err(response.result.error)
      ensures !response.ResponseNormal? ==> r == Err(G.OtherReason)
    {
      match response
      case ResponseNormal(_, result) =>
        if result.Data? then Ok(result.data) else Err(result.error)
      case _ => Err(G.OtherReason)
    }

    /** `handle_set_response`: Ok for a Normal Success, the code of any other Normal result, OtherReason otherwise. */
    static function HandleSetResponse(response: S.SetResponse, expectedInvokeId: byte): (r: Result<(), G.DataAccessResult>)
      ensures r.Ok? <==> response.ResponseNormal? && response.result == G.Success
      ensures response.ResponseNormal? && response.result != G.Success ==> r == Err(response.result)
      ensures !response.ResponseNormal? ==> r == Err(G.OtherReason)
    {
      match response
      case ResponseNormal(_, result) => if result == G.Success then Ok(()) else Err(result)
      case _ => Err(G.OtherReason)
    }

    /**
     * `handle_action_response`: a Normal Success gives its returned value, if any; a returned
     * data-access error becomes OtherReason; an error result is passed on; the other choices
     * give OtherReason.
     */
    static function HandleActionResponse(response: A.ActionResponse, expectedInvokeId: byte): (r: Result<Option<Data>, A.ActionResult>)
      ensures r.Ok? <==> response.ResponseNormal? && response.result.Success?
                         && (response.result.returned.None? || response.result.returned.value.Data?)
      ensures r.Ok? && response.result.returned.None? ==> r.value == None
      ensures r.Ok? && response.result.returned.Some? ==> r.value == Some(response.result.returned.value.data)
      ensures response.ResponseNormal? && !response.result.Success? ==> r == Err(response.result)
      ensures (response.ResponseNormal? && response.result.Success? && response.result.returned.Some?
               && response.result.returned.value.DataAccessError?) ==> r == Err(A.OtherReason)
      ensures !response.ResponseNormal? ==> r == Err(A.OtherReason)
    {
      match response
      case ResponseNormal(_, result) =>
        if result.Success? then
          if result.returned.None? then Ok(None)
          else if result.returned.value.Data? then Ok(Some(result.returned.value.data))
          else Err(A.OtherReason)
        else Err(result)
      case _ => Err(A.OtherReason)
    }
  }

  /** With the default settings the session asks for exactly `new_simple_ln(0xFFFF)`, which the server reads back. */
  lemma DefaultAarqIsSimpleLn(s: DlmsSession)
    requires s.settings == DefaultSettings
    ensures s.GenerateAarq() == Aarq.NewSimpleLn(0xFFFF) && Aarq.Restorable(s.GenerateAarq())
    ensures Aarq.ParseAarqSpec(Aarq.AarqBytes(s.GenerateAarq())) == Some((s.GenerateAarq(), []))
  {
    Aarq.NewSimpleLnRoundTrip(0xFFFF);
  }

  // ---------------------------------------------------------------------------
  // What the client makes of a reply (lines 623-1090)
  // ---------------------------------------------------------------------------

  datatype ClientError =
    | ConnectionClosed
    | ParseError
    | AssociationFailed(result: AssociationResult)
    | NotAssociated
    | DataAccessError(access: G.DataAccessResult)
    | ActionError(action: A.ActionResult)
    | UnexpectedResponse
    | InvokeIdMismatch
    | InvalidResponseData

  /** The next reply the transport will receive; an exhausted transport receives nothing. */
  function NextReply(replies: seq<seq<byte>>): seq<byte> {
    if |replies| > 0 then replies[0] else []
  }

  /** The replies left after `n` receptions. */
  function Drop(replies: seq<seq<byte>>, n: nat): (r: seq<seq<byte>>)
    ensures n < |replies| ==> r == replies[n..]
    ensures n >= |replies| ==> r == []
  {
    if n < |replies| then replies[n..] else []
  }

  lemma DropStep(replies: seq<seq<byte>>, n: nat)
    ensures Drop(Drop(replies, n), 1) == Drop(replies, n + 1)
  {
    if n + 1 < |replies| {
      assert replies[n..][1..] == replies[n + 1..];
    }
  }

  /** `read`: nothing received is a closed connection; then the GET-Response parse and `handle_get_response`. */
  function ReadOutcome(reply: seq<byte>, invokeId: byte): (r: Result<Data, ClientError>)
    ensures |reply| == 0 ==> r == Err(ConnectionClosed)
    ensures |reply| > 0 && G.ReadResponse(reply).None? ==> r == Err(ParseError)
    ensures r.Ok? <==> |reply| > 0 && G.ReadResponse(reply).Some?
                       && DlmsSession.HandleGetResponse(G.ReadResponse(reply).value.0, invokeId).Ok?
    ensures r.Ok? ==> r.value == DlmsSession.HandleGetResponse(G.ReadResponse(reply).value.0, invokeId).value
  {
    if |reply| == 0 then Err(ConnectionClosed)
    else match G.ReadResponse(reply)
      case None => Err(ParseError)
      case Some((response, _)) =>
        match DlmsSession.HandleGetResponse(response, invokeId)
        case Ok(d) => Ok(d)
        case Err(e) => Err(DataAccessError(e))
  }

  /** A server that answers with a GET-Response-Normal carrying a value has that value read, whatever invoke id it quotes. */
  lemma ServedValueIsRead(serverId: byte, invokeId: byte, d: Data, rest: seq<byte>)
    requires WellFormed(d)
    ensures ReadOutcome(G.ResponseBytes(G.ResponseNormal(serverId, G.Data(d))) + rest, invokeId) == Ok(d)
  {
    G.ResponseRoundTrip(G.ResponseNormal(serverId, G.Data(d)), rest);
  }

  /** A server that answers with a GET-Response-Normal carrying an error has that error reported with its code. */
  lemma ServedRefusalIsReported(serverId: byte, invokeId: byte, e: G.DataAccessResult, rest: seq<byte>)
    ensures ReadOutcome(G.ResponseBytes(G.ResponseNormal(serverId, G.DataAccessError(e))) + rest, invokeId) == Err(DataAccessError(e))
  {
    G.ResponseRoundTrip(G.ResponseNormal(serverId, G.DataAccessError(e)), rest);
  }

  /** `write`: the SET-Response parse and `handle_set_response`. */
  function WriteOutcome(reply: seq<byte>, invokeId: byte): (r: Result<(), ClientError>)
    ensures |reply| == 0 ==> r == Err(ConnectionClosed)
    ensures |reply| > 0 && S.ReadResponse(reply).None? ==> r == Err(ParseError)
    ensures r.Ok? <==> |reply| > 0 && S.ReadResponse(reply).Some?
                       && DlmsSession.HandleSetResponse(S.ReadResponse(reply).value.0, invokeId).Ok?
  {
    if |reply| == 0 then Err(ConnectionClosed)
    else match S.ReadResponse(reply)
      case None => Err(ParseError)
      case Some((response, _)) =>
        match DlmsSession.HandleSetResponse(response, invokeId)
        case Ok(_) => Ok(())
        case Err(e) => Err(DataAccessError(e))
  }

  /** A SET-Response-Normal is accepted exactly when its result is Success. */
  lemma ServedSetResult(serverId: byte, invokeId: byte, e: G.DataAccessResult, rest: seq<byte>)
    ensures WriteOutcome(S.ResponseBytes(S.ResponseNormal(serverId, e)) + rest, invokeId)
            == if e == G.Success then Ok(()) else Err(DataAccessError(e))
  {
    S.ResponseRoundTrip(S.ResponseNormal(serverId, e), rest);
  }

  /** `method`: the ACTION-Response parse and `handle_action_response`. */
  function MethodOutcome(reply: seq<byte>, invokeId: byte): (r: Result<Option<Data>, ClientError>)
    ensures |reply| == 0 ==> r == Err(ConnectionClosed)
    ensures |reply| > 0 && A.ReadResponse(reply).None? ==> r == Err(ParseError)
    ensures r.Ok? <==> |reply| > 0 && A.ReadResponse(reply).Some?
                       && DlmsSession.HandleActionResponse(A.ReadResponse(reply).value.0, invokeId).Ok?
    ensures r.Ok? ==> r.value == DlmsSession.HandleActionResponse(A.ReadResponse(reply).value.0, invokeId).value
  {
    if |reply| == 0 then Err(ConnectionClosed)
    else match A.ReadResponse(reply)
      case None => Err(ParseError)
      case Some((response, _)) =>
        match DlmsSession.HandleActionResponse(response, invokeId)
        case Ok(d) => Ok(d)
        case Err(e) => Err(ActionError(e))
  }

  /** An ACTION-Response-Normal reporting Success with a returned value gives that value. */
  lemma ServedActionValue(serverId: byte, invokeId: byte, d: Data, rest: seq<byte>)
    requires WellFormed(d)
    ensures MethodOutcome(A.ResponseBytes(A.ResponseNormal(serverId, A.Success(Some(A.Data(d))))) + rest, invokeId) == Ok(Some(d))
  {
    A.ResponseRoundTrip(A.ResponseNormal(serverId, A.Success(Some(A.Data(d)))), rest);
  }

  /** The per-attribute results of a GET-Response-With-List. */
  function ListResults(gs: seq<G.GetDataResult>): (rs: seq<Result<Data, G.DataAccessResult>>)
    ensures |rs| == |gs|
    ensures forall i | 0 <= i < |gs| :: rs[i].Ok? <==> gs[i].Data?
    ensures forall i | 0 <= i < |gs| :: gs[i].Data? ==> rs[i] == Ok(gs[i].data)
    ensures forall i | 0 <= i < |gs| :: gs[i].DataAccessError? ==> rs[i] == Err(gs[i].error)
  {
    seq(|gs|, i requires 0 <= i < |gs| => if gs[i].Data? then Ok(gs[i].data) else Err(gs[i].error))
  }

  /** `read_multiple`: a With-List response whose invoke id is the request's. */
  function ListReadOutcome(reply: seq<byte>, invokeId: byte): (r: Result<seq<Result<Data, G.DataAccessResult>>, ClientError>)
    ensures |reply| == 0 ==> r == Err(ConnectionClosed)
    ensures r.Ok? <==> |reply| > 0 && G.ReadResponse(reply).Some? && G.ReadResponse(reply).value.0.ResponseWithList?
                       && G.ReadResponse(reply).value.0.invokeId == invokeId
    ensures r.Ok? ==> r.value == ListResults(G.ReadResponse(reply).value.0.results)
  {
    if |reply| == 0 then Err(ConnectionClosed)
    else match G.ReadResponse(reply)
      case None => Err(ParseError)
      case Some((response, _)) =>
        if !response.ResponseWithList? then Err(UnexpectedResponse)
        else if response.invokeId != invokeId then Err(InvokeIdMismatch)
        else Ok(ListResults(response.results))
  }

  /** A list answer is taken when it quotes the request's invoke id, and refused otherwise. */
  lemma ServedListIsRead(serverId: byte, invokeId: byte, gs: seq<G.GetDataResult>, rest: seq<byte>)
    requires G.ResponseWellFormed(G.ResponseWithList(serverId, gs))
    ensures serverId == invokeId ==> ListReadOutcome(G.ResponseBytes(G.ResponseWithList(serverId, gs)) + rest, invokeId) == Ok(ListResults(gs))
    ensures serverId != invokeId ==> ListReadOutcome(G.ResponseBytes(G.ResponseWithList(serverId, gs)) + rest, invokeId) == Err(InvokeIdMismatch)
  {
    G.ResponseRoundTrip(G.ResponseWithList(serverId, gs), rest);
  }

  /** `write_multiple`: a With-List SET-Response whose invoke id is the request's. */
  function ListWriteOutcome(reply: seq<byte>, invokeId: byte): (r: Result<seq<G.DataAccessResult>, ClientError>)
    ensures |reply| == 0 ==> r == Err(ConnectionClosed)
    ensures r.Ok? <==> |reply| > 0 && S.ReadResponse(reply).Some? && S.ReadResponse(reply).value.0.ResponseWithList?
                       && S.ReadResponse(reply).value.0.invokeId == invokeId
    ensures r.Ok? ==> r.value == S.ReadResponse(reply).value.0.results
  {
    if |reply| == 0 then Err(ConnectionClosed)
    else match S.ReadResponse(reply)
      case None => Err(ParseError)
      case Some((response, _)) =>
        if !response.ResponseWithList? then Err(UnexpectedResponse)
        else if response.invokeId != invokeId then Err(InvokeIdMismatch)
        else Ok(response.results)
  }

  lemma ServedListIsWritten(serverId: byte, invokeId: byte, rs: seq<G.DataAccessResult>, rest: seq<byte>)
    requires |rs| <= 255
    ensures serverId == invokeId ==> ListWriteOutcome(S.ResponseBytes(S.ResponseWithList(serverId, rs)) + rest, invokeId) == Ok(rs)
    ensures serverId != invokeId ==> ListWriteOutcome(S.ResponseBytes(S.ResponseWithList(serverId, rs)) + rest, invokeId) == Err(InvokeIdMismatch)
  {
    S.ResponseRoundTrip(S.ResponseWithList(serverId, rs), rest);
  }

  // ---------------------------------------------------------------------------
  // Chunking (lines 1343-1448)
  // ---------------------------------------------------------------------------

  /** The chunk size: the call's override, else the setting, else everything in one request. */
  function ChunkSize(maxPerRequest: Option<nat>, setting: Option<nat>, n: nat): (k: nat)
    ensures maxPerRequest.Some? ==> k == maxPerRequest.value
    ensures maxPerRequest.None? && setting.Some? ==> k == setting.value
    ensures maxPerRequest.None? && setting.None? ==> k == n
  {
    if maxPerRequest.Some? then maxPerRequest.value else if setting.Some? then setting.value else n
  }

  /** `slice::chunks`: consecutive pieces of k elements, the last one possibly shorter. */
  function Chunks<T>(s: seq<T>, k: nat): seq<seq<T>>
    requires k > 0
    decreases |s|
  {
    if |s| == 0 then [] else if |s| <= k then [s] else [s[..k]] + Chunks(s[k..], k)
  }

  function Flatten<T>(ss: seq<seq<T>>): seq<T> {
    if |ss| == 0 then [] else ss[0] + Flatten(ss[1..])
  }

  /** The chunks, put back together, are the requests in their order. */
  lemma {:induction false} FlattenChunks<T>(s: seq<T>, k: nat)
    requires k > 0
    ensures Flatten(Chunks(s, k)) == s
    decreases |s|
  {
    if |s| > k {
      var cs := Chunks(s, k);
      assert cs[1..] == Chunks(s[k..], k);
      FlattenChunks(s[k..], k);
      assert s == s[..k] + s[k..];
    }
  }

  /** There are ⌈n/k⌉ chunks; each is non-empty and at most k long, and all but the last are exactly k long. */
  lemma {:induction false} ChunksShape<T>(s: seq<T>, k: nat)
    requires k > 0
    ensures |s| <= |Chunks(s, k)| * k < |s| + k
    ensures forall i | 0 <= i < |Chunks(s, k)| :: 0 < |Chunks(s, k)[i]| <= k
    ensures forall i | 0 <= i < |Chunks(s, k)| - 1 :: |Chunks(s, k)[i]| == k
    decreases |s|
  {
    var cs := Chunks(s, k);
    if |s| > k {
      var rest := Chunks(s[k..], k);
      ChunksShape(s[k..], k);
      assert cs == [s[..k]] + rest;
      assert |cs| * k == |rest| * k + k;
      assert forall i | 1 <= i < |cs| :: cs[i] == rest[i - 1];
    }
  }

  /** Appending the next frame of a list to a log that holds its first i frames. */
  lemma LogStep<T>(log: seq<T>, frames: seq<T>, i: nat)
    requires i < |frames|
    ensures (log + frames[..i]) + [frames[i]] == log + frames[..i + 1]
  {
    assert frames[..i + 1] == frames[..i] + [frames[i]];
  }

  lemma ChunksNonEmpty<T>(s: seq<T>, k: nat)
    requires k > 0
    ensures forall i | 0 <= i < |Chunks(s, k)| :: |Chunks(s, k)[i]| > 0
  {
    ChunksShape(s, k);
  }

  /** The result list of the chunks sent so far, or the first error. */
  function PrependOk<R>(acc: seq<R>, r: Result<seq<R>, ClientError>): Result<seq<R>, ClientError> {
    match r
    case Ok(rs) => Ok(acc + rs)
    case Err(e) => Err(e)
  }

  lemma PrependNothing<R>(r: Result<seq<R>, ClientError>)
    ensures PrependOk([], r) == r
  {
    if r.Ok? {
      assert [] + r.value == r.value;
    }
  }

  /**
   * How each chunk fares: the first chunk's exchange reads the next reply under the current
   * invoke id, and the remaining chunks fare as if started one reply and one id later.
   */
  function Outcomes<R>(outcome: (seq<byte>, byte) -> Result<seq<R>, ClientError>, count: nat, replies: seq<seq<byte>>, id: byte)
    : (outs: seq<Result<seq<R>, ClientError>>)
    ensures |outs| == count
    decreases count
  {
    if count == 0 then []
    else [outcome(NextReply(replies), id)] + Outcomes(outcome, count - 1, Drop(replies, 1), IdAfter(id, 1))
  }

  /** Since every exchange consumes exactly one reply and one id, the k-th chunk reads the k-th reply under the k-th id. */
  lemma {:induction false} OutcomeAt<R>(outcome: (seq<byte>, byte) -> Result<seq<R>, ClientError>, count: nat, replies: seq<seq<byte>>, id: byte, k: nat)
    requires k < count
    ensures Outcomes(outcome, count, replies, id)[k] == outcome(NextReply(Drop(replies, k)), IdAfter(id, k))
    decreases k
  {
    if k == 0 {
      assert Drop(replies, 0) == replies && IdAfter(id, 0) == id;
    } else {
      var rest := Outcomes(outcome, count - 1, Drop(replies, 1), IdAfter(id, 1));
      assert Outcomes(outcome, count, replies, id)[k] == rest[k - 1];
      OutcomeAt(outcome, count - 1, Drop(replies, 1), IdAfter(id, 1), k - 1);
      DropAfterOne(replies, k - 1);
      IdAfterOne(id, k - 1);
    }
  }

  /** Every chunk at once. */
  lemma OutcomesAt<R>(outcome: (seq<byte>, byte) -> Result<seq<R>, ClientError>, count: nat, replies: seq<seq<byte>>, id: byte)
    ensures forall k | 0 <= k < count :: Outcomes(outcome, count, replies, id)[k] == outcome(NextReply(Drop(replies, k)), IdAfter(id, k))
  {
    forall k | 0 <= k < count
      ensures Outcomes(outcome, count, replies, id)[k] == outcome(NextReply(Drop(replies, k)), IdAfter(id, k))
    {
      OutcomeAt(outcome, count, replies, id, k);
    }
  }

  lemma DropAfterOne(replies: seq<seq<byte>>, n: nat)
    ensures Drop(Drop(replies, 1), n) == Drop(replies, n + 1)
  {
    if 1 < |replies| && n < |replies| - 1 {
      assert replies[1..][n..] == replies[n + 1..];
    }
  }

  lemma IdAfterOne(start: byte, n: nat)
    ensures IdAfter(IdAfter(start, 1), n) == IdAfter(start, n + 1)
  {
    var q := (start + 1) / 256;
    assert start + 1 == 256 * q + IdAfter(start, 1);
  }

  /** The chunked result: the first failing chunk's error, or all the result lists in order. */
  function Joined<R>(outs: seq<Result<seq<R>, ClientError>>): Result<seq<R>, ClientError>
    decreases |outs|
  {
    if |outs| == 0 then Ok([])
    else match outs[0]
      case Err(e) => Err(e)
      case Ok(rs) => PrependOk(rs, Joined(outs[1..]))
  }

  /** Joined fails exactly when some chunk fails, and then with the first failing chunk's error. */
  lemma {:induction false} JoinedFirstError<R>(outs: seq<Result<seq<R>, ClientError>>, i: nat)
    requires i < |outs| && outs[i].Err? && forall k | 0 <= k < i :: outs[k].Ok?
    ensures Joined(outs) == Err(outs[i].error)
    decreases i
  {
    if i > 0 {
      JoinedFirstError(outs[1..], i - 1);
    }
  }

  /**
   * When every chunk is answered with one result per request, the chunked call succeeds with
   * exactly one result per request.
   */
  lemma {:induction false} JoinedResultCount<T, R>(outs: seq<Result<seq<R>, ClientError>>, chunks: seq<seq<T>>)
    requires |outs| == |chunks|
    requires forall k | 0 <= k < |chunks| :: outs[k].Ok? && |outs[k].value| == |chunks[k]|
    ensures Joined(outs).Ok? && |Joined(outs).value| == |Flatten(chunks)|
    decreases |chunks|
  {
    if |chunks| > 0 {
      JoinedResultCount(outs[1..], chunks[1..]);
    }
  }

  /** Hence the chunked read, answered that way, returns one result per requested attribute. */
  lemma ChunkedReadCount(requests: seq<G.AttributeDescriptor>, k: nat, replies: seq<seq<byte>>, id: byte)
    requires k > 0
    requires forall j | 0 <= j < |Chunks(requests, k)| :: ListReadOutcome(NextReply(Drop(replies, j)), IdAfter(id, j)).Ok?
                 && |ListReadOutcome(NextReply(Drop(replies, j)), IdAfter(id, j)).value| == |Chunks(requests, k)[j]|
    ensures var r := Joined(Outcomes(ListReadOutcome, |Chunks(requests, k)|, replies, id));
            r.Ok? && |r.value| == |requests|
  {
    var chunks := Chunks(requests, k);
    OutcomesAt(ListReadOutcome, |chunks|, replies, id);
    JoinedResultCount(Outcomes(ListReadOutcome, |chunks|, replies, id), chunks);
    FlattenChunks(requests, k);
  }

  /** and the chunked write, answered that way, returns one result per written attribute. */
  lemma ChunkedWriteCount(items: seq<(G.AttributeDescriptor, Data)>, k: nat, replies: seq<seq<byte>>, id: byte)
    requires k > 0
    requires forall j | 0 <= j < |Chunks(items, k)| :: ListWriteOutcome(NextReply(Drop(replies, j)), IdAfter(id, j)).Ok?
                 && |ListWriteOutcome(NextReply(Drop(replies, j)), IdAfter(id, j)).value| == |Chunks(items, k)[j]|
    ensures var r := Joined(Outcomes(ListWriteOutcome, |Chunks(items, k)|, replies, id));
            r.Ok? && |r.value| == |items|
  {
    var chunks := Chunks(items, k);
    OutcomesAt(ListWriteOutcome, |chunks|, replies, id);
    JoinedResultCount(Outcomes(ListWriteOutcome, |chunks|, replies, id), chunks);
    FlattenChunks(items, k);
  }

  /**
   * How many chunks the loop sends before it stops: up to and including the first failing
   * chunk, or all of them when none fails.
   */
  function Tried<R>(outs: seq<Result<seq<R>, ClientError>>): (n: nat)
    ensures n <= |outs|
    decreases |outs|
  {
    if |outs| == 0 then 0
    else if outs[0].Err? then 1
    else 1 + Tried(outs[1..])
  }

  /**
   * The chunks tried are every chunk when the call succeeds; when it fails, the last chunk tried
   * is the one that failed and every chunk before it succeeded.
   */
  lemma {:induction false} TriedIsFirstFailure<R>(outs: seq<Result<seq<R>, ClientError>>)
    ensures Joined(outs).Ok? <==> forall k | 0 <= k < |outs| :: outs[k].Ok?
    ensures Joined(outs).Ok? ==> Tried(outs) == |outs|
    ensures Joined(outs).Err? ==>
      0 < Tried(outs) && outs[Tried(outs) - 1] == Joined(outs)
      && forall k | 0 <= k < Tried(outs) - 1 :: outs[k].Ok?
    decreases |outs|
  {
    if |outs| > 0 {
      if outs[0].Ok? {
        var tail := outs[1..];
        TriedIsFirstFailure(tail);
        assert forall k | 1 <= k < |outs| :: outs[k] == tail[k - 1];
        if Joined(outs).Err? {
          assert Joined(tail).Err?;
          assert outs[Tried(outs) - 1] == tail[Tried(tail) - 1];
        }
      }
    }
  }

  /** One step of the loop: a chunk that succeeds is tried and the loop goes on; one that fails is the last tried. */
  lemma TriedStep<R>(outs: seq<Result<seq<R>, ClientError>>, i: nat)
    requires i < |outs|
    ensures outs[i].Ok? ==> Tried(outs[i..]) == 1 + Tried(outs[i + 1..])
    ensures outs[i].Err? ==> Tried(outs[i..]) == 1
  {
    assert outs[i..][0] == outs[i] && outs[i..][1..] == outs[i + 1..];
  }

  /**
   * One exchange of the chunked loop: a failing chunk ends the whole call with its error; a
   * result list is appended and the remaining chunks follow.
   */
  lemma JoinedAdvance<R>(outs: seq<Result<seq<R>, ClientError>>, i: nat, acc: seq<R>)
    requires i < |outs|
    ensures outs[i].Err? ==> PrependOk(acc, Joined(outs[i..])) == Err(outs[i].error)
    ensures outs[i].Ok? ==> PrependOk(acc, Joined(outs[i..])) == PrependOk(acc + outs[i].value, Joined(outs[i + 1..]))
  {
    assert outs[i..][0] == outs[i] && outs[i..][1..] == outs[i + 1..];
    if outs[i].Ok? {
      match Joined(outs[i + 1..])
      case Ok(more) => assert acc + (outs[i].value + more) == (acc + outs[i].value) + more;
      case Err(_) =>
    }
  }

  /** The frames the chunked read sends: one GET-Request-With-List per chunk, with consecutive invoke ids. */
  function ListReadRequests(chunks: seq<seq<G.AttributeDescriptor>>, id: byte): (frames: seq<seq<byte>>)
    ensures |frames| == |chunks|
    decreases |chunks|
  {
    if |chunks| == 0 then []
    else [G.RequestBytes(G.RequestWithList(id, chunks[0]))] + ListReadRequests(chunks[1..], IdAfter(id, 1))
  }

  /** The k-th frame of the chunked read asks for the k-th chunk under the k-th invoke id. */
  lemma {:induction false} ListReadRequestAt(chunks: seq<seq<G.AttributeDescriptor>>, id: byte, k: nat)
    requires k < |chunks|
    ensures ListReadRequests(chunks, id)[k] == G.RequestBytes(G.RequestWithList(IdAfter(id, k), chunks[k]))
    decreases k
  {
    if k == 0 {
      assert IdAfter(id, 0) == id;
    } else {
      ListReadRequestAt(chunks[1..], IdAfter(id, 1), k - 1);
      IdAfterOne(id, k - 1);
    }
  }

  /** The frames the chunked write sends: one SET-Request-With-List per chunk. */
  function ListWriteRequests(chunks: seq<seq<(G.AttributeDescriptor, Data)>>, id: byte): (frames: seq<seq<byte>>)
    ensures |frames| == |chunks|
    decreases |chunks|
  {
    if |chunks| == 0 then []
    else [S.RequestBytes(WriteListRequest(id, chunks[0]))] + ListWriteRequests(chunks[1..], IdAfter(id, 1))
  }

  /** The k-th frame of the chunked write sets the k-th chunk under the k-th invoke id. */
  lemma {:induction false} ListWriteRequestAt(chunks: seq<seq<(G.AttributeDescriptor, Data)>>, id: byte, k: nat)
    requires k < |chunks|
    ensures ListWriteRequests(chunks, id)[k] == S.RequestBytes(WriteListRequest(IdAfter(id, k), chunks[k]))
    decreases k
  {
    if k == 0 {
      assert IdAfter(id, 0) == id;
    } else {
      ListWriteRequestAt(chunks[1..], IdAfter(id, 1), k - 1);
      IdAfterOne(id, k - 1);
    }
  }

  /** The SET-Request-With-List of `write_multiple`: the descriptors and the values, in the items' order. */
  function WriteListRequest(id: byte, items: seq<(G.AttributeDescriptor, Data)>): (r: S.SetRequest)
    ensures r.RequestWithList? && r.invokeId == id && |r.descriptors| == |items| == |r.values|
    ensures forall i | 0 <= i < |items| :: (r.descriptors[i], r.values[i]) == items[i]
  {
    S.RequestWithList(id, seq(|items|, i requires 0 <= i < |items| => items[i].0), seq(|items|, i requires 0 <= i < |items| => items[i].1))
  }

  /** The logical name of the clock, 0.0.1.0.0.255. */
  const ClockName: Obis.ObisCode := Obis.ObisCode(0, 0, 1, 0, 0, 255)

  // ---------------------------------------------------------------------------
  // DlmsClient (lines 582-1448)
  // ---------------------------------------------------------------------------

  class DlmsClient {
    const session: DlmsSession
    /** The frames handed to the transport, oldest first. */
    var sent: seq<seq<byte>>
    /** The frames the transport will receive, in order. */
    var replies: seq<seq<byte>>

    /** `ClientBuilder::build_with_heap`: a fresh session on the transport. */
    constructor(settings: ClientSettings, replies: seq<seq<byte>>)
      ensures fresh(session) && session.settings == settings && session.state == InitialState && session.invokeId == 0
      ensures sent == [] && this.replies == replies
    {
      session := new DlmsSession(settings);
      sent := [];
      this.replies := replies;
    }

    /** `transport.send` followed by `transport.recv`. */
    method Exchange(request: seq<byte>) returns (reply: seq<byte>)
      modifies this
      ensures sent == old(sent) + [request] && reply == NextReply(old(replies)) && replies == Drop(old(replies), 1)
    {
      sent := sent + [request];
      reply := NextReply(replies);
      replies := Drop(replies, 1);
    }

    /** `connect`: the AARQ is sent; the AARE, if one is parsed, decides the association. */
    method Connect() returns (r: Result<(), ClientError>)
      requires Aarq.Encodable(session.GenerateAarq())
      modifies this, session
      ensures sent == old(sent) + [Aarq.AarqBytes(session.GenerateAarq())] && replies == Drop(old(replies), 1)
      ensures session.invokeId == old(session.invokeId)
      ensures var reply := NextReply(old(replies));
              && (|reply| == 0 ==> r == Err(ConnectionClosed) && session.state == old(session.state))
              && (|reply| > 0 && Aare.ParseAareSpec(reply).None? ==> r == Err(ParseError) && session.state == old(session.state))
              && (|reply| > 0 && Aare.ParseAareSpec(reply).Some? ==>
                  var aare := Aare.ParseAareSpec(reply).value.0;
                  && session.state == AareHandled(old(session.state), aare)
                  && (r.Ok? <==> aare.result == Accepted)
                  && (r.Err? ==> r.error == AssociationFailed(aare.result)))
    {
      var aarq := session.GenerateAarq();
      var encoded := Aarq.EncodeAarq(aarq);
      var reply := Exchange(encoded);
      if |reply| == 0 {
        return Err(ConnectionClosed);
      }
      var parsed := Aare.ParseAare(reply);
      if parsed.None? {
        return Err(ParseError);
      }
      var handled := session.HandleAare(parsed.value.0);
      if handled.Err? {
        return Err(AssociationFailed(handled.error));
      }
      r := Ok(());
    }

    /**
     * `disconnect`: without an association nothing is sent. Otherwise the release request is
     * sent; no reply, or any parsed RLRE, ends the association, while an unparsable reply is
     * a ParseError that leaves it in place.
     */
    method Disconnect() returns (r: Result<(), ClientError>)
      modifies this, session
      ensures session.invokeId == old(session.invokeId)
      ensures !old(session.state.associated) ==>
        r == Ok(()) && sent == old(sent) && replies == old(replies) && session.state == old(session.state)
      ensures old(session.state.associated) ==>
        && sent == old(sent) + [[0x62, 0x03, 0x80, 0x01, 0x00]] && replies == Drop(old(replies), 1)
        && var reply := NextReply(old(replies));
           if |reply| > 0 && Release.ParseSpec(reply, Release.RlreNumber).None?
           then r == Err(ParseError) && session.state == old(session.state)
           else r == Ok(()) && session.state == old(session.state).(associated := false)
    {
      if !session.state.associated {
        return Ok(());
      }
      var rlrq := session.GenerateReleaseRequest();
      var encoded := Release.Encode(Release.RlrqNumber, rlrq);
      var reply := Exchange(encoded);
      if |reply| == 0 {
        session.state := session.state.(associated := false);
        return Ok(());
      }
      var parsed := Release.Parse(reply, Release.RlreNumber);
      if parsed.None? {
        return Err(ParseError);
      }
      session.HandleReleaseResponse(parsed.value.0);
      r := Ok(());
    }

    /** `read`: refused without an association; otherwise one GET-Request-Normal and its answer. */
    method Read(classId: u16, obisCode: Obis.ObisCode, attributeId: i8, accessSelection: Option<G.AccessSelector>)
      returns (r: Result<Data, ClientError>)
      modifies this, session
      ensures session.state == old(session.state)
      ensures !old(session.state.associated) ==>
        r == Err(NotAssociated) && sent == old(sent) && replies == old(replies) && session.invokeId == old(session.invokeId)
      ensures old(session.state.associated) ==>
        && sent == old(sent) + [G.RequestBytes(G.RequestNormal(old(session.invokeId), G.AttributeDescriptor(classId, obisCode, attributeId), accessSelection))]
        && replies == Drop(old(replies), 1) && session.invokeId == IdAfter(old(session.invokeId), 1)
        && r == ReadOutcome(NextReply(old(replies)), old(session.invokeId))
    {
      if !session.state.associated {
        return Err(NotAssociated);
      }
      var request := session.GenerateGetRequest(classId, obisCode, attributeId, accessSelection);
      var invokeId := request.invokeId;
      var encoded := G.EncodeRequest(request);
      var reply := Exchange(encoded);
      if |reply| == 0 {
        return Err(ConnectionClosed);
      }
      var parsed := G.ParseResponse(reply);
      if parsed.None? {
        return Err(ParseError);
      }
      match DlmsSession.HandleGetResponse(parsed.value.0, invokeId) {
        case Ok(d) => r := Ok(d);
        case Err(e) => r := Err(DataAccessError(e));
      }
    }

    /** `write`: refused without an association; otherwise one SET-Request-Normal and its answer. */
    method Write(classId: u16, obisCode: Obis.ObisCode, attributeId: i8, value: Data, accessSelection: Option<G.AccessSelector>)
      returns (r: Result<(), ClientError>)
      modifies this, session
      ensures session.state == old(session.state)
      ensures !old(session.state.associated) ==>
        r == Err(NotAssociated) && sent == old(sent) && replies == old(replies) && session.invokeId == old(session.invokeId)
      ensures old(session.state.associated) ==>
        && sent == old(sent) + [S.RequestBytes(S.RequestNormal(old(session.invokeId), G.AttributeDescriptor(classId, obisCode, attributeId), accessSelection, value))]
        && replies == Drop(old(replies), 1) && session.invokeId == IdAfter(old(session.invokeId), 1)
        && r == WriteOutcome(NextReply(old(replies)), old(session.invokeId))
    {
      if !session.state.associated {
        return Err(NotAssociated);
      }
      var request := session.GenerateSetRequest(classId, obisCode, attributeId, value, accessSelection);
      var invokeId := request.invokeId;
      var encoded := S.EncodeRequest(request);
      var reply := Exchange(encoded);
      if |reply| == 0 {
        return Err(ConnectionClosed);
      }
      var parsed := S.ParseResponse(reply);
      if parsed.None? {
        return Err(ParseError);
      }
      match DlmsSession.HandleSetResponse(parsed.value.0, invokeId) {
        case Ok(_) => r := Ok(());
        case Err(e) => r := Err(DataAccessError(e));
      }
    }

    /** `method`: refused without an association; otherwise one ACTION-Request-Normal and its answer. */
    method Method(classId: u16, obisCode: Obis.ObisCode, methodId: i8, parameters: Option<Data>)
      returns (r: Result<Option<Data>, ClientError>)
      modifies this, session
      ensures session.state == old(session.state)
      ensures !old(session.state.associated) ==>
        r == Err(NotAssociated) && sent == old(sent) && replies == old(replies) && session.invokeId == old(session.invokeId)
      ensures old(session.state.associated) ==>
        && sent == old(sent) + [A.RequestBytes(A.RequestNormal(old(session.invokeId), A.MethodDescriptor(classId, obisCode, methodId, parameters)))]
        && replies == Drop(old(replies), 1) && session.invokeId == IdAfter(old(session.invokeId), 1)
        && r == MethodOutcome(NextReply(old(replies)), old(session.invokeId))
    {
      if !session.state.associated {
        return Err(NotAssociated);
      }
      var request := session.GenerateActionRequest(classId, obisCode, methodId, parameters);
      var invokeId := request.invokeId;
      var encoded := A.EncodeRequest(request);
      var reply := Exchange(encoded);
      if |reply| == 0 {
        return Err(ConnectionClosed);
      }
      var parsed := A.ParseResponse(reply);
      if parsed.None? {
        return Err(ParseError);
      }
      match DlmsSession.HandleActionResponse(parsed.value.0, invokeId) {
        case Ok(d) => r := Ok(d);
        case Err(e) => r := Err(ActionError(e));
      }
    }

    /** `read_multiple`: refused without an association, empty for no requests, else one With-List exchange. */
    method ReadMultiple(requests: seq<G.AttributeDescriptor>) returns (r: Result<seq<Result<Data, G.DataAccessResult>>, ClientError>)
      modifies this, session
      ensures session.state == old(session.state)
      ensures !old(session.state.associated) ==>
        r == Err(NotAssociated) && sent == old(sent) && replies == old(replies) && session.invokeId == old(session.invokeId)
      ensures old(session.state.associated) && |requests| == 0 ==>
        r == Ok([]) && sent == old(sent) && replies == old(replies) && session.invokeId == old(session.invokeId)
      ensures old(session.state.associated) && |requests| > 0 ==>
        && sent == old(sent) + [G.RequestBytes(G.RequestWithList(old(session.invokeId), requests))]
        && replies == Drop(old(replies), 1) && session.invokeId == IdAfter(old(session.invokeId), 1)
        && r == ListReadOutcome(NextReply(old(replies)), old(session.invokeId))
    {
      if !session.state.associated {
        return Err(NotAssociated);
      }
      if |requests| == 0 {
        return Ok([]);
      }
      var invokeId := session.NextInvokeId();
      var encoded := G.EncodeRequest(G.RequestWithList(invokeId, requests));
      var reply := Exchange(encoded);
      if |reply| == 0 {
        return Err(ConnectionClosed);
      }
      var parsed := G.ParseResponse(reply);
      if parsed.None? {
        return Err(ParseError);
      }
      var response := parsed.value.0;
      if !response.ResponseWithList? {
        return Err(UnexpectedResponse);
      }
      if response.invokeId != invokeId {
        return Err(InvokeIdMismatch);
      }
      r := Ok(ListResults(response.results));
    }

    /** The loop of `write_multiple` that splits the items into descriptors and values. */
    static method SplitItems(items: seq<(G.AttributeDescriptor, Data)>) returns (descriptors: seq<G.AttributeDescriptor>, values: seq<Data>)
      ensures S.RequestWithList(0, descriptors, values) == WriteListRequest(0, items)
    {
      descriptors := [];
      values := [];
      var i := 0;
      while i < |items|
        invariant 0 <= i <= |items| && |descriptors| == i && |values| == i
        invariant forall k | 0 <= k < i :: descriptors[k] == items[k].0 && values[k] == items[k].1
      {
        descriptors := descriptors + [items[i].0];
        values := values + [items[i].1];
        i := i + 1;
      }
    }

    /** `write_multiple`: refused without an association, empty for no items, else one With-List exchange. */
    method WriteMultiple(items: seq<(G.AttributeDescriptor, Data)>) returns (r: Result<seq<G.DataAccessResult>, ClientError>)
      modifies this, session
      ensures session.state == old(session.state)
      ensures !old(session.state.associated) ==>
        r == Err(NotAssociated) && sent == old(sent) && replies == old(replies) && session.invokeId == old(session.invokeId)
      ensures old(session.state.associated) && |items| == 0 ==>
        r == Ok([]) && sent == old(sent) && replies == old(replies) && session.invokeId == old(session.invokeId)
      ensures old(session.state.associated) && |items| > 0 ==>
        && sent == old(sent) + [S.RequestBytes(WriteListRequest(old(session.invokeId), items))]
        && replies == Drop(old(replies), 1) && session.invokeId == IdAfter(old(session.invokeId), 1)
        && r == ListWriteOutcome(NextReply(old(replies)), old(session.invokeId))
    {
      if !session.state.associated {
        return Err(NotAssociated);
      }
      if |items| == 0 {
        return Ok([]);
      }
      var invokeId := session.NextInvokeId();
      var descriptors, values := SplitItems(items);
      var encoded := S.EncodeRequest(S.RequestWithList(invokeId, descriptors, values));
      var reply := Exchange(encoded);
      if |reply| == 0 {
        return Err(ConnectionClosed);
      }
      var parsed := S.ParseResponse(reply);
      if parsed.None? {
        return Err(ParseError);
      }
      var response := parsed.value.0;
      if !response.ResponseWithList? {
        return Err(UnexpectedResponse);
      }
      if response.invokeId != invokeId {
        return Err(InvokeIdMismatch);
      }
      r := Ok(response.results);
    }

    /** One pass of the chunked loop: chunk i goes out under the i-th following id and takes the i-th remaining reply. */
    method ReadChunk(chunks: seq<seq<G.AttributeDescriptor>>, i: nat, ghost log: seq<seq<byte>>, ghost replies0: seq<seq<byte>>, ghost id0: byte,
        ghost outs: seq<Result<seq<Result<Data, G.DataAccessResult>>, ClientError>>)
      returns (r: Result<seq<Result<Data, G.DataAccessResult>>, ClientError>)
      requires i < |chunks| && |chunks[i]| > 0 && session.state.associated
      requires sent == log + ListReadRequests(chunks, id0)[..i]
      requires replies == Drop(replies0, i) && session.invokeId == IdAfter(id0, i)
      requires outs == Outcomes(ListReadOutcome, |chunks|, replies0, id0)
      modifies this, session
      ensures session.state == old(session.state)
      ensures sent == log + ListReadRequests(chunks, id0)[..i + 1]
      ensures replies == Drop(replies0, i + 1) && session.invokeId == IdAfter(id0, i + 1)
      ensures r == outs[i]
    {
      ghost var frames := ListReadRequests(chunks, id0);
      r := ReadMultiple(chunks[i]);
      ListReadRequestAt(chunks, id0, i);
      DropStep(replies0, i);
      IdAfterStep(id0, i);
      LogStep(log, frames, i);
      OutcomeAt(ListReadOutcome, |chunks|, replies0, id0, i);
    }

    /** The loop of the chunked read: one With-List exchange per chunk until a chunk fails. */
    method ReadChunks(chunks: seq<seq<G.AttributeDescriptor>>) returns (r: Result<seq<Result<Data, G.DataAccessResult>>, ClientError>)
      requires session.state.associated
      requires forall i | 0 <= i < |chunks| :: |chunks[i]| > 0
      modifies this, session
      ensures session.state == old(session.state)
      ensures var outs := Outcomes(ListReadOutcome, |chunks|, old(replies), old(session.invokeId));
        && r == Joined(outs)
        && sent == old(sent) + ListReadRequests(chunks, old(session.invokeId))[..Tried(outs)]
        && replies == Drop(old(replies), Tried(outs))
        && session.invokeId == IdAfter(old(session.invokeId), Tried(outs))
        && (r.Ok? ==> Tried(outs) == |chunks|)
    {
      ghost var id0 := session.invokeId;
      ghost var frames := ListReadRequests(chunks, id0);
      var allResults := [];
      var i := 0;
      ghost var outs := Outcomes(ListReadOutcome, |chunks|, replies, id0);
      assert outs == Outcomes(ListReadOutcome, |chunks|, old(replies), old(session.invokeId)) && outs[0..] == outs;
      PrependNothing(Joined(outs));
      while i < |chunks|
        invariant 0 <= i <= |chunks|
        invariant session.state == old(session.state)
        invariant sent == old(sent) + frames[..i]
        invariant replies == Drop(old(replies), i) && session.invokeId == IdAfter(id0, i)
        invariant Joined(outs) == PrependOk(allResults, Joined(outs[i..]))
        invariant Tried(outs) == i + Tried(outs[i..])
      {
        var chunkResults := ReadChunk(chunks, i, old(sent), old(replies), id0, outs);
        JoinedAdvance(outs, i, allResults);
        TriedStep(outs, i);
        if chunkResults.Err? {
          assert Joined(outs) == Err(chunkResults.error);
          return Err(chunkResults.error);
        }
        allResults := allResults + chunkResults.value;
        assert Joined(outs) == PrependOk(allResults, Joined(outs[i + 1..]));
        i := i + 1;
      }
      assert frames[..i] == frames && outs[i..] == [] && allResults + [] == allResults;
      r := Ok(allResults);
    }

    /**
     * `read_multiple_chunked`: the requests are read chunk by chunk, one With-List exchange per
     * chunk, and the result lists concatenated; the first failing chunk ends the call. A chunk
     * size of zero panics in `chunks`.
     */
    method ReadMultipleChunked(requests: seq<G.AttributeDescriptor>, maxPerRequest: Option<nat>)
      returns (r: Result<seq<Result<Data, G.DataAccessResult>>, ClientError>)
      requires session.state.associated && |requests| > 0 ==>
               ChunkSize(maxPerRequest, session.settings.maxAttributesPerRequest, |requests|) > 0
      modifies this, session
      ensures session.state == old(session.state)
      ensures !old(session.state.associated) ==>
        r == Err(NotAssociated) && sent == old(sent) && replies == old(replies) && session.invokeId == old(session.invokeId)
      ensures old(session.state.associated) && |requests| == 0 ==>
        r == Ok([]) && sent == old(sent) && replies == old(replies) && session.invokeId == old(session.invokeId)
      ensures old(session.state.associated) && |requests| > 0 ==>
        var chunks := Chunks(requests, ChunkSize(maxPerRequest, session.settings.maxAttributesPerRequest, |requests|));
        var outs := Outcomes(ListReadOutcome, |chunks|, old(replies), old(session.invokeId));
        && r == Joined(outs)
        && sent == old(sent) + ListReadRequests(chunks, old(session.invokeId))[..Tried(outs)]
        && replies == Drop(old(replies), Tried(outs))
        && session.invokeId == IdAfter(old(session.invokeId), Tried(outs))
        && (r.Ok? ==> Tried(outs) == |chunks|)
    {
      if !session.state.associated {
        return Err(NotAssociated);
      }
      if |requests| == 0 {
        return Ok([]);
      }
      var chunkSize := ChunkSize(maxPerRequest, session.settings.maxAttributesPerRequest, |requests|);
      var chunks := Chunks(requests, chunkSize);
      ChunksNonEmpty(requests, chunkSize);
      r := ReadChunks(chunks);
    }

    /** One pass of the chunked loop: chunk i goes out under the i-th following id and takes the i-th remaining reply. */
    method WriteChunk(chunks: seq<seq<(G.AttributeDescriptor, Data)>>, i: nat, ghost log: seq<seq<byte>>, ghost replies0: seq<seq<byte>>, ghost id0: byte,
        ghost outs: seq<Result<seq<G.DataAccessResult>, ClientError>>)
      returns (r: Result<seq<G.DataAccessResult>, ClientError>)
      requires i < |chunks| && |chunks[i]| > 0 && session.state.associated
      requires sent == log + ListWriteRequests(chunks, id0)[..i]
      requires replies == Drop(replies0, i) && session.invokeId == IdAfter(id0, i)
      requires outs == Outcomes(ListWriteOutcome, |chunks|, replies0, id0)
      modifies this, session
      ensures session.state == old(session.state)
      ensures sent == log + ListWriteRequests(chunks, id0)[..i + 1]
      ensures replies == Drop(replies0, i + 1) && session.invokeId == IdAfter(id0, i + 1)
      ensures r == outs[i]
    {
      ghost var frames := ListWriteRequests(chunks, id0);
      r := WriteMultiple(chunks[i]);
      ListWriteRequestAt(chunks, id0, i);
      DropStep(replies0, i);
      IdAfterStep(id0, i);
      LogStep(log, frames, i);
      OutcomeAt(ListWriteOutcome, |chunks|, replies0, id0, i);
    }

    /** The loop of the chunked write: one With-List exchange per chunk until a chunk fails. */
    method WriteChunks(chunks: seq<seq<(G.AttributeDescriptor, Data)>>) returns (r: Result<seq<G.DataAccessResult>, ClientError>)
      requires session.state.associated
      requires forall i | 0 <= i < |chunks| :: |chunks[i]| > 0
      modifies this, session
      ensures session.state == old(session.state)
      ensures var outs := Outcomes(ListWriteOutcome, |chunks|, old(replies), old(session.invokeId));
        && r == Joined(outs)
        && sent == old(sent) + ListWriteRequests(chunks, old(session.invokeId))[..Tried(outs)]
        && replies == Drop(old(replies), Tried(outs))
        && session.invokeId == IdAfter(old(session.invokeId), Tried(outs))
        && (r.Ok? ==> Tried(outs) == |chunks|)
    {
      ghost var id0 := session.invokeId;
      ghost var frames := ListWriteRequests(chunks, id0);
      var allResults := [];
      var i := 0;
      ghost var outs := Outcomes(ListWriteOutcome, |chunks|, replies, id0);
      assert outs == Outcomes(ListWriteOutcome, |chunks|, old(replies), old(session.invokeId)) && outs[0..] == outs;
      PrependNothing(Joined(outs));
      while i < |chunks|
        invariant 0 <= i <= |chunks|
        invariant session.state == old(session.state)
        invariant sent == old(sent) + frames[..i]
        invariant replies == Drop(old(replies), i) && session.invokeId == IdAfter(id0, i)
        invariant Joined(outs) == PrependOk(allResults, Joined(outs[i..]))
        invariant Tried(outs) == i + Tried(outs[i..])
      {
        var chunkResults := WriteChunk(chunks, i, old(sent), old(replies), id0, outs);
        JoinedAdvance(outs, i, allResults);
        TriedStep(outs, i);
        if chunkResults.Err? {
          assert Joined(outs) == Err(chunkResults.error);
          return Err(chunkResults.error);
        }
        allResults := allResults + chunkResults.value;
        assert Joined(outs) == PrependOk(allResults, Joined(outs[i + 1..]));
        i := i + 1;
      }
      assert frames[..i] == frames && outs[i..] == [] && allResults + [] == allResults;
      r := Ok(allResults);
    }

    /** `write_multiple_chunked`: the same loop over `write_multiple`. */
    method WriteMultipleChunked(items: seq<(G.AttributeDescriptor, Data)>, maxPerRequest: Option<nat>)
      returns (r: Result<seq<G.DataAccessResult>, ClientError>)
      requires session.state.associated && |items| > 0 ==>
               ChunkSize(maxPerRequest, session.settings.maxAttributesPerRequest, |items|) > 0
      modifies this, session
      ensures session.state == old(session.state)
      ensures !old(session.state.associated) ==>
        r == Err(NotAssociated) && sent == old(sent) && replies == old(replies) && session.invokeId == old(session.invokeId)
      ensures old(session.state.associated) && |items| == 0 ==>
        r == Ok([]) && sent == old(sent) && replies == old(replies) && session.invokeId == old(session.invokeId)
      ensures old(session.state.associated) && |items| > 0 ==>
        var chunks := Chunks(items, ChunkSize(maxPerRequest, session.settings.maxAttributesPerRequest, |items|));
        var outs := Outcomes(ListWriteOutcome, |chunks|, old(replies), old(session.invokeId));
        && r == Joined(outs)
        && sent == old(sent) + ListWriteRequests(chunks, old(session.invokeId))[..Tried(outs)]
        && replies == Drop(old(replies), Tried(outs))
        && session.invokeId == IdAfter(old(session.invokeId), Tried(outs))
        && (r.Ok? ==> Tried(outs) == |chunks|)
    {
      if !session.state.associated {
        return Err(NotAssociated);
      }
      if |items| == 0 {
        return Ok([]);
      }
      var chunkSize := ChunkSize(maxPerRequest, session.settings.maxAttributesPerRequest, |items|);
      var chunks := Chunks(items, chunkSize);
      ChunksNonEmpty(items, chunkSize);
      r := WriteChunks(chunks);
    }

    /** `read_clock`: attribute 2 of the clock, which must be a date-time. */
    method ReadClock() returns (r: Result<CosemDateTime, ClientError>)
      modifies this, session
      ensures session.state == old(session.state)
      ensures !old(session.state.associated) ==>
        r == Err(NotAssociated) && sent == old(sent) && replies == old(replies) && session.invokeId == old(session.invokeId)
      ensures old(session.state.associated) ==>
        && sent == old(sent) + [G.RequestBytes(G.RequestNormal(old(session.invokeId), G.AttributeDescriptor(8, ClockName, 2), None))]
        && replies == Drop(old(replies), 1) && session.invokeId == IdAfter(old(session.invokeId), 1)
        && var read := ReadOutcome(NextReply(old(replies)), old(session.invokeId));
           r == (if read.Err? then Err(read.error) else if read.value.DateTime? then Ok(read.value.dateTime) else Err(InvalidResponseData))
    {
      var data := Read(8, ClockName, 2, None);
      if data.Err? {
        return Err(data.error);
      }
      match data.value {
        case DateTime(dt) => r := Ok(dt);
        case _ => r := Err(InvalidResponseData);
      }
    }

    /** `set_clock`: the date-time written to attribute 2 of the clock. */
    method SetClock(time: CosemDateTime) returns (r: Result<(), ClientError>)
      modifies this, session
      ensures session.state == old(session.state)
      ensures !old(session.state.associated) ==>
        r == Err(NotAssociated) && sent == old(sent) && replies == old(replies) && session.invokeId == old(session.invokeId)
      ensures old(session.state.associated) ==>
        && sent == old(sent) + [S.RequestBytes(S.RequestNormal(old(session.invokeId), G.AttributeDescriptor(8, ClockName, 2), None, DateTime(time)))]
        && replies == Drop(old(replies), 1) && session.invokeId == IdAfter(old(session.invokeId), 1)
        && r == WriteOutcome(NextReply(old(replies)), old(session.invokeId))
    {
      r := Write(8, ClockName, 2, DateTime(time), None);
    }
  }
}
