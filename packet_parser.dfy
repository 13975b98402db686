/** The ECC's response dispatcher `PacketParser::Parse`: an empty buffer is
    refused, byte 0 picks one of five deserializers, the chosen deserializer
    reads the whole buffer, and any failure, including an unknown byte 0,
    becomes an error with no partial result. The deserializers, the record
    types they fill and the numeric values of `CommandType` are declared in
    headers outside this model, so they are parameters and abstract types
    here. */
module PacketParser {
  import opened Bytes

  /** Records of a status response, laid out in headers outside this model. */
  type RadarStatus
  type LCStatus
  type LSStatus
  type TargetStatus
  type MissileStatus
  /** Commands the acknowledgements are read into. */
  type RadarModeChange
  type LSModeChange
  type MissileLaunch
  type LSMove

  /** The five `CommandType` cases `Parse` handles. */
  datatype CommandKind = StatusResponse | RadarModeChangeAck | LsModeChangeAck | MissileLaunchAck | LsMoveAck

  /** The byte value of each handled `CommandType`. */
  datatype CommandTags = CommandTags(
    statusResponse: u8, radarModeChangeAck: u8, lsModeChangeAck: u8, missileLaunchAck: u8, lsMoveAck: u8)

  /** The tag of each kind. */
  function Tag(tags: CommandTags, k: CommandKind): u8
  {
    match k
    case StatusResponse => tags.statusResponse
    case RadarModeChangeAck => tags.radarModeChangeAck
    case LsModeChangeAck => tags.lsModeChangeAck
    case MissileLaunchAck => tags.missileLaunchAck
    case LsMoveAck => tags.lsMoveAck
  }

  /** The case labels of a `switch` are distinct. */
  predicate Distinct(tags: CommandTags)
  {
    forall k1: CommandKind, k2: CommandKind :: Tag(tags, k1) == Tag(tags, k2) ==> k1 == k2
  }

  /** `static_cast<CommandType>(data[0])` followed by the `switch`. */
  function KindOf(tags: CommandTags, b: u8): (k: Option<CommandKind>)
    ensures k.Some? ==> Tag(tags, k.value) == b
    ensures k.None? ==> forall k' :: Tag(tags, k') != b
  {
    if b == tags.statusResponse then Some(StatusResponse)
    else if b == tags.radarModeChangeAck then Some(RadarModeChangeAck)
    else if b == tags.lsModeChangeAck then Some(LsModeChangeAck)
    else if b == tags.missileLaunchAck then Some(MissileLaunchAck)
    else if b == tags.lsMoveAck then Some(LsMoveAck)
    else None
  }

  /** The five lists a status response carries. */
  datatype StatusLists = StatusLists(
    radars: seq<RadarStatus>, lcs: seq<LCStatus>, lss: seq<LSStatus>,
    targets: seq<TargetStatus>, missiles: seq<MissileStatus>)

  /** The deserializers `Parse` calls, each given the whole buffer; `None`
      stands for a `false` return. The acknowledgement deserializers write
      into a command object viewed as its acknowledgement type, so they are
      given here as producing the command. */
  datatype Deserializers = Deserializers(
    statusResponse: seq<u8> -> Option<StatusLists>,
    radarModeAck: seq<u8> -> Option<RadarModeChange>,
    lsModeAck: seq<u8> -> Option<LSModeChange>,
    missileAck: seq<u8> -> Option<MissileLaunch>,
    lsMoveAck: seq<u8> -> Option<LSMove>)

  /** The `ParsedPacket` variant `Parse` returns. */
  datatype ParsedPacket =
    | ParsedStatusResponse(radarList: seq<RadarStatus>, lcList: seq<LCStatus>, lsList: seq<LSStatus>,
                           targetList: seq<TargetStatus>, missileList: seq<MissileStatus>)
    | RadarModeChangeCmd(radarMode: RadarModeChange)
    | LSModeChangeCmd(lsMode: LSModeChange)
    | MissileLaunchCmd(launch: MissileLaunch)
    | LSMoveCmd(move: LSMove)

  /** The `runtime_error`s `Parse` throws. */
  datatype ParseError = EmptyBuffer | UnknownCommand(tag: u8) | DeserializeFailed(kind: CommandKind)

  datatype Result<T> = Ok(value: T) | Err(error: ParseError)

  /** The kind of command a parsed packet answers. */
  function KindOfPacket(p: ParsedPacket): CommandKind
  {
    match p
    case ParsedStatusResponse(_, _, _, _, _) => StatusResponse
    case RadarModeChangeCmd(_) => RadarModeChangeAck
    case LSModeChangeCmd(_) => LsModeChangeAck
    case MissileLaunchCmd(_) => MissileLaunchAck
    case LSMoveCmd(_) => LsMoveAck
  }

  /** One case of the `switch`: run that deserializer on the whole buffer. */
  function Dispatch(ds: Deserializers, k: CommandKind, buffer: seq<u8>): (r: Result<ParsedPacket>)
    ensures r.Ok? ==> KindOfPacket(r.value) == k
    ensures r.Err? ==> r.error == DeserializeFailed(k)
  {
    match k
    case StatusResponse =>
      (match ds.statusResponse(buffer)
       case None => Err(DeserializeFailed(k))
       case Some(l) => Ok(ParsedStatusResponse(l.radars, l.lcs, l.lss, l.targets, l.missiles)))
    case RadarModeChangeAck =>
      (match ds.radarModeAck(buffer)
       case None => Err(DeserializeFailed(k))
       case Some(cmd) => Ok(RadarModeChangeCmd(cmd)))
    case LsModeChangeAck =>
      (match ds.lsModeAck(buffer)
       case None => Err(DeserializeFailed(k))
       case Some(cmd) => Ok(LSModeChangeCmd(cmd)))
    case MissileLaunchAck =>
      (match ds.missileAck(buffer)
       case None => Err(DeserializeFailed(k))
       case Some(cmd) => Ok(MissileLaunchCmd(cmd)))
    case LsMoveAck =>
      (match ds.lsMoveAck(buffer)
       case None => Err(DeserializeFailed(k))
       case Some(cmd) => Ok(LSMoveCmd(cmd)))
  }

  /** `PacketParser::Parse(buffer, length)`. */
  function Parse(tags: CommandTags, ds: Deserializers, buffer: seq<u8>): (r: Result<ParsedPacket>)
    ensures |buffer| == 0 ==> r == Err(EmptyBuffer)
    ensures r.Ok? ==> |buffer| > 0 && Tag(tags, KindOfPacket(r.value)) == buffer[0]
  {
    if |buffer| == 0 then Err(EmptyBuffer)
    else
      match KindOf(tags, buffer[0])
      case None => Err(UnknownCommand(buffer[0]))
      case Some(k) => Dispatch(ds, k, buffer)
  }

  /** A byte 0 that is none of the five tags fails, whatever follows it. */
  lemma UnknownTagFails(tags: CommandTags, ds: Deserializers, buffer: seq<u8>)
    requires |buffer| > 0 && forall k :: Tag(tags, k) != buffer[0]
    ensures Parse(tags, ds, buffer) == Err(UnknownCommand(buffer[0]))
  {
  }

  /** Byte 0 alone picks the case: a buffer starting with the tag of `k`
      goes to the deserializer of `k`, given the whole buffer. */
  lemma TagSelectsCase(tags: CommandTags, ds: Deserializers, buffer: seq<u8>, k: CommandKind)
    requires Distinct(tags) && |buffer| > 0 && buffer[0] == Tag(tags, k)
    ensures Parse(tags, ds, buffer) == Dispatch(ds, k, buffer)
  {
    var found := KindOf(tags, buffer[0]);
    assert found.Some?;
    assert Tag(tags, found.value) == Tag(tags, k);
  }

  /** Parsing succeeds exactly when the buffer is non-empty, byte 0 is a
      known tag and that tag's deserializer accepts the whole buffer; the
      result then answers the command of byte 0. */
  lemma ParseSucceedsIff(tags: CommandTags, ds: Deserializers, buffer: seq<u8>)
    requires Distinct(tags)
    ensures Parse(tags, ds, buffer).Ok? <==>
      (|buffer| > 0 && exists k :: Tag(tags, k) == buffer[0] && Dispatch(ds, k, buffer).Ok?)
  {
    if |buffer| > 0 {
      if k :| Tag(tags, k) == buffer[0] {
        TagSelectsCase(tags, ds, buffer, k);
      } else {
        UnknownTagFails(tags, ds, buffer);
      }
    }
  }

  /** A status response whose deserializer fails is a failure, with no
      lists; one that succeeds yields the five lists in order, exactly as
      the deserializer produced them from the whole buffer. */
  lemma StatusResponseParsed(tags: CommandTags, ds: Deserializers, buffer: seq<u8>)
    requires Distinct(tags) && |buffer| > 0 && buffer[0] == tags.statusResponse
    ensures ds.statusResponse(buffer).None? ==> Parse(tags, ds, buffer) == Err(DeserializeFailed(StatusResponse))
    ensures ds.statusResponse(buffer).Some? ==>
      var l := ds.statusResponse(buffer).value;
      Parse(tags, ds, buffer) == Ok(ParsedStatusResponse(l.radars, l.lcs, l.lss, l.targets, l.missiles))
  {
    TagSelectsCase(tags, ds, buffer, StatusResponse);
  }

  /** A radar mode acknowledgement yields the radar mode command, or fails
      when its deserializer does. */
  lemma RadarModeAckParsed(tags: CommandTags, ds: Deserializers, buffer: seq<u8>)
    requires Distinct(tags) && |buffer| > 0 && buffer[0] == tags.radarModeChangeAck
    ensures ds.radarModeAck(buffer).None? ==> Parse(tags, ds, buffer) == Err(DeserializeFailed(RadarModeChangeAck))
    ensures ds.radarModeAck(buffer).Some? ==>
      Parse(tags, ds, buffer) == Ok(RadarModeChangeCmd(ds.radarModeAck(buffer).value))
  {
    TagSelectsCase(tags, ds, buffer, RadarModeChangeAck);
  }

  /** A launcher mode acknowledgement yields the launcher mode command, or
      fails when its deserializer does. */
  lemma LsModeAckParsed(tags: CommandTags, ds: Deserializers, buffer: seq<u8>)
    requires Distinct(tags) && |buffer| > 0 && buffer[0] == tags.lsModeChangeAck
    ensures ds.lsModeAck(buffer).None? ==> Parse(tags, ds, buffer) == Err(DeserializeFailed(LsModeChangeAck))
    ensures ds.lsModeAck(buffer).Some? ==>
      Parse(tags, ds, buffer) == Ok(LSModeChangeCmd(ds.lsModeAck(buffer).value))
  {
    TagSelectsCase(tags, ds, buffer, LsModeChangeAck);
  }

  /** A missile launch acknowledgement yields the launch command, or fails
      when its deserializer does. */
  lemma MissileAckParsed(tags: CommandTags, ds: Deserializers, buffer: seq<u8>)
    requires Distinct(tags) && |buffer| > 0 && buffer[0] == tags.missileLaunchAck
    ensures ds.missileAck(buffer).None? ==> Parse(tags, ds, buffer) == Err(DeserializeFailed(MissileLaunchAck))
    ensures ds.missileAck(buffer).Some? ==>
      Parse(tags, ds, buffer) == Ok(MissileLaunchCmd(ds.missileAck(buffer).value))
  {
    TagSelectsCase(tags, ds, buffer, MissileLaunchAck);
  }

  /** A launcher move acknowledgement yields the move command, or fails
      when its deserializer does. */
  lemma LsMoveAckParsed(tags: CommandTags, ds: Deserializers, buffer: seq<u8>)
    requires Distinct(tags) && |buffer| > 0 && buffer[0] == tags.lsMoveAck
    ensures ds.lsMoveAck(buffer).None? ==> Parse(tags, ds, buffer) == Err(DeserializeFailed(LsMoveAck))
    ensures ds.lsMoveAck(buffer).Some? ==>
      Parse(tags, ds, buffer) == Ok(LSMoveCmd(ds.lsMoveAck(buffer).value))
  {
    TagSelectsCase(tags, ds, buffer, LsMoveAck);
  }
}
