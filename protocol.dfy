/** The datagram layouts shared by the server (server.cpp) and the client
    (client.cpp), as pure encoders and decoders.

    The opcode values live in net.h, which is not part of this model: the
    constants below are stand-ins, and nothing here depends on them beyond
    their being six different bytes. */
module Protocol {
  import opened Bytes

  const P_UPDATE: byte := 1
  const P_GETWORLD: byte := 2
  const P_GETCLIENTINFO: byte := 3
  const P_WORLD: byte := 4
  const P_CLIENTINFO: byte := 5
  const P_PLAYERUPDATE: byte := 6

  const MAP_BYTES := 32 * 32
  const PART_BYTES := 256
  const WORLD_LEN := 258
  const UPDATE_LEN := 6
  const PLAYERUPDATE_LEN := 21

  /** One tick of a client's input: the key bitmask and the two quantised
      look angles. */
  datatype Input = Input(keys: byte, aimr: u16, aimp: u16)

  /** What Game::getPlayerUpdate fills in for one player: keys, health and
      ammo (`kha`) and eight quantised words (`pv`: position, velocity, aim). */
  datatype Snapshot = Snapshot(kha: seq<byte>, pv: seq<u16>)

  predicate WellFormed(s: Snapshot)
  {
    |s.kha| == 3 && |s.pv| == 8
  }

  /** A datagram handed to SDLNet_UDP_Send on a channel: on the server the
      channel is the client's slot, on the client it is always 0. */
  datatype Datagram = Datagram(channel: int, data: seq<byte>)

  /** A client-to-server datagram as the server's processPacket reads it. */
  datatype Request = Update(input: Input) | GetWorld(part: byte) | GetClientInfo | Unheeded

  /** A server-to-client datagram as the client's processPacket reads it. */
  datatype Reply =
    | World(part: nat, chunk: seq<byte>)
    | ClientInfo(id: byte)
    | PlayerUpdate(index: byte, snap: Snapshot)
    | Disregarded

  // ---------------------------------------------------------------- client -> server

  /** sendClientUpdate: opcode, keys, then both angles big-endian. */
  function UpdatePacket(u: Input): (p: seq<byte>)
    ensures |p| == UPDATE_LEN && p[0] == P_UPDATE && p[1] == u.keys
    ensures Read16(p[2], p[3]) == u.aimr && Read16(p[4], p[5]) == u.aimp
  {
    [P_UPDATE, u.keys] + Write16(u.aimr) + Write16(u.aimp)
  }

  /** sendConnectRequest asks for one map part with a 2-byte datagram. */
  function GetWorldPacket(part: byte): (p: seq<byte>)
    ensures |p| == 2 && p[0] == P_GETWORLD && p[1] == part
  {
    [P_GETWORLD, part]
  }

  /** Once the map is complete it asks for activation with the bare opcode. */
  function GetClientInfoPacket(): (p: seq<byte>)
    ensures |p| == 1 && p[0] == P_GETCLIENTINFO
  {
    [P_GETCLIENTINFO]
  }

  /** The server's processPacket: the opcode picks the branch, and a
      datagram shorter than its branch needs, an empty one, or one with an
      unknown opcode is left unheeded. GETCLIENTINFO carries no payload, so
      any length will do. */
  function DecodeRequest(p: seq<byte>): (r: Request)
    ensures r.Update? ==> |p| >= UPDATE_LEN && p[0] == P_UPDATE
    ensures r.GetWorld? ==> |p| >= 2 && p[0] == P_GETWORLD && r.part == p[1]
    ensures r.GetClientInfo? <==> |p| >= 1 && p[0] == P_GETCLIENTINFO
    ensures |p| == 0 ==> r == Unheeded
  {
    if |p| < 1 then Unheeded
    else if p[0] == P_UPDATE then
      if |p| < UPDATE_LEN then Unheeded
      else Update(Input(p[1], Read16(p[2], p[3]), Read16(p[4], p[5])))
    else if p[0] == P_GETWORLD then
      if |p| < 2 then Unheeded else GetWorld(p[1])
    else if p[0] == P_GETCLIENTINFO then GetClientInfo
    else Unheeded
  }

  /** UPDATE round trip: the server recovers exactly the keys and both
      angles the client sent. */
  lemma UpdateRoundTrip(u: Input)
    ensures DecodeRequest(UpdatePacket(u)) == Update(u)
  {
  }

  /** ... and conversely every UPDATE the server accepts starts with the
      encoding of what it decoded, so nothing in the first six bytes is lost. */
  lemma UpdateDecodedIsEncoded(p: seq<byte>)
    requires DecodeRequest(p).Update?
    ensures p[..UPDATE_LEN] == UpdatePacket(DecodeRequest(p).input)
  {
    var u := DecodeRequest(p).input;
    Write16Read16(p[2], p[3]);
    Write16Read16(p[4], p[5]);
    assert p[..UPDATE_LEN] == [p[0], p[1]] + [p[2], p[3]] + [p[4], p[5]];
  }

  lemma ConnectRequestsRoundTrip(part: byte)
    ensures DecodeRequest(GetWorldPacket(part)) == GetWorld(part)
    ensures DecodeRequest(GetClientInfoPacket()) == GetClientInfo
  {
  }

  // ---------------------------------------------------------------- server -> client

  /** sendWorld: opcode, part number, then the part's 256 map bytes. */
  function WorldPacket(m: seq<byte>, part: nat): (p: seq<byte>)
    requires |m| == MAP_BYTES && part <= 3
    ensures |p| == WORLD_LEN && p[0] == P_WORLD && p[1] as nat == part
    ensures p[2..] == m[part * PART_BYTES .. part * PART_BYTES + PART_BYTES]
  {
    [P_WORLD, part as byte] + m[part * PART_BYTES .. part * PART_BYTES + PART_BYTES]
  }

  /** sendClientInfo: opcode and the slot number the client was given. */
  function ClientInfoPacket(c: byte): (p: seq<byte>)
    ensures |p| == 2 && p[0] == P_CLIENTINFO && p[1] == c
  {
    [P_CLIENTINFO, c]
  }

  /** sendPlayerUpdates: opcode, player index, the three kha bytes, then the
      eight words big-endian from offset 5 on. */
  function PlayerUpdatePacket(i: byte, s: Snapshot): (p: seq<byte>)
    requires WellFormed(s)
    ensures |p| == PLAYERUPDATE_LEN && p[0] == P_PLAYERUPDATE && p[1] == i
    ensures p[2..5] == s.kha
  {
    [P_PLAYERUPDATE, i] + s.kha + Words(s.pv)
  }

  /** Word j of a PLAYERUPDATE sits at offsets 5+2j and 6+2j. */
  lemma PlayerUpdateWordAt(i: byte, s: Snapshot, j: nat)
    requires WellFormed(s) && j < 8
    ensures PlayerUpdatePacket(i, s)[5 + 2 * j .. 7 + 2 * j] == Write16(s.pv[j])
  {
    var p := PlayerUpdatePacket(i, s);
    WordsAt(s.pv, j);
    assert p[5..] == Words(s.pv);
    assert p[5 + 2 * j .. 7 + 2 * j] == p[5..][2 * j .. 2 * j + 2];
  }

  /** The same, byte by byte. */
  lemma PlayerUpdateBytesAt(i: byte, s: Snapshot, j: nat)
    requires WellFormed(s) && j < 8
    ensures PlayerUpdatePacket(i, s)[5 + 2 * j] == Write16(s.pv[j])[0]
    ensures PlayerUpdatePacket(i, s)[6 + 2 * j] == Write16(s.pv[j])[1]
  {
    PlayerUpdateWordAt(i, s, j);
  }

  /** The client's processPacket. A WORLD datagram needs 258 bytes and a part
      number whose first byte, part*256, does not pass 32*32-256; CLIENTINFO
      needs 2 bytes; PLAYERUPDATE needs 21. Anything else is disregarded. */
  function DecodeReply(p: seq<byte>): (r: Reply)
    ensures r.World? ==> |p| >= WORLD_LEN && p[0] == P_WORLD && r.part == p[1] as nat
                          && r.part <= 3 && r.chunk == p[2..WORLD_LEN]
    ensures r.ClientInfo? <==> |p| >= 2 && p[0] == P_CLIENTINFO
    ensures r.PlayerUpdate? ==> |p| >= PLAYERUPDATE_LEN && p[0] == P_PLAYERUPDATE && WellFormed(r.snap)
    ensures |p| == 0 ==> r == Disregarded
  {
    if |p| < 1 then Disregarded
    else if p[0] == P_WORLD then
      if |p| < WORLD_LEN || p[1] as nat * PART_BYTES > MAP_BYTES - PART_BYTES then Disregarded
      else World(p[1] as nat, p[2..WORLD_LEN])
    else if p[0] == P_CLIENTINFO then
      if |p| < 2 then Disregarded else ClientInfo(p[1])
    else if p[0] == P_PLAYERUPDATE then
      if |p| < PLAYERUPDATE_LEN then Disregarded
      else PlayerUpdate(p[1], Snapshot(p[2..5], ReadWords(p[5..PLAYERUPDATE_LEN])))
    else Disregarded
  }

  /** WORLD round trip: the client reads back the part number and exactly
      the 256 map bytes the server put in. */
  lemma WorldRoundTrip(m: seq<byte>, part: nat)
    requires |m| == MAP_BYTES && part <= 3
    ensures DecodeReply(WorldPacket(m, part))
            == World(part, m[part * PART_BYTES .. part * PART_BYTES + PART_BYTES])
  {
    var p := WorldPacket(m, part);
    assert p[2..WORLD_LEN] == m[part * PART_BYTES .. part * PART_BYTES + PART_BYTES];
  }

  lemma ClientInfoRoundTrip(c: byte)
    ensures DecodeReply(ClientInfoPacket(c)) == ClientInfo(c)
  {
  }

  /** PLAYERUPDATE round trip: index, kha and all eight words come back. */
  lemma PlayerUpdateRoundTrip(i: byte, s: Snapshot)
    requires WellFormed(s)
    ensures DecodeReply(PlayerUpdatePacket(i, s)) == PlayerUpdate(i, s)
  {
    var p := PlayerUpdatePacket(i, s);
    assert p[5..PLAYERUPDATE_LEN] == Words(s.pv);
    ReadWordsWords(s.pv);
  }
}
