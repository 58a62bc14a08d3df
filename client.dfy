/** The client's side of the session (client.cpp): the map download in four
    parts, the activation handshake, and the per-frame input update.

    The socket is modelled by `sent`, the datagrams handed to
    SDLNet_UDP_Send in order (the client only ever sends on channel 0);
    the calls into the game (Game::setClientID, Game::setPlayerUpdate) are
    recorded in `calls`; Game::getClientUpdate's answer is an argument. */
module Client {
  import opened Bytes
  import opened Wrappers
  import opened Protocol

  datatype GameCall =
    | SetClientID(id: byte)
    | SetPlayerUpdate(player: byte, snap: Snapshot)

  // ------------------------------------------------------------ specification

  /** The parts among 0..n-1 not yet downloaded, in ascending order. */
  function MissingParts(d: seq<bool>, n: nat): (r: seq<nat>)
    requires n <= |d|
    ensures forall k :: 0 <= k < |r| ==> r[k] < n && !d[r[k]]
    ensures forall k, l :: 0 <= k < l < |r| ==> r[k] < r[l]
  {
    if n == 0 then [] else MissingParts(d, n - 1) + (if !d[n - 1] then [n - 1] else [])
  }

  /** ... and every missing part below n is among them. */
  lemma {:induction false} MissingPartsComplete(d: seq<bool>, n: nat)
    requires n <= |d|
    ensures forall q :: 0 <= q < n && !d[q] ==> q in MissingParts(d, n)
  {
    if n > 0 {
      MissingPartsComplete(d, n - 1);
      var r0 := MissingParts(d, n - 1);
      var r := MissingParts(d, n);
      if !d[n - 1] {
        assert r == r0 + [n - 1];
        forall q | 0 <= q < n && !d[q]
          ensures q in r
        {
          if q < n - 1 {
            assert q in r0;
          } else {
            assert r[|r0|] == q;
          }
        }
      } else {
        assert r == r0;
      }
    }
  }

  /** Nothing is missing exactly when every part below n is downloaded. */
  lemma MissingPartsEmpty(d: seq<bool>, n: nat)
    requires n <= |d|
    ensures |MissingParts(d, n)| == 0 <==> forall q :: 0 <= q < n ==> d[q]
  {
    MissingPartsComplete(d, n);
    var r := MissingParts(d, n);
    if |r| > 0 {
      assert !d[r[0]];
    }
  }

  /** A GETWORLD request on channel 0 per part in ps, in the same order. */
  function WorldRequests(ps: seq<nat>): (r: seq<Datagram>)
    requires forall k :: 0 <= k < |ps| ==> ps[k] < 256
    ensures |r| == |ps|
  {
    if |ps| == 0 then [] else WorldRequests(ps[..|ps| - 1]) + [Datagram(0, GetWorldPacket(ps[|ps| - 1] as byte))]
  }

  /** One step of sendConnectRequest's loop. */
  lemma WorldRequestsStep(d: seq<bool>, n: nat)
    requires n < |d| <= 256
    ensures WorldRequests(MissingParts(d, n + 1))
            == WorldRequests(MissingParts(d, n)) + (if !d[n] then [Datagram(0, GetWorldPacket(n as byte))] else [])
    ensures |MissingParts(d, n + 1)| == |MissingParts(d, n)| + (if !d[n] then 1 else 0)
  {
    var ps := MissingParts(d, n);
    if !d[n] {
      assert (ps + [n])[..|ps|] == ps;
    } else {
      assert MissingParts(d, n + 1) == ps;
    }
  }

  /** Request k asks, in the server's reading, for part ps[k]. */
  lemma {:induction false} WorldRequestsDecode(ps: seq<nat>, k: nat)
    requires (forall j :: 0 <= j < |ps| ==> ps[j] < 256) && k < |ps|
    ensures WorldRequests(ps)[k] == Datagram(0, GetWorldPacket(ps[k] as byte))
    ensures DecodeRequest(WorldRequests(ps)[k].data) == GetWorld(ps[k] as byte)
  {
    if k < |ps| - 1 {
      WorldRequestsDecode(ps[..|ps| - 1], k);
    } else {
      ConnectRequestsRoundTrip(ps[k] as byte);
    }
  }

  /** What sendConnectRequest sends for the download flags d: a GETWORLD
      for each missing part, or a single GETCLIENTINFO once none is. */
  function ConnectRequests(d: seq<bool>): seq<Datagram>
    requires |d| == 4
  {
    var ps := MissingParts(d, 4);
    if |ps| == 0 then [Datagram(0, GetClientInfoPacket())] else WorldRequests(ps)
  }

  /** With nothing downloaded, part k is the k-th missing one. */
  lemma {:induction false} NothingDownloadedAllMissing(d: seq<bool>, n: nat)
    requires n <= |d| && forall q :: 0 <= q < n ==> !d[q]
    ensures |MissingParts(d, n)| == n
    ensures forall k :: 0 <= k < n ==> MissingParts(d, n)[k] == k
  {
    if n > 0 {
      NothingDownloadedAllMissing(d, n - 1);
      assert MissingParts(d, n) == MissingParts(d, n - 1) + [n - 1];
    }
  }

  /** A client that has nothing yet asks for parts 0, 1, 2 and 3. */
  lemma ConnectRequestsFromScratch(d: seq<bool>)
    requires d == [false, false, false, false]
    ensures ConnectRequests(d)
            == [Datagram(0, GetWorldPacket(0)), Datagram(0, GetWorldPacket(1)),
                Datagram(0, GetWorldPacket(2)), Datagram(0, GetWorldPacket(3))]
  {
    NothingDownloadedAllMissing(d, 4);
    var ps := MissingParts(d, 4);
    WorldRequestsDecode(ps, 0);
    WorldRequestsDecode(ps, 1);
    WorldRequestsDecode(ps, 2);
    WorldRequestsDecode(ps, 3);
  }

  /** Read by the server's decoder, the connect requests ask, on channel
      0, for exactly the missing parts in ascending order, or for activation
      once (and only once) every part is downloaded. */
  lemma ConnectRequestsAskForMissing(d: seq<bool>)
    requires |d| == 4
    ensures var r := ConnectRequests(d);
            var ps := MissingParts(d, 4);
            && ((forall q :: 0 <= q < 4 ==> d[q]) ==> r == [Datagram(0, GetClientInfoPacket())])
            && ((forall q :: 0 <= q < 4 ==> d[q]) ==> DecodeRequest(r[0].data) == GetClientInfo)
            && ((exists q :: 0 <= q < 4 && !d[q]) ==>
                  |r| == |ps| && forall k :: 0 <= k < |r| ==>
                    r[k].channel == 0 && DecodeRequest(r[k].data) == GetWorld(ps[k] as byte))
  {
    var ps := MissingParts(d, 4);
    var r := ConnectRequests(d);
    MissingPartsEmpty(d, 4);
    if |ps| == 0 {
      ConnectRequestsRoundTrip(0);
    } else {
      forall k | 0 <= k < |r|
        ensures r[k].channel == 0 && DecodeRequest(r[k].data) == GetWorld(ps[k] as byte)
      {
        WorldRequestsDecode(ps, k);
      }
    }
  }

  /** The map after one WORLD chunk lands at part*256. */
  function Spliced(m: seq<byte>, part: nat, chunk: seq<byte>): (r: seq<byte>)
    requires |m| == MAP_BYTES && part <= 3 && |chunk| == PART_BYTES
    ensures |r| == MAP_BYTES
    ensures forall k :: 0 <= k < MAP_BYTES ==>
              r[k] == if part * PART_BYTES <= k < part * PART_BYTES + PART_BYTES
                      then chunk[k - part * PART_BYTES] else m[k]
  {
    m[..part * PART_BYTES] + chunk + m[part * PART_BYTES + PART_BYTES..]
  }

  /** Every part the client has marked downloaded holds the server's bytes. */
  ghost predicate Agrees(m: seq<byte>, d: seq<bool>, srv: seq<byte>)
  {
    && |m| == MAP_BYTES && |srv| == MAP_BYTES && |d| == 4
    && forall k :: 0 <= k < MAP_BYTES && d[k / PART_BYTES] ==> m[k] == srv[k]
  }

  /** A fresh client has nothing downloaded, so it agrees with any map. */
  lemma NothingDownloadedAgrees(m: seq<byte>, srv: seq<byte>)
    requires |m| == MAP_BYTES && |srv| == MAP_BYTES
    ensures Agrees(m, [false, false, false, false], srv)
  {
  }

  /** Receiving the server's WORLD datagram for a part keeps the agreement
      and marks that part downloaded. */
  lemma {:induction false} WorldPacketKeepsAgreement(m: seq<byte>, d: seq<bool>, srv: seq<byte>, part: nat)
    requires Agrees(m, d, srv) && part <= 3
    ensures var r := DecodeReply(WorldPacket(srv, part));
            && r.World? && r.part == part
            && Agrees(Spliced(m, r.part, r.chunk), d[r.part := true], srv)
  {
    WorldRoundTrip(srv, part);
    var r := DecodeReply(WorldPacket(srv, part));
    var m' := Spliced(m, part, r.chunk);
    forall k | 0 <= k < MAP_BYTES && d[part := true][k / PART_BYTES]
      ensures m'[k] == srv[k]
    {
      if part * PART_BYTES <= k < part * PART_BYTES + PART_BYTES {
        assert r.chunk[k - part * PART_BYTES] == srv[k];
      } else {
        assert k / PART_BYTES != part;
      }
    }
  }

  /** Once all four parts are marked, the client's map is the server's. */
  lemma {:induction false} AllPartsGiveServerMap(m: seq<byte>, d: seq<bool>, srv: seq<byte>)
    requires Agrees(m, d, srv) && forall q :: 0 <= q < 4 ==> d[q]
    ensures m == srv
  {
    forall k | 0 <= k < MAP_BYTES
      ensures m[k] == srv[k]
    {
      assert d[k / PART_BYTES];
    }
  }

  /** What the client knows and has done: its map, the download flags,
      the connection status and the calls made into the game. */
  datatype View = View(world: seq<byte>, parts: seq<bool>, status: int, calls: seq<GameCall>)

  predicate ViewOk(v: View)
  {
    |v.world| == MAP_BYTES && |v.parts| == 4 && v.status in {0, 1}
  }

  /** processPacket on the view: a WORLD chunk is spliced into the map and
      its part marked downloaded, CLIENTINFO hands the slot number to the
      game and connects, PLAYERUPDATE is handed to the game, anything else
      is disregarded. */
  function ApplyReply(v: View, p: seq<byte>): (r: View)
    requires ViewOk(v)
    ensures ViewOk(r)
  {
    match DecodeReply(p)
    case World(part, chunk) => v.(world := Spliced(v.world, part, chunk), parts := v.parts[part := true])
    case ClientInfo(id) => v.(status := 1, calls := v.calls + [SetClientID(id)])
    case PlayerUpdate(i, s) => v.(calls := v.calls + [SetPlayerUpdate(i, s)])
    case Disregarded => v
  }

  /** updateClient's receive loop: the replies ps applied in order. */
  function Replies(v: View, ps: seq<seq<byte>>): (r: View)
    requires ViewOk(v)
    ensures ViewOk(r)
  {
    if ps == [] then v else ApplyReply(Replies(v, ps[..|ps| - 1]), ps[|ps| - 1])
  }

  lemma RepliesSnoc(v: View, ps: seq<seq<byte>>, p: seq<byte>)
    requires ViewOk(v)
    ensures Replies(v, ps + [p]) == ApplyReply(Replies(v, ps), p)
  {
    assert (ps + [p])[..|ps|] == ps;
  }

  /** Draining loses nothing: the calls only grow; the client is connected
      afterwards exactly when it was before or some reply was a CLIENTINFO;
      and a part is downloaded afterwards exactly when it was before or
      some reply was a WORLD chunk of it. */
  lemma {:induction false} RepliesGrow(v: View, ps: seq<seq<byte>>)
    requires ViewOk(v)
    ensures var r := Replies(v, ps);
            && v.calls <= r.calls
            && (r.status == 1 <==> v.status == 1 || exists p :: p in ps && DecodeReply(p).ClientInfo?)
            && forall q :: 0 <= q < 4 ==>
                 (r.parts[q] <==> v.parts[q] || exists p :: p in ps && DecodeReply(p).World? && DecodeReply(p).part == q)
  {
    if ps != [] {
      var ps' := ps[..|ps| - 1];
      var last := ps[|ps| - 1];
      RepliesGrow(v, ps');
      var d := Replies(v, ps');
      var r := Replies(v, ps);
      assert r == ApplyReply(d, last);
      assert forall p :: p in ps <==> p in ps' || p == last by {
        assert ps == ps' + [last];
      }
    }
  }

  /** Reply p is one the server could have sent for map srv: a WORLD
      chunk carries srv's bytes for its part. */
  predicate FromServer(p: seq<byte>, srv: seq<byte>)
    requires |srv| == MAP_BYTES
  {
    var r := DecodeReply(p);
    r.World? ==> r.chunk == srv[r.part * PART_BYTES .. r.part * PART_BYTES + PART_BYTES]
  }

  /** Every reply the server builds for map srv passes FromServer. */
  lemma ServerRepliesFromServer(srv: seq<byte>, part: nat, c: byte, i: byte, s: Snapshot)
    requires |srv| == MAP_BYTES && part <= 3 && WellFormed(s)
    ensures FromServer(WorldPacket(srv, part), srv)
    ensures FromServer(ClientInfoPacket(c), srv)
    ensures FromServer(PlayerUpdatePacket(i, s), srv)
  {
    WorldRoundTrip(srv, part);
    ClientInfoRoundTrip(c);
    PlayerUpdateRoundTrip(i, s);
  }

  /** One reply from the server keeps the downloaded parts equal to the
      server's map. */
  lemma ApplyReplyKeepsAgreement(v: View, p: seq<byte>, srv: seq<byte>)
    requires ViewOk(v) && Agrees(v.world, v.parts, srv) && FromServer(p, srv)
    ensures Agrees(ApplyReply(v, p).world, ApplyReply(v, p).parts, srv)
  {
    var r := DecodeReply(p);
    if r.World? {
      var m' := Spliced(v.world, r.part, r.chunk);
      forall k | 0 <= k < MAP_BYTES && v.parts[r.part := true][k / PART_BYTES]
        ensures m'[k] == srv[k]
      {
        if r.part * PART_BYTES <= k < r.part * PART_BYTES + PART_BYTES {
          assert r.chunk[k - r.part * PART_BYTES] == srv[k];
        } else {
          assert k / PART_BYTES != r.part;
        }
      }
    }
  }

  /** Draining any replies from the server keeps the agreement: every
      part marked downloaded holds the server's bytes. */
  lemma {:induction false} RepliesKeepAgreement(v: View, ps: seq<seq<byte>>, srv: seq<byte>)
    requires ViewOk(v) && Agrees(v.world, v.parts, srv)
    requires forall p :: p in ps ==> FromServer(p, srv)
    ensures Agrees(Replies(v, ps).world, Replies(v, ps).parts, srv)
  {
    if ps != [] {
      var ps' := ps[..|ps| - 1];
      assert forall p :: p in ps' ==> p in ps;
      RepliesKeepAgreement(v, ps', srv);
      ApplyReplyKeepsAgreement(Replies(v, ps'), ps[|ps| - 1], srv);
    }
  }

  // ------------------------------------------------------------ packet builders

  /** sendConnectRequest's loop over the four download flags, with its
      `waiting` flag deciding whether GETCLIENTINFO follows. */
  method ConnectRequestLoop(d: seq<bool>) returns (out: seq<Datagram>)
    requires |d| == 4
    ensures out == ConnectRequests(d)
  {
    var waiting := false;
    out := [];
    for part := 0 to 4
      invariant out == WorldRequests(MissingParts(d, part))
      invariant waiting <==> |MissingParts(d, part)| > 0
    {
      WorldRequestsStep(d, part);
      if !d[part] {
        waiting := true;
        out := out + [Datagram(0, GetWorldPacket(part as byte))];
      }
    }
    if !waiting {
      out := out + [Datagram(0, GetClientInfoPacket())];
    }
  }

  // ------------------------------------------------------------ packet readers

  /** processPacket's PLAYERUPDATE loop: SDLNet_Read16 at offsets 5+2j. */
  method ReadPlayerWords(p: seq<byte>) returns (pv: seq<u16>)
    requires |p| >= PLAYERUPDATE_LEN
    ensures pv == ReadWords(p[5..PLAYERUPDATE_LEN])
    ensures |pv| == 8
  {
    var a := new u16[8];
    for j := 0 to 8
      invariant a[..j] == ReadWords(p[5..5 + 2 * j])
    {
      a[j] := Read16(p[5 + 2 * j], p[6 + 2 * j]);
      assert p[5..5 + 2 * (j + 1)] == p[5..5 + 2 * j] + [p[5 + 2 * j], p[6 + 2 * j]];
      ReadWordsSnoc(p[5..5 + 2 * j], p[5 + 2 * j], p[6 + 2 * j]);
      assert a[..j + 1] == a[..j] + [a[j]];
    }
    pv := a[..];
  }

  // ------------------------------------------------------------ the client

  class ClientState {
    var connectstatus: int
    const downloadedMapPart: array<bool>
    /** The game's map, which Game::getMap hands out and WORLD chunks fill. */
    const gameMap: array<byte>
    var sent: seq<Datagram>
    var calls: seq<GameCall>

    ghost predicate Valid()
      reads this
    {
      downloadedMapPart.Length == 4 && gameMap.Length == MAP_BYTES && connectstatus in {0, 1}
    }

    /** initClient followed by its first sendConnectRequest: nothing is
        downloaded yet, so all four parts are asked for. */
    constructor (m: seq<byte>)
      requires |m| == MAP_BYTES
      ensures Valid() && fresh(downloadedMapPart) && fresh(gameMap)
      ensures connectstatus == 0 && calls == [] && gameMap[..] == m
      ensures downloadedMapPart[..] == [false, false, false, false]
      ensures sent == [Datagram(0, GetWorldPacket(0)), Datagram(0, GetWorldPacket(1)),
                      Datagram(0, GetWorldPacket(2)), Datagram(0, GetWorldPacket(3))]
    {
      connectstatus := 0;
      downloadedMapPart := new bool[4](_ => false);
      gameMap := new byte[MAP_BYTES](k requires 0 <= k < MAP_BYTES => m[k]);
      sent := [];
      calls := [];
      new;
      assert downloadedMapPart[..] == [false, false, false, false];
      ConnectRequestsFromScratch(downloadedMapPart[..]);
      SendConnectRequest();
    }

    /** sendConnectRequest. */
    method SendConnectRequest()
      requires Valid()
      modifies this`sent
      ensures sent == old(sent) + ConnectRequests(downloadedMapPart[..])
    {
      var out := ConnectRequestLoop(downloadedMapPart[..]);
      sent := sent + out;
    }

    /** processPacket's copy loop for a WORLD chunk. */
    method CopyChunk(start: nat, p: seq<byte>)
      requires Valid() && start <= MAP_BYTES - PART_BYTES && |p| >= WORLD_LEN
      modifies gameMap
      ensures forall k :: 0 <= k < MAP_BYTES ==>
                gameMap[k] == if start <= k < start + PART_BYTES then p[k - start + 2] else old(gameMap[k])
    {
      for i := 0 to PART_BYTES
        invariant forall k :: 0 <= k < MAP_BYTES ==>
                    gameMap[k] == if start <= k < start + i then p[k - start + 2] else old(gameMap[k])
      {
        gameMap[start + i] := p[i + 2];
      }
    }

    /** The class's state as a View. */
    ghost function ViewOf(): View
      reads this, gameMap, downloadedMapPart
    {
      View(gameMap[..], downloadedMapPart[..], connectstatus, calls)
    }

    /** processPacket. */
    method ProcessPacket(p: seq<byte>)
      requires Valid()
      modifies this`connectstatus, this`calls, gameMap, downloadedMapPart
      ensures Valid()
      ensures ViewOf() == ApplyReply(old(ViewOf()), p)
    {
      if |p| < 1 {
        return;
      }
      if p[0] == P_WORLD {
        if |p| < WORLD_LEN {
          return;
        }
        var start := p[1] as int * PART_BYTES;
        if start > MAP_BYTES - PART_BYTES {
          return;
        }
        CopyChunk(start, p);
        downloadedMapPart[p[1] as int] := true;
        assert gameMap[..] == Spliced(old(gameMap[..]), p[1] as nat, p[2..WORLD_LEN]);
      } else if p[0] == P_CLIENTINFO {
        if |p| < 2 {
          return;
        }
        calls := calls + [SetClientID(p[1])];
        connectstatus := 1;
      } else if p[0] == P_PLAYERUPDATE {
        if |p| < PLAYERUPDATE_LEN {
          return;
        }
        var pv := ReadPlayerWords(p);
        calls := calls + [SetPlayerUpdate(p[1], Snapshot(p[2..5], pv))];
      }
    }

    /** sendClientUpdate: nothing when the game has no update to give. */
    method SendClientUpdate(u: Option<Input>)
      modifies this`sent
      ensures sent == old(sent) + (if u.Some? then [Datagram(0, UpdatePacket(u.value))] else [])
    {
      if u.Some? {
        sent := sent + [Datagram(0, UpdatePacket(u.value))];
      }
    }

    /** updateClient: drain the socket, then either ask to connect again or
        send this frame's input. */
    method UpdateClient(incoming: seq<seq<byte>>, u: Option<Input>)
      requires Valid()
      modifies this`connectstatus, this`calls, this`sent, gameMap, downloadedMapPart
      ensures Valid()
      ensures var v := Replies(old(ViewOf()), incoming);
              && ViewOf() == v
              && sent == old(sent) + if v.status == 0 then ConnectRequests(v.parts)
                                     else if u.Some? then [Datagram(0, UpdatePacket(u.value))] else []
    {
      ghost var v0 := ViewOf();
      for j := 0 to |incoming|
        invariant Valid() && sent == old(sent)
        invariant ViewOf() == Replies(v0, incoming[..j])
      {
        RepliesSnoc(v0, incoming[..j], incoming[j]);
        assert incoming[..j + 1] == incoming[..j] + [incoming[j]];
        ProcessPacket(incoming[j]);
      }
      assert incoming[..|incoming|] == incoming;
      if connectstatus == 0 {
        SendConnectRequest();
      } else {
        SendClientUpdate(u);
      }
    }
  }
}
