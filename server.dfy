/** The server's session table (server.cpp): eight client slots keyed by
    transport address, the request handler, the 5000 ms inactivity timeout
    and the 50 ms broadcast of every active player's state.

    The socket is modelled by `sent`, the datagrams handed to
    SDLNet_UDP_Send in order, each tagged with the channel (slot) it goes to;
    the calls into the game (Game::setKeys, setAim, respawnPlayer,
    removePlayer) are recorded in `calls`; the clock is the `now` argument. */
module Server {
  import opened Bytes
  import opened Wrappers
  import opened Protocol

  const MAX_CLIENTS := 8
  const FREE := 0
  const ACTIVE := 1
  const CONNECTING := 2
  const TIMEOUT_MS := 5000
  const TICK_MS := 50

  datatype Address = Address(host: bv32, port: bv16)

  /** One entry of `clients[]`. */
  datatype Client = Client(address: Address, state: int, lasttime: int)

  datatype Incoming = Incoming(from: Address, data: seq<byte>)

  datatype GameCall =
    | SetKeys(player: int, keys: byte)
    | SetAim(player: int, aimr: u16, aimp: u16)
    | RespawnPlayer(player: int)
    | RemovePlayer(player: int)

  // ------------------------------------------------------------ specification

  /** The slot connectClient takes: the lowest free one, or -1. */
  function FirstFree(cs: seq<Client>): (r: int)
    ensures -1 <= r < |cs|
    ensures r == -1 <==> forall k :: 0 <= k < |cs| ==> cs[k].state != FREE
    ensures r >= 0 ==> cs[r].state == FREE && forall k :: 0 <= k < r ==> cs[k].state != FREE
  {
    if cs == [] then -1
    else if cs[0].state == FREE then 0
    else
      var r := FirstFree(cs[1..]);
      if r == -1 then -1 else r + 1
  }

  /** The slot updateServer attributes a datagram to: the lowest used slot
      whose host and port both match, or -1. */
  function Lookup(cs: seq<Client>, a: Address): (r: int)
    ensures -1 <= r < |cs|
    ensures r == -1 <==> forall k :: 0 <= k < |cs| ==> cs[k].state == FREE || cs[k].address != a
    ensures r >= 0 ==> cs[r].state != FREE && cs[r].address == a
                       && forall k :: 0 <= k < r ==> cs[k].state == FREE || cs[k].address != a
  {
    if cs == [] then -1
    else if cs[0].state != FREE && cs[0].address == a then 0
    else
      var r := Lookup(cs[1..], a);
      if r == -1 then -1 else r + 1
  }

  /** What processPacket does to the table, to the game and to the socket. */
  datatype Effect = Effect(clients: seq<Client>, calls: seq<GameCall>, sent: seq<Datagram>)

  /** sendWorld's answer: one WORLD datagram for a part up to 3, nothing
      for a larger part. */
  function WorldReply(m: seq<byte>, c: int, part: byte): seq<Datagram>
    requires |m| == MAP_BYTES
  {
    if part as int * PART_BYTES > MAP_BYTES - PART_BYTES then []
    else [Datagram(c, WorldPacket(m, part as nat))]
  }

  /** processPacket for slot i. */
  function Handle(cs: seq<Client>, m: seq<byte>, i: int, p: seq<byte>): Effect
    requires 0 <= i < |cs| <= MAX_CLIENTS && |m| == MAP_BYTES
  {
    match DecodeRequest(p)
    case Update(u) => Effect(cs, [SetKeys(i, u.keys), SetAim(i, u.aimr, u.aimp)], [])
    case GetWorld(part) =>
      Effect(cs, [], if cs[i].state == CONNECTING then WorldReply(m, i, part) else [])
    case GetClientInfo =>
      Effect(cs[i := cs[i].(state := ACTIVE)], [RespawnPlayer(i)], [Datagram(i, ClientInfoPacket(i as byte))])
    case Unheeded => Effect(cs, [], [])
  }

  /** processPacket touches no slot but i, and never its address or its
      time stamp. */
  lemma HandleTouchesOnlySlot(cs: seq<Client>, m: seq<byte>, i: int, p: seq<byte>)
    requires 0 <= i < |cs| <= MAX_CLIENTS && |m| == MAP_BYTES
    ensures var e := Handle(cs, m, i, p);
            && |e.clients| == |cs|
            && (forall k :: 0 <= k < |cs| && k != i ==> e.clients[k] == cs[k])
            && e.clients[i].address == cs[i].address && e.clients[i].lasttime == cs[i].lasttime
  {
  }

  /** An empty datagram, a short UPDATE, a short GETWORLD or an unknown
      opcode changes nothing at all. */
  lemma HandleIgnoresMalformed(cs: seq<Client>, m: seq<byte>, i: int, p: seq<byte>)
    requires 0 <= i < |cs| <= MAX_CLIENTS && |m| == MAP_BYTES
    requires || |p| == 0
             || (p[0] == P_UPDATE && |p| < UPDATE_LEN)
             || (p[0] == P_GETWORLD && |p| < 2)
             || p[0] !in {P_UPDATE, P_GETWORLD, P_GETCLIENTINFO}
    ensures Handle(cs, m, i, p) == Effect(cs, [], [])
  {
  }

  /** GETWORLD is answered only while the slot is still connecting, and
      then with the requested 256 bytes of the map. */
  lemma GetWorldOnlyWhileConnecting(cs: seq<Client>, m: seq<byte>, i: int, part: byte)
    requires 0 <= i < |cs| <= MAX_CLIENTS && |m| == MAP_BYTES
    ensures var e := Handle(cs, m, i, GetWorldPacket(part));
            && e.clients == cs && e.calls == []
            && (e.sent != [] <==> cs[i].state == CONNECTING && part as int <= 3)
            && (e.sent != [] ==> DecodeReply(e.sent[0].data)
                                 == World(part as nat, m[part as nat * PART_BYTES .. part as nat * PART_BYTES + PART_BYTES]))
  {
    var e := Handle(cs, m, i, GetWorldPacket(part));
    if e.sent != [] {
      WorldRoundTrip(m, part as nat);
    }
  }

  /** GETCLIENTINFO activates the slot, respawns its player and tells the
      client its slot number. */
  lemma GetClientInfoActivates(cs: seq<Client>, m: seq<byte>, i: int)
    requires 0 <= i < |cs| <= MAX_CLIENTS && |m| == MAP_BYTES
    ensures var e := Handle(cs, m, i, GetClientInfoPacket());
            && e.clients == cs[i := cs[i].(state := ACTIVE)]
            && e.calls == [RespawnPlayer(i)]
            && e.sent == [Datagram(i, [P_CLIENTINFO, i as byte])]
  {
  }

  /** The UPDATE a client builds reaches the game as the same keys and
      angles. */
  lemma UpdateReachesGame(cs: seq<Client>, m: seq<byte>, i: int, u: Input)
    requires 0 <= i < |cs| <= MAX_CLIENTS && |m| == MAP_BYTES
    ensures Handle(cs, m, i, UpdatePacket(u))
            == Effect(cs, [SetKeys(i, u.keys), SetAim(i, u.aimr, u.aimp)], [])
  {
    UpdateRoundTrip(u);
  }

  /** The timeout sweep applied to one slot: a used slot silent for more
      than 5000 ms is freed. */
  function Expire(c: Client, now: int): Client
  {
    if c.lasttime < now - TIMEOUT_MS && c.state != FREE then c.(state := FREE) else c
  }

  /** Exactly 5000 ms of silence is survived; 5001 ms is not. */
  lemma ExpireBoundary(c: Client)
    ensures Expire(c, c.lasttime + TIMEOUT_MS) == c
    ensures Expire(c, c.lasttime + TIMEOUT_MS + 1).state == FREE
  {
  }

  /** The removePlayer calls the sweep makes over slots 0..n-1, in order. */
  function Expired(cs: seq<Client>, now: int, n: nat): (r: seq<GameCall>)
    requires n <= |cs|
    ensures forall g :: g in r ==> g.RemovePlayer? && 0 <= g.player < n
                                   && Expire(cs[g.player], now).state != cs[g.player].state
  {
    if n == 0 then []
    else Expired(cs, now, n - 1)
         + (if Expire(cs[n - 1], now) != cs[n - 1] then [RemovePlayer(n - 1)] else [])
  }

  /** Every slot is free, active or connecting. */
  predicate StatesOk(cs: seq<Client>)
  {
    forall k :: 0 <= k < |cs| ==> cs[k].state in {FREE, ACTIVE, CONNECTING}
  }

  /** One datagram of updateServer's receive loop at time now: from a known
      address it is handled in that slot, which is then stamped; from an
      unknown one it takes the first free slot, connecting, and is handled
      there; with no slot free it is dropped. */
  function Receipt(cs: seq<Client>, m: seq<byte>, pkt: Incoming, now: int): (e: Effect)
    requires |cs| <= MAX_CLIENTS && |m| == MAP_BYTES
    ensures |e.clients| == |cs|
  {
    var k := Lookup(cs, pkt.from);
    var f := FirstFree(cs);
    if k >= 0 then
      var e := Handle(cs, m, k, pkt.data);
      e.(clients := e.clients[k := e.clients[k].(lasttime := now)])
    else if f >= 0 then
      Handle(cs[f := Client(pkt.from, CONNECTING, now)], m, f, pkt.data)
    else
      Effect(cs, [], [])
  }

  /** A datagram changes at most the one slot it is attributed to, which
      then carries the sender's address and the time stamp now; the states
      stay valid. */
  lemma ReceiptTouchesOneSlot(cs: seq<Client>, m: seq<byte>, pkt: Incoming, now: int)
    requires |cs| <= MAX_CLIENTS && |m| == MAP_BYTES
    ensures var e := Receipt(cs, m, pkt, now);
            && (StatesOk(cs) ==> StatesOk(e.clients))
            && forall k :: 0 <= k < |cs| && e.clients[k] != cs[k] ==>
                 && e.clients[k].lasttime == now && e.clients[k].address == pkt.from
                 && e.clients[k].state != FREE
                 && forall l :: 0 <= l < |cs| && l != k ==> e.clients[l] == cs[l]
  {
    var k := Lookup(cs, pkt.from);
    var f := FirstFree(cs);
    if k >= 0 {
      HandleTouchesOnlySlot(cs, m, k, pkt.data);
    } else if f >= 0 {
      HandleTouchesOnlySlot(cs[f := Client(pkt.from, CONNECTING, now)], m, f, pkt.data);
    }
  }

  /** With every slot taken by other addresses, a datagram from a new
      address is dropped without a trace; a known address always gets its
      slot stamped. */
  lemma ReceiptDropsOrStamps(cs: seq<Client>, m: seq<byte>, pkt: Incoming, now: int)
    requires |cs| <= MAX_CLIENTS && |m| == MAP_BYTES
    ensures var e := Receipt(cs, m, pkt, now);
            && ((forall k :: 0 <= k < |cs| ==> cs[k].state != FREE && cs[k].address != pkt.from)
                ==> e == Effect(cs, [], []))
            && (Lookup(cs, pkt.from) >= 0 ==> e.clients[Lookup(cs, pkt.from)].lasttime == now)
  {
  }

  /** updateServer's receive loop over the pending datagrams ps, in order,
      starting from the table, calls and datagrams of e: each datagram's
      Receipt is applied to the table the previous ones left, and its
      calls and replies are appended. */
  function Drain(e: Effect, m: seq<byte>, ps: seq<Incoming>, now: int): (r: Effect)
    requires |e.clients| <= MAX_CLIENTS && |m| == MAP_BYTES
    ensures |r.clients| == |e.clients|
  {
    if ps == [] then e
    else
      var d := Drain(e, m, ps[..|ps| - 1], now);
      var r := Receipt(d.clients, m, ps[|ps| - 1], now);
      Effect(r.clients, d.calls + r.calls, d.sent + r.sent)
  }

  /** After the receive loop the states are still valid, the calls and the
      datagrams sent have only grown, and every slot that changed was
      stamped now and belongs to one of the senders. */
  lemma {:induction false} DrainStamps(e: Effect, m: seq<byte>, ps: seq<Incoming>, now: int)
    requires |e.clients| <= MAX_CLIENTS && |m| == MAP_BYTES
    ensures var r := Drain(e, m, ps, now);
            && (StatesOk(e.clients) ==> StatesOk(r.clients))
            && e.calls <= r.calls && e.sent <= r.sent
            && forall k :: 0 <= k < |e.clients| && r.clients[k] != e.clients[k] ==>
                 r.clients[k].lasttime == now && exists p :: p in ps && p.from == r.clients[k].address
  {
    if ps != [] {
      var q := ps[..|ps| - 1];
      var d := Drain(e, m, q, now);
      DrainStamps(e, m, q, now);
      ReceiptTouchesOneSlot(d.clients, m, ps[|ps| - 1], now);
      var r := Drain(e, m, ps, now);
      forall k | 0 <= k < |e.clients| && r.clients[k] != e.clients[k]
        ensures r.clients[k].lasttime == now && exists p :: p in ps && p.from == r.clients[k].address
      {
        if r.clients[k] != d.clients[k] {
          assert ps[|ps| - 1] in ps;
        } else {
          var p :| p in q && p.from == d.clients[k].address;
          assert p in ps;
        }
      }
    }
  }

  /** Draining one more datagram is one more Receipt. */
  lemma DrainSnoc(e: Effect, m: seq<byte>, ps: seq<Incoming>, p: Incoming, now: int)
    requires |e.clients| <= MAX_CLIENTS && |m| == MAP_BYTES
    ensures var d := Drain(e, m, ps, now);
            var r := Receipt(d.clients, m, p, now);
            Drain(e, m, ps + [p], now) == Effect(r.clients, d.calls + r.calls, d.sent + r.sent)
  {
    assert (ps + [p])[..|ps|] == ps;
  }

  /** sendPlayerUpdates' inner loop: one copy of the packet to every active
      slot among the first n, in slot order. */
  function Fanout(cs: seq<Client>, pkt: seq<byte>, n: nat): (r: seq<Datagram>)
    requires n <= |cs|
    ensures forall d :: d in r ==> 0 <= d.channel < n && cs[d.channel].state == ACTIVE && d.data == pkt
  {
    if n == 0 then []
    else Fanout(cs, pkt, n - 1) + (if cs[n - 1].state == ACTIVE then [Datagram(n - 1, pkt)] else [])
  }

  predicate SnapshotsOk(snaps: seq<Option<Snapshot>>)
  {
    |snaps| == MAX_CLIENTS && forall k :: 0 <= k < |snaps| && snaps[k].Some? ==> WellFormed(snaps[k].value)
  }

  /** sendPlayerUpdates over players 0..n-1: a PLAYERUPDATE for every active
      player whose state the game could report. */
  function Broadcast(cs: seq<Client>, snaps: seq<Option<Snapshot>>, n: nat): seq<Datagram>
    requires |cs| == MAX_CLIENTS && SnapshotsOk(snaps) && n <= MAX_CLIENTS
  {
    if n == 0 then []
    else Broadcast(cs, snaps, n - 1)
         + (if cs[n - 1].state == ACTIVE && snaps[n - 1].Some?
            then Fanout(cs, PlayerUpdatePacket((n - 1) as byte, snaps[n - 1].value), |cs|)
            else [])
  }

  lemma BroadcastStep(cs: seq<Client>, snaps: seq<Option<Snapshot>>, i: nat)
    requires |cs| == MAX_CLIENTS && SnapshotsOk(snaps) && i < MAX_CLIENTS
    ensures Broadcast(cs, snaps, i + 1)
            == Broadcast(cs, snaps, i)
               + (if cs[i].state == ACTIVE && snaps[i].Some?
                  then Fanout(cs, PlayerUpdatePacket(i as byte, snaps[i].value), MAX_CLIENTS)
                  else [])
  {
  }

  /** Datagram d goes to an active slot and decodes, on the client, to the
      reported state of an active player among the first n. */
  ghost predicate Delivers(cs: seq<Client>, snaps: seq<Option<Snapshot>>, n: nat, d: Datagram)
    requires |cs| == MAX_CLIENTS && SnapshotsOk(snaps) && n <= MAX_CLIENTS
  {
    && 0 <= d.channel < MAX_CLIENTS && cs[d.channel].state == ACTIVE
    && DecodeReply(d.data).PlayerUpdate?
    && var k := DecodeReply(d.data).index as int;
       k < n && cs[k].state == ACTIVE && snaps[k] == Some(DecodeReply(d.data).snap)
  }

  /** The copies of one player's PLAYERUPDATE all satisfy Delivers. */
  lemma {:induction false} FanoutDelivers(cs: seq<Client>, snaps: seq<Option<Snapshot>>, n: nat)
    requires |cs| == MAX_CLIENTS && SnapshotsOk(snaps) && 0 < n <= MAX_CLIENTS
    requires cs[n - 1].state == ACTIVE && snaps[n - 1].Some?
    ensures forall d :: d in Fanout(cs, PlayerUpdatePacket((n - 1) as byte, snaps[n - 1].value), |cs|)
                        ==> Delivers(cs, snaps, n, d)
  {
    PlayerUpdateRoundTrip((n - 1) as byte, snaps[n - 1].value);
  }

  /** Every broadcast datagram goes to an active slot and carries the state
      of an active player. */
  lemma {:induction false} BroadcastOnlyActive(cs: seq<Client>, snaps: seq<Option<Snapshot>>, n: nat)
    requires |cs| == MAX_CLIENTS && SnapshotsOk(snaps) && n <= MAX_CLIENTS
    ensures forall d :: d in Broadcast(cs, snaps, n) ==> Delivers(cs, snaps, n, d)
  {
    if n > 0 {
      BroadcastOnlyActive(cs, snaps, n - 1);
      if cs[n - 1].state == ACTIVE && snaps[n - 1].Some? {
        FanoutDelivers(cs, snaps, n);
      }
      forall d | d in Broadcast(cs, snaps, n - 1)
        ensures Delivers(cs, snaps, n, d)
      {
        assert Delivers(cs, snaps, n - 1, d);
      }
    }
  }

  // ------------------------------------------------------------ packet builders

  /** sendWorld's copy loop. */
  method BuildWorldPacket(m: seq<byte>, part: nat) returns (p: seq<byte>)
    requires |m| == MAP_BYTES && part <= 3
    ensures p == WorldPacket(m, part)
  {
    var a := new byte[WORLD_LEN];
    a[0] := P_WORLD;
    a[1] := part as byte;
    for i := 0 to PART_BYTES
      invariant a[0] == P_WORLD && a[1] == part as byte
      invariant forall k :: 2 <= k < i + 2 ==> a[k] == m[part * PART_BYTES + k - 2]
    {
      a[i + 2] := m[part * PART_BYTES + i];
    }
    p := a[..];
  }

  /** sendPlayerUpdates' packet: header bytes, then SDLNet_Write16 of each
      word at offset 5+2j. */
  method BuildPlayerUpdate(i: byte, s: Snapshot) returns (p: seq<byte>)
    requires WellFormed(s)
    ensures p == PlayerUpdatePacket(i, s)
  {
    var a := new byte[PLAYERUPDATE_LEN];
    a[0] := P_PLAYERUPDATE;
    a[1] := i;
    a[2] := s.kha[0];
    a[3] := s.kha[1];
    a[4] := s.kha[2];
    ghost var want := PlayerUpdatePacket(i, s);
    for j := 0 to 8
      invariant forall k :: 0 <= k < 5 + 2 * j ==> a[k] == want[k]
    {
      var w := Write16(s.pv[j]);
      PlayerUpdateBytesAt(i, s, j);
      a[5 + 2 * j] := w[0];
      a[6 + 2 * j] := w[1];
    }
    p := a[..];
  }

  // ------------------------------------------------------------ the server

  class ServerState {
    const clients: array<Client>
    const worldMap: seq<byte>
    var sent: seq<Datagram>
    var calls: seq<GameCall>
    /** updateServer's `static int lasttick`, and whether its initialiser
        has run yet. */
    var lasttick: int
    var tickStarted: bool

    ghost predicate Valid()
      reads this, clients
    {
      && clients.Length == MAX_CLIENTS && |worldMap| == MAP_BYTES
      && forall k :: 0 <= k < MAX_CLIENTS ==> clients[k].state in {FREE, ACTIVE, CONNECTING}
    }

    /** initServer: every slot free. `m` is the map Game::getMap hands out. */
    constructor (m: seq<byte>)
      requires |m| == MAP_BYTES
      ensures Valid() && fresh(clients)
      ensures forall k :: 0 <= k < MAX_CLIENTS ==> clients[k].state == FREE
      ensures worldMap == m && sent == [] && calls == [] && !tickStarted
    {
      clients := new Client[MAX_CLIENTS](_ => Client(Address(0, 0), FREE, 0));
      worldMap := m;
      sent := [];
      calls := [];
      lasttick := 0;
      tickStarted := false;
    }

    method ConnectClient(address: Address, now: int) returns (i: int)
      requires Valid()
      modifies clients
      ensures Valid()
      ensures i == FirstFree(old(clients[..]))
      ensures i >= 0 ==> clients[..] == old(clients[..])[i := Client(address, CONNECTING, now)]
      ensures i == -1 ==> clients[..] == old(clients[..])
    {
      i := 0;
      while i < MAX_CLIENTS
        invariant 0 <= i <= MAX_CLIENTS
        invariant forall k :: 0 <= k < i ==> clients[k].state != FREE
      {
        if clients[i].state == FREE {
          clients[i] := Client(address, CONNECTING, now);
          return;
        }
        i := i + 1;
      }
      i := -1;
    }

    method DisconnectClient(c: int)
      requires Valid() && 0 <= c < MAX_CLIENTS
      modifies clients, this`calls
      ensures Valid()
      ensures old(clients[c].state) == FREE ==> clients[..] == old(clients[..]) && calls == old(calls)
      ensures old(clients[c].state) != FREE ==>
                && clients[..] == old(clients[..])[c := old(clients[c]).(state := FREE)]
                && calls == old(calls) + [RemovePlayer(c)]
    {
      if clients[c].state != FREE {
        clients[c] := clients[c].(state := FREE);
        calls := calls + [RemovePlayer(c)];
      }
    }

    method SendWorld(c: int, part: byte)
      requires Valid()
      modifies this`sent
      ensures sent == old(sent) + WorldReply(worldMap, c, part)
    {
      if part as int * PART_BYTES > MAP_BYTES - PART_BYTES {
        return;
      }
      var p := BuildWorldPacket(worldMap, part as nat);
      sent := sent + [Datagram(c, p)];
    }

    method SendClientInfo(c: int)
      requires 0 <= c < MAX_CLIENTS
      modifies this`sent
      ensures sent == old(sent) + [Datagram(c, ClientInfoPacket(c as byte))]
    {
      sent := sent + [Datagram(c, [P_CLIENTINFO, c as byte])];
    }

    method ProcessPacket(p: seq<byte>, i: int)
      requires Valid() && 0 <= i < MAX_CLIENTS
      modifies clients, this`sent, this`calls
      ensures Valid()
      ensures var e := Handle(old(clients[..]), worldMap, i, p);
              clients[..] == e.clients && calls == old(calls) + e.calls && sent == old(sent) + e.sent
    {
      if |p| < 1 {
        return;
      }
      if p[0] == P_UPDATE {
        if |p| < UPDATE_LEN {
          return;
        }
        calls := calls + [SetKeys(i, p[1]), SetAim(i, Read16(p[2], p[3]), Read16(p[4], p[5]))];
      } else if p[0] == P_GETWORLD {
        if |p| < 2 || clients[i].state != CONNECTING {
          return;
        }
        SendWorld(i, p[1]);
      } else if p[0] == P_GETCLIENTINFO {
        clients[i] := clients[i].(state := ACTIVE);
        calls := calls + [RespawnPlayer(i)];
        SendClientInfo(i);
      }
    }

    /** One pass of updateServer's receive loop. */
    method Receive(pkt: Incoming, now: int)
      requires Valid()
      modifies clients, this`sent, this`calls
      ensures Valid()
      ensures var e := Receipt(old(clients[..]), worldMap, pkt, now);
              clients[..] == e.clients && calls == old(calls) + e.calls && sent == old(sent) + e.sent
    {
      var i := 0;
      while i < MAX_CLIENTS && !(clients[i].state != FREE && clients[i].address == pkt.from)
        invariant 0 <= i <= MAX_CLIENTS
        invariant forall k :: 0 <= k < i ==> clients[k].state == FREE || clients[k].address != pkt.from
      {
        i := i + 1;
      }
      if i >= MAX_CLIENTS {
        i := ConnectClient(pkt.from, now);
        if i != -1 {
          ProcessPacket(pkt.data, i);
        }
      } else {
        ProcessPacket(pkt.data, i);
        clients[i] := clients[i].(lasttime := now);
      }
    }

    /** The table, the calls and the datagrams sent, as one Effect. */
    ghost function Current(): Effect
      reads this, clients
    {
      Effect(clients[..], calls, sent)
    }

    /** updateServer's receive loop over everything pending. */
    method ReceiveAll(incoming: seq<Incoming>, now: int)
      requires Valid()
      modifies clients, this`sent, this`calls
      ensures Valid() && Current() == Drain(old(Current()), worldMap, incoming, now)
    {
      ghost var e0 := Current();
      for j := 0 to |incoming|
        invariant Valid() && Current() == Drain(e0, worldMap, incoming[..j], now)
      {
        ReceiveNext(e0, incoming[..j], incoming[j], now);
        assert incoming[..j + 1] == incoming[..j] + [incoming[j]];
      }
      assert incoming[..|incoming|] == incoming;
    }

    /** One pass of ReceiveAll's loop: datagram p after the datagrams ps. */
    method ReceiveNext(ghost e0: Effect, ghost ps: seq<Incoming>, p: Incoming, now: int)
      requires Valid() && |e0.clients| <= MAX_CLIENTS && Current() == Drain(e0, worldMap, ps, now)
      modifies clients, this`sent, this`calls
      ensures Valid() && Current() == Drain(e0, worldMap, ps + [p], now)
    {
      DrainSnoc(e0, worldMap, ps, p, now);
      Receive(p, now);
    }

    /** updateServer's timeout sweep. */
    method SweepTimeouts(now: int)
      requires Valid()
      modifies clients, this`calls
      ensures Valid()
      ensures forall k :: 0 <= k < MAX_CLIENTS ==> clients[k] == Expire(old(clients[k]), now)
      ensures calls == old(calls) + Expired(old(clients[..]), now, MAX_CLIENTS)
    {
      for i := 0 to MAX_CLIENTS
        invariant Valid()
        invariant forall k :: 0 <= k < i ==> clients[k] == Expire(old(clients[k]), now)
        invariant forall k :: i <= k < MAX_CLIENTS ==> clients[k] == old(clients[k])
        invariant calls == old(calls) + Expired(old(clients[..]), now, i)
      {
        if clients[i].lasttime < now - TIMEOUT_MS {
          DisconnectClient(i);
        }
      }
    }

    method SendPlayerUpdates(snaps: seq<Option<Snapshot>>)
      requires Valid() && SnapshotsOk(snaps)
      modifies this`sent
      ensures sent == old(sent) + Broadcast(clients[..], snaps, MAX_CLIENTS)
    {
      ghost var cs := clients[..];
      for i := 0 to MAX_CLIENTS
        invariant sent == old(sent) + Broadcast(cs, snaps, i)
      {
        BroadcastStep(cs, snaps, i);
        if clients[i].state == ACTIVE && snaps[i].Some? {
          var p := BuildPlayerUpdate(i as byte, snaps[i].value);
          SendToActive(p);
        }
      }
    }

    /** sendPlayerUpdates' inner loop: the packet goes to every active slot. */
    method SendToActive(p: seq<byte>)
      requires Valid()
      modifies this`sent
      ensures sent == old(sent) + Fanout(clients[..], p, MAX_CLIENTS)
    {
      for c := 0 to MAX_CLIENTS
        invariant sent == old(sent) + Fanout(clients[..], p, c)
      {
        if clients[c].state == ACTIVE {
          sent := sent + [Datagram(c, p)];
        }
      }
    }

    /** updateServer's broadcast gate. The first call only initialises
        `lasttick`; afterwards a broadcast happens when more than 50 ms
        have passed since the last one. */
    method BroadcastTick(now: int, snaps: seq<Option<Snapshot>>)
      requires Valid() && SnapshotsOk(snaps)
      modifies this`sent, this`lasttick, this`tickStarted
      ensures tickStarted
      ensures var due := old(tickStarted) && old(lasttick) < now - TICK_MS;
              && lasttick == (if due || !old(tickStarted) then now else old(lasttick))
              && sent == old(sent) + (if due then Broadcast(clients[..], snaps, MAX_CLIENTS) else [])
    {
      if !tickStarted {
        lasttick := now;
        tickStarted := true;
      }
      if lasttick < now - TICK_MS {
        SendPlayerUpdates(snaps);
        lasttick := now;
      }
    }

    /** updateServer: drain, sweep, broadcast. */
    method UpdateServer(now: int, incoming: seq<Incoming>, snaps: seq<Option<Snapshot>>)
      requires Valid() && SnapshotsOk(snaps)
      requires forall k :: 0 <= k < MAX_CLIENTS && clients[k].state != FREE ==> clients[k].lasttime <= now
      modifies clients, this`sent, this`calls, this`lasttick, this`tickStarted
      ensures Valid() && tickStarted
      ensures var d := Drain(old(Current()), worldMap, incoming, now);
              && (forall k :: 0 <= k < MAX_CLIENTS ==> clients[k] == Expire(d.clients[k], now))
              && calls == d.calls + Expired(d.clients, now, MAX_CLIENTS)
              && var due := old(tickStarted) && old(lasttick) < now - TICK_MS;
                 && lasttick == (if due || !old(tickStarted) then now else old(lasttick))
                 && sent == d.sent + (if due then Broadcast(clients[..], snaps, MAX_CLIENTS) else [])
      ensures forall k :: 0 <= k < MAX_CLIENTS && clients[k].state != FREE
                ==> now - TIMEOUT_MS <= clients[k].lasttime <= now
    {
      DrainStamps(Current(), worldMap, incoming, now);
      ReceiveAll(incoming, now);
      SweepTimeouts(now);
      BroadcastTick(now, snaps);
    }
  }
}
