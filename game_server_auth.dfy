/**
 * GameServerAuth: a game server asks the login server to authorize it under a server ID. The
 * body names the desired ID, whether another ID is acceptable, the advertised port, the player
 * limit, the server's HexID and (key, value) host pairs. The login server checks the desired ID
 * against the servers already on-line and the registered IDs, and either authorizes the server
 * (on the desired ID or on the smallest free one) or refuses it with a reason.
 */
module GameServerAuth {
  import opened Primitives
  import opened Buffer
  import Hex

  const OPCODE: int := 0x01

  /** C + C + C + H + D + D + D: every fixed field, with no HexID bytes and no hosts. */
  const MINIMUM_LENGTH: nat := 17

  /** Byte.MAX_VALUE: a reassigned ID is below it. */
  const MAX_ID: int := 127

  datatype AuthRequest = AuthRequest(
    desiredId: int, acceptAlternateId: bool, port: int, maxPlayers: int32,
    hexId: seq<byte>, hosts: seq<JString>)

  // ----- read -----

  /** The fixed fields and the HexID, as a request with no hosts yet, and the number of host strings that follow. */
  datatype Head = Head(request: AuthRequest, hostCount: nat)

  /** C desired ID, C accept-alternate flag (non-zero is true), C ignored, H port, D player limit. */
  function TakeFixed(data: seq<byte>, pos: nat): (r: Result<Read<AuthRequest>, Error>)
    ensures r.Success? ==> r.value.next == pos + 9
  {
    var desired :- TakeC(data, pos);
    var accept :- TakeC(data, desired.next);
    var ignored :- TakeC(data, accept.next);
    var port :- TakeH(data, ignored.next);
    var maxPlayers :- TakeD(data, port.next);
    Success(Read(AuthRequest(desired.value, accept.value != 0, port.value, maxPlayers.value, [], []), maxPlayers.next))
  }

  /** D size, then a byte array of that size; a negative size is an error. */
  function TakeHexId(data: seq<byte>, pos: nat): (r: Result<Read<seq<byte>>, Error>)
    ensures r.Success? ==> r.value.next == pos + 4 + |r.value.value|
  {
    var size :- TakeD(data, pos);
    if size.value < 0 then Failure(NegativeArraySize)
    else TakeBytes(data, size.next, size.value)
  }

  /** D pair count; the host array has 2 * count entries in Java int arithmetic, and a negative size is an error. */
  function TakeHostCount(data: seq<byte>, pos: nat): (r: Result<Read<nat>, Error>)
    ensures r.Success? ==> r.value.next == pos + 4 && r.value.value % 2 == 0
  {
    var count :- TakeD(data, pos);
    var n := Wrap32(2 * count.value);
    WrapDoubleEven(count.value);
    if n < 0 then Failure(NegativeArraySize)
    else Success(Read(n as nat, count.next))
  }

  /** read up to the hosts: the fixed fields, the HexID, the host count. */
  function DecodeHead(data: seq<byte>, pos: nat): (r: Result<Read<Head>, Error>)
    ensures r.Success? ==> r.value.next == pos + 17 + |r.value.value.request.hexId| && r.value.value.hostCount % 2 == 0
  {
    var fixed :- TakeFixed(data, pos);
    var hexId :- TakeHexId(data, fixed.next);
    var count :- TakeHostCount(data, hexId.next);
    Success(Read(Head(fixed.value.(hexId := hexId.value), count.value), count.next))
  }

  /** The request with the hosts a read found, or the read's error. */
  function Finished(req: AuthRequest, r: Result<Read<seq<JString>>, Error>): Result<Read<AuthRequest>, Error> {
    match r
    case Success(rd) => Success(Read(req.(hosts := rd.value), rd.next))
    case Failure(e) => Failure(e)
  }

  /** read: the fixed fields, then the host strings. */
  function Decode(data: seq<byte>, pos: nat): Result<Read<AuthRequest>, Error> {
    var head :- DecodeHead(data, pos);
    Finished(head.value.request, TakeStrings(data, head.next, head.value.hostCount))
  }

  /** A read of strings with done in front of what it found. */
  function Listed(done: seq<JString>, r: Result<Read<seq<JString>>, Error>): Result<Read<seq<JString>>, Error> {
    match r
    case Success(rd) => Success(Read(done + rd.value, rd.next))
    case Failure(e) => Failure(e)
  }

  /** A request a game server can send: each field fits its width and the hosts come in pairs. */
  predicate Sendable(req: AuthRequest) {
    && 0 <= req.desiredId < 0x100
    && 0 <= req.port < 0x1_0000
    && |req.hexId| <= MAX_INT
    && |req.hosts| % 2 == 0 && |req.hosts| <= MAX_INT
    && forall i | 0 <= i < |req.hosts| :: NoZeroUnit(req.hosts[i])
  }

  /** The body a game server sends, followed by whatever comes after it. */
  function Encode(req: AuthRequest, rest: seq<byte>): seq<byte> {
    Enc(req.desiredId, READ_C) + (Enc(if req.acceptAlternateId then 1 else 0, READ_C) + (Enc(0, READ_C) +
    (Enc(req.port, READ_H) + (Enc(req.maxPlayers, READ_D) + (Enc(|req.hexId|, READ_D) + (req.hexId +
    (Enc(|req.hosts| / 2, READ_D) + (EncStrings(req.hosts) + rest))))))))
  }

  /** A field at pos followed by the rest of the bytes. */
  lemma FieldAt(data: seq<byte>, pos: nat, f: seq<byte>, tail: seq<byte>)
    requires pos <= |data| && data[pos..] == f + tail
    ensures pos + |f| <= |data| && data[pos..pos + |f|] == f && data[pos + |f|..] == tail
  {
    assert data[pos..pos + |f|] == (f + tail)[..|f|];
    assert data[pos + |f|..] == (f + tail)[|f|..];
  }

  /** The fields of a sendable request sit one after another in its encoding. */
  lemma EncodeFields(req: AuthRequest, rest: seq<byte>)
    ensures var data := Encode(req, rest); var h := |req.hexId|;
      && 17 + h <= |data|
      && data[0..1] == Enc(req.desiredId, READ_C)
      && data[1..2] == Enc(if req.acceptAlternateId then 1 else 0, READ_C)
      && data[2..3] == Enc(0, READ_C)
      && data[3..5] == Enc(req.port, READ_H)
      && data[5..9] == Enc(req.maxPlayers, READ_D)
      && data[9..13] == Enc(h, READ_D)
      && data[13..13 + h] == req.hexId
      && data[13 + h..17 + h] == Enc(|req.hosts| / 2, READ_D)
      && data[17 + h..] == EncStrings(req.hosts) + rest
  {
    var data := Encode(req, rest);
    var hosts := EncStrings(req.hosts) + rest;
    var count := Enc(|req.hosts| / 2, READ_D) + hosts;
    var hex := req.hexId + count;
    var size := Enc(|req.hexId|, READ_D) + hex;
    var players := Enc(req.maxPlayers, READ_D) + size;
    var port := Enc(req.port, READ_H) + players;
    var ignored := Enc(0, READ_C) + port;
    var accept := Enc(if req.acceptAlternateId then 1 else 0, READ_C) + ignored;
    assert data[0..] == Enc(req.desiredId, READ_C) + accept;
    FieldAt(data, 0, Enc(req.desiredId, READ_C), accept);
    FieldAt(data, 1, Enc(if req.acceptAlternateId then 1 else 0, READ_C), ignored);
    FieldAt(data, 2, Enc(0, READ_C), port);
    FieldAt(data, 3, Enc(req.port, READ_H), players);
    FieldAt(data, 5, Enc(req.maxPlayers, READ_D), size);
    FieldAt(data, 9, Enc(|req.hexId|, READ_D), hex);
    FieldAt(data, 13, req.hexId, count);
    FieldAt(data, 13 + |req.hexId|, Enc(|req.hosts| / 2, READ_D), hosts);
  }

  /** The fixed fields of a sendable request read back as sent. */
  lemma DecodeHeadEncode(req: AuthRequest, rest: seq<byte>, data: seq<byte>, head: AuthRequest, p: nat)
    requires Sendable(req) && data == Encode(req, rest) && head == req.(hosts := []) && p == 17 + |req.hexId|
    ensures p <= |data| && data[p..] == EncStrings(req.hosts) + rest
    ensures DecodeHead(data, 0) == Success(Read(Head(head, |req.hosts|), p))
  {
    var h := |req.hexId|;
    var accept := if req.acceptAlternateId then 1 else 0;
    EncodeFields(req, rest);
    assert Pow256(READ_C) == 0x100 && Pow256(READ_H) == 0x1_0000 && Pow256(READ_D) == 0x1_0000_0000;
    TakeUnsignedAt(data, 0, req.desiredId, READ_C);
    TakeUnsignedAt(data, 1, accept, READ_C);
    TakeUnsignedAt(data, 2, 0, READ_C);
    TakeUnsignedAt(data, 3, req.port, READ_H);
    TakeSignedAt(data, 5, req.maxPlayers, READ_D);
    assert TakeFixed(data, 0) == Success(Read(AuthRequest(req.desiredId, accept != 0, req.port, req.maxPlayers, [], []), 9));
    TakeSignedAt(data, 9, h, READ_D);
    assert TakeHexId(data, 9) == Success(Read(req.hexId, 13 + h));
    TakeSignedAt(data, 13 + h, |req.hosts| / 2, READ_D);
    assert Wrap32(2 * (|req.hosts| / 2)) == |req.hosts|;
    assert TakeHostCount(data, 13 + h) == Success(Read(|req.hosts| as nat, 17 + h));
    assert AuthRequest(req.desiredId, accept != 0, req.port, req.maxPlayers, [], []).(hexId := req.hexId) == head;
  }

  /** Decode from the results of its two parts. */
  lemma DecodeOf(data: seq<byte>, pos: nat, req: AuthRequest, p: nat, ss: seq<JString>, end: nat)
    requires DecodeHead(data, pos) == Success(Read(Head(req, |ss|), p))
    requires TakeStrings(data, p, |ss|) == Success(Read(ss, end))
    ensures Decode(data, pos) == Success(Read(req.(hosts := ss), end))
  {
  }

  /** A body whose head reads as head and whose host strings follow it reads as the whole request. */
  lemma DecodeHostsAfter(data: seq<byte>, req: AuthRequest, rest: seq<byte>, head: AuthRequest, p: nat)
    requires forall i | 0 <= i < |req.hosts| :: NoZeroUnit(req.hosts[i])
    requires head == req.(hosts := [])
    requires DecodeHead(data, 0) == Success(Read(Head(head, |req.hosts|), p))
    requires p <= |data| && data[p..] == EncStrings(req.hosts) + rest
    ensures Decode(data, 0) == Success(Read(req, |data| - |rest|))
  {
    FieldAt(data, p, EncStrings(req.hosts), rest);
    TakeStringsAt(data, p, req.hosts);
    var end := p + |EncStrings(req.hosts)|;
    assert |data| - |rest| == end by {
      assert |data[p..]| == |EncStrings(req.hosts)| + |rest|;
    }
    DecodeOf(data, 0, head, p, req.hosts, end);
    assert head.(hosts := req.hosts) == req;
  }

  /** Every sendable request is read back as sent, consuming exactly its bytes. */
  lemma {:induction false} DecodeEncode(req: AuthRequest, rest: seq<byte>)
    requires Sendable(req)
    ensures Decode(Encode(req, rest), 0) == Success(Read(req, |Encode(req, rest)| - |rest|))
  {
    DecodeEncodeAt(req, rest, Encode(req, rest), req.(hosts := []), 17 + |req.hexId|);
  }

  lemma DecodeEncodeAt(req: AuthRequest, rest: seq<byte>, data: seq<byte>, head: AuthRequest, p: nat)
    requires Sendable(req) && data == Encode(req, rest) && head == req.(hosts := []) && p == 17 + |req.hexId|
    ensures Decode(data, 0) == Success(Read(req, |data| - |rest|))
  {
    DecodeHeadEncode(req, rest, data, head, p);
    assert forall i | 0 <= i < |req.hosts| :: NoZeroUnit(req.hosts[i]);
    DecodeHostsAfter(data, req, rest, head, p);
  }

  /** The minimum length is a true lower bound: a body that reads successfully has at least 17 bytes. */
  lemma DecodeNeedsMinimum(data: seq<byte>, pos: nat)
    requires Decode(data, pos).Success?
    ensures Decode(data, pos).value.next >= pos + MINIMUM_LENGTH
  {
  }

  /** ... and it is tight: a request with no HexID bytes and no hosts is exactly 17 bytes. */
  lemma MinimumIsTight(req: AuthRequest)
    requires Sendable(req) && req.hexId == [] && req.hosts == []
    ensures |Encode(req, [])| == MINIMUM_LENGTH
    ensures Decode(Encode(req, []), 0) == Success(Read(req, MINIMUM_LENGTH))
  {
    DecodeEncode(req, []);
  }

  /** Java's 2 * count stays even after wrapping to an int. */
  lemma WrapDoubleEven(c: int)
    ensures Wrap32(2 * c) % 2 == 0
  {
    var r := Wrap32(2 * c);
    var k := (r - 2 * c) / 0x1_0000_0000;
    assert r == 2 * c + 0x1_0000_0000 * k;
    assert r == 2 * (c + 0x8000_0000 * k);
  }

  /** The host array a read produces always has even length: the keys and values pair up. */
  lemma DecodedHostsPair(data: seq<byte>, pos: nat)
    requires Decode(data, pos).Success?
    ensures |Decode(data, pos).value.value.hosts| % 2 == 0
  {
  }

  /** Nothing in front of a read changes nothing. */
  lemma ListedNothing(r: Result<Read<seq<JString>>, Error>)
    ensures Listed([], r) == r
  {
    if r.Success? {
      assert [] + r.value.value == r.value.value;
    }
  }

  /** One host string read; the rest follow. */
  lemma HostsStep(data: seq<byte>, pos: nat, done: seq<JString>, m: nat)
    requires m > 0
    ensures TakeS(data, pos).Failure? ==> Listed(done, TakeStrings(data, pos, m)) == Failure(TakeS(data, pos).error)
    ensures TakeS(data, pos).Success? ==> var s := TakeS(data, pos).value;
      Listed(done, TakeStrings(data, pos, m)) == Listed(done + [s.value], TakeStrings(data, s.next, m - 1))
  {
    if TakeS(data, pos).Success? {
      var s := TakeS(data, pos).value;
      if TakeStrings(data, s.next, m - 1).Success? {
        var rest := TakeStrings(data, s.next, m - 1).value;
        assert done + ([s.value] + rest.value) == (done + [s.value]) + rest.value;
      }
    }
  }

  // ----- runImpl's decision -----

  datatype NoServiceReason = AlreadyLoggedIn | WrongHexId | NoFreeId

  /** What the query for the desired ID's row returned: the query failed, no row, or the row's authData (NULL is None) and allowBans. */
  datatype Lookup = LookupFailed | Unregistered | Registered(auth: Option<string>, allowBans: bool)

  /** The game server is refused with a reason, or authorized on an ID with an auth string and a trust flag. */
  datatype Outcome = Refused(reason: NoServiceReason) | Authorized(id: int, auth: Option<string>, trusted: bool)

  /** bytesToHexString of the HexID: upper-case hex octets, no delimiter. */
  function HexText(hexId: seq<byte>): string {
    Hex.Encoded(Some(hexId), None)
  }

  /** The smallest ID from k up to (not including) 127 that is neither registered nor on-line. */
  function FreeFrom(registered: set<int>, online: set<int>, k: int): (r: Option<int>)
    requires 1 <= k
    ensures r.Some? ==> k <= r.value < MAX_ID && r.value !in registered && r.value !in online
    ensures forall j | k <= j < (if r.Some? then r.value else MAX_ID) :: j in registered || j in online
    decreases MAX_ID - k
  {
    if k >= MAX_ID then None
    else if k in registered || k in online then FreeFrom(registered, online, k + 1)
    else Some(k)
  }

  /** tryAssignAvailableId: the smallest free ID in 1..126, untrusted and with no auth; NO_FREE_ID if there is none or the query of registered IDs failed. */
  function Reassign(online: set<int>, registered: Option<set<int>>): Outcome {
    match registered
    case None => Refused(NoFreeId)
    case Some(ids) =>
      match FreeFrom(ids, online, 1)
      case None => Refused(NoFreeId)
      case Some(id) => Authorized(id, None, false)
  }

  /**
   * runImpl's decision. online holds the IDs of the game servers on-line, strict is the strict
   * authorization setting, lookup the row of the desired ID and registered the IDs the later
   * query for all rows returns (None when it fails).
   */
  function Decide(req: AuthRequest, online: set<int>, strict: bool, lookup: Lookup, registered: Option<set<int>>): Outcome {
    if req.desiredId in online then
      if !req.acceptAlternateId || strict then Refused(AlreadyLoggedIn)
      else Reassign(online, registered)
    else
      match lookup
      case LookupFailed => Refused(NoFreeId)
      case Registered(auth, bans) =>
        if Some(HexText(req.hexId)) != auth then
          if !req.acceptAlternateId || strict then Refused(WrongHexId)
          else Reassign(online, registered)
        else Authorized(req.desiredId, auth, bans)
      case Unregistered =>
        if strict then Refused(WrongHexId)
        else Authorized(req.desiredId, Some(HexText(req.hexId)), false)
  }

  /** A reassigned ID is the smallest one in 1..126 that is free, and every smaller one is taken. */
  lemma ReassignMeaning(online: set<int>, registered: Option<set<int>>)
    ensures Reassign(online, registered).Authorized? <==>
      registered.Some? && exists id | 1 <= id < MAX_ID :: id !in registered.value && id !in online
    ensures Reassign(online, registered).Authorized? ==>
      var o := Reassign(online, registered);
      && o.auth.None? && !o.trusted
      && 1 <= o.id < MAX_ID && o.id !in registered.value && o.id !in online
      && forall j | 1 <= j < o.id :: j in registered.value || j in online
  {
  }

  /** Nobody is ever authorized on an ID that is already on-line. */
  lemma AuthorizedIdIsFree(req: AuthRequest, online: set<int>, strict: bool, lookup: Lookup, registered: Option<set<int>>)
    requires Decide(req, online, strict, lookup, registered).Authorized?
    ensures Decide(req, online, strict, lookup, registered).id !in online
  {
  }

  /** The desired ID is given up only by a server that accepts another one, and never under strict authorization. */
  lemma OtherIdOnlyIfAccepted(req: AuthRequest, online: set<int>, strict: bool, lookup: Lookup, registered: Option<set<int>>)
    requires Decide(req, online, strict, lookup, registered).Authorized?
    requires Decide(req, online, strict, lookup, registered).id != req.desiredId
    ensures req.acceptAlternateId && !strict
    ensures Decide(req, online, strict, lookup, registered) == Reassign(online, registered)
  {
  }

  /**
   * A server is trusted with bans only on its desired, registered ID, when the stored auth
   * string is its HexID and the row allows bans; and any auth string a server is given decodes
   * back to the HexID it sent.
   */
  lemma AuthMatchesHexId(req: AuthRequest, online: set<int>, strict: bool, lookup: Lookup, registered: Option<set<int>>)
    requires Decide(req, online, strict, lookup, registered).Authorized?
    ensures var o := Decide(req, online, strict, lookup, registered);
      && (o.trusted ==> o.id == req.desiredId && lookup == Registered(Some(HexText(req.hexId)), true))
      && (o.auth.Some? ==> o.id == req.desiredId && Hex.Decode(o.auth) == Hex.Decoded(req.hexId))
  {
    Hex.RoundTrip(req.hexId);
  }

  /** A failed lookup of a free desired ID refuses with NO_FREE_ID; a free unregistered ID is granted, untrusted, unless authorization is strict. */
  lemma UnregisteredIdGranted(req: AuthRequest, online: set<int>, strict: bool, registered: Option<set<int>>)
    requires req.desiredId !in online
    ensures Decide(req, online, strict, LookupFailed, registered) == Refused(NoFreeId)
    ensures Decide(req, online, strict, Unregistered, registered) ==
      if strict then Refused(WrongHexId) else Authorized(req.desiredId, Some(HexText(req.hexId)), false)
  {
  }

  /** A server that wants the on-line ID 1 and accepts another, with no ID registered, is given ID 2. */
  lemma ReassignsFromOnlineId(req: AuthRequest)
    requires req.desiredId == 1 && req.acceptAlternateId
    ensures Decide(req, {1}, false, Unregistered, Some({})) == Authorized(2, None, false)
  {
    assert FreeFrom({}, {1}, 2) == Some(2);
  }

  // ----- host selection -----

  /** Whether a host key starts with "0". */
  predicate ZeroKey(key: JString) {
    |key| > 0 && key[0] == '0' as int
  }

  /** "127.0.0.1", the host of a server that names none. */
  const DEFAULT_HOST: JString := Units("127.0.0.1")

  /** The value of the last (key, value) pair whose key starts with "0". */
  function LastZeroKeyed(hosts: seq<JString>): Option<JString>
    requires |hosts| % 2 == 0
    decreases |hosts|
  {
    if hosts == [] then None
    else if ZeroKey(hosts[|hosts| - 2]) then Some(hosts[|hosts| - 1])
    else LastZeroKeyed(hosts[..|hosts| - 2])
  }

  /** The host finishAuthorization advertises. */
  function SelectHost(hosts: seq<JString>): JString
    requires |hosts| % 2 == 0
  {
    match LastZeroKeyed(hosts)
    case Some(h) => h
    case None => DEFAULT_HOST
  }

  /** The key at i starts with "0" and no later key does. */
  predicate LastZeroKeyAt(hosts: seq<JString>, i: int)
    requires 0 <= i < |hosts|
  {
    ZeroKey(hosts[i]) && forall j | i < j < |hosts| && j % 2 == 0 :: !ZeroKey(hosts[j])
  }

  /**
   * Keys sit at even indices and values after them: with no key starting with "0" the host is
   * the default, otherwise it is the value after the last such key.
   */
  lemma {:induction false} LastZeroKeyedMeaning(hosts: seq<JString>)
    requires |hosts| % 2 == 0
    ensures LastZeroKeyed(hosts).None? <==> forall i | 0 <= i < |hosts| && i % 2 == 0 :: !ZeroKey(hosts[i])
    ensures LastZeroKeyed(hosts).Some? ==> exists i | 0 <= i < |hosts| - 1 && i % 2 == 0 ::
      LastZeroKeyAt(hosts, i) && LastZeroKeyed(hosts).value == hosts[i + 1]
    decreases |hosts|
  {
    if hosts != [] {
      var n := |hosts|;
      var init := hosts[..n - 2];
      LastZeroKeyedMeaning(init);
      assert forall i | 0 <= i < n - 2 :: init[i] == hosts[i];
      if ZeroKey(hosts[n - 2]) {
        assert LastZeroKeyAt(hosts, n - 2);
      } else if LastZeroKeyed(init).Some? {
        var i :| 0 <= i < |init| - 1 && i % 2 == 0 && LastZeroKeyAt(init, i) && LastZeroKeyed(init).value == init[i + 1];
        assert hosts[i + 1] == init[i + 1];
        forall j | i < j < n && j % 2 == 0
          ensures !ZeroKey(hosts[j])
        {
          if j < n - 2 {
            assert hosts[j] == init[j];
          }
        }
        assert LastZeroKeyAt(hosts, i);
      } else {
        forall i | 0 <= i < n && i % 2 == 0
          ensures !ZeroKey(hosts[i])
        {
          if i < n - 2 {
            assert hosts[i] == init[i];
          }
        }
      }
    }
  }

  /** The host pairs after a prefix of even length: the last match in the longer prefix. */
  lemma LastZeroKeyedStep(hosts: seq<JString>, i: nat)
    requires i + 2 <= |hosts| && i % 2 == 0
    ensures LastZeroKeyed(hosts[..i + 2]) ==
      if ZeroKey(hosts[i]) then Some(hosts[i + 1]) else LastZeroKeyed(hosts[..i])
  {
    assert hosts[..i + 2][..i] == hosts[..i];
  }

  // ----- The connections -----

  datatype LegacyState = Connected | Authed

  /** A legacy game server's connection: the fields authorization sets on it. */
  class GameServer {
    var id: int
    var auth: Option<string>
    var allowedToBan: bool
    var host: Option<JString>
    var port: int
    var maxPlayers: int
    var state: LegacyState
    /** The reason the connection was closed with, once it is. */
    var closedWith: Option<NoServiceReason>

    constructor ()
      ensures state == Connected && closedWith == None && host == None
    {
      id := 0;
      auth := None;
      allowedToBan := false;
      host := None;
      port := 0;
      maxPlayers := 0;
      state := Connected;
      closedWith := None;
    }

    /** close(LoginServerFail(reason)). */
    method Close(reason: NoServiceReason)
      modifies this
      ensures closedWith == Some(reason)
      ensures id == old(id) && auth == old(auth) && state == old(state)
    {
      closedWith := Some(reason);
    }
  }

  /** The on-line legacy game servers by ID; getById(id) is non-null exactly when id is a key. */
  class LegacyConnections {
    var servers: map<int, GameServer>

    constructor ()
      ensures servers == map[]
    {
      servers := map[];
    }

    /** addGameServer: the server is found under id from now on. */
    method AddGameServer(id: int, lgs: GameServer)
      modifies this
      ensures servers == old(servers)[id := lgs]
    {
      servers := servers[id := lgs];
    }
  }

  // ----- The packet -----

  /** The packet as received: the fields read fills in, and what runImpl does with them. */
  class GameServerAuth {
    var desiredId: int
    var acceptAlternateId: bool
    var port: int
    var maxPlayers: int32
    var hexId: seq<byte>
    var hosts: seq<JString>

    constructor ()
      ensures Request() == AuthRequest(0, false, 0, 0, [], [])
    {
      desiredId := 0;
      acceptAlternateId := false;
      port := 0;
      maxPlayers := 0;
      hexId := [];
      hosts := [];
    }

    function Request(): AuthRequest
      reads this
    {
      AuthRequest(desiredId, acceptAlternateId, port, maxPlayers, hexId, hosts)
    }

    /** read: the fixed fields, the HexID, the host count, the hosts. */
    method ReadFields(buf: Reader) returns (r: Result<(), Error>)
      modifies this, buf
      ensures match Decode(buf.data, old(buf.pos))
        case Success(rd) => r.Success? && Request() == rd.value && buf.pos == rd.next
        case Failure(e) => r == Failure(e)
    {
      var fixed :- ReadFixed(buf);
      var h :- ReadHexId(buf);
      hexId := h;
      var n :- ReadHostCount(buf);
      var hs :- ReadHosts(buf, n);
      hosts := hs;
      return Success(());
    }

    /** The reads of the desired ID, the flag, the ignored byte, the port and the player limit. */
    method ReadFixed(buf: Reader) returns (r: Result<(), Error>)
      modifies this, buf
      ensures hexId == old(hexId) && hosts == old(hosts)
      ensures match TakeFixed(buf.data, old(buf.pos))
        case Success(rd) => r.Success? && buf.pos == rd.next && Request() == rd.value.(hexId := hexId, hosts := hosts)
        case Failure(e) => r == Failure(e)
    {
      var d :- buf.ReadC();
      desiredId := d;
      var a :- buf.ReadC();
      acceptAlternateId := a != 0;
      var ignored :- buf.ReadC();
      var p :- buf.ReadH();
      port := p;
      var m :- buf.ReadD();
      maxPlayers := m;
      return Success(());
    }

    /** The HexID: its size, then new byte[size] filled from the buffer. */
    method ReadHexId(buf: Reader) returns (r: Result<seq<byte>, Error>)
      modifies buf
      ensures Moved(r, TakeHexId(buf.data, old(buf.pos)), buf.pos)
    {
      var size :- buf.ReadD();
      if size < 0 {
        return Failure(NegativeArraySize);
      }
      r := buf.ReadB(size);
    }

    /** The host array's size: 2 * count as a Java int. */
    method ReadHostCount(buf: Reader) returns (r: Result<nat, Error>)
      modifies buf
      ensures Moved(r, TakeHostCount(buf.data, old(buf.pos)), buf.pos)
    {
      var count :- buf.ReadD();
      var n := Wrap32(2 * count);
      if n < 0 {
        return Failure(NegativeArraySize);
      }
      return Success(n);
    }

    /** new String[n], each entry read with readS. */
    method ReadHosts(buf: Reader, n: nat) returns (r: Result<seq<JString>, Error>)
      modifies buf
      ensures Moved(r, TakeStrings(buf.data, old(buf.pos), n), buf.pos)
    {
      var names := new JString[n];
      var i := 0;
      ghost var done: seq<JString> := [];
      ListedNothing(TakeStrings(buf.data, buf.pos, n));
      while i < n
        invariant 0 <= i <= n && names[..i] == done
        invariant TakeStrings(buf.data, old(buf.pos), n) == Listed(done, TakeStrings(buf.data, buf.pos, n - i))
      {
        HostsStep(buf.data, buf.pos, done, n - i);
        var s :- buf.ReadS();
        names[i] := s;
        assert names[..i + 1] == done + [s];
        done := done + [s];
        i := i + 1;
      }
      assert names[..] == done + [];
      return Success(names[..]);
    }

    /** The connection carries the server's fields after authorization on id. */
    predicate Admitted(lgs: GameServer, id: int, auth: Option<string>, trusted: bool)
      reads this, lgs
      requires |hosts| % 2 == 0
    {
      && lgs.id == id && lgs.auth == auth && lgs.allowedToBan == trusted
      && lgs.host == Some(SelectHost(hosts)) && lgs.port == port && lgs.maxPlayers == maxPlayers
    }

    /** finishAuthorization up to the registration: the ID, auth and trust, the advertised host, port and player limit. */
    method Admit(id: int, auth: Option<string>, trusted: bool, lgs: GameServer)
      requires |hosts| % 2 == 0
      modifies lgs
      ensures Admitted(lgs, id, auth, trusted)
      ensures lgs.state == old(lgs.state) && lgs.closedWith == old(lgs.closedWith)
    {
      lgs.id := id;
      lgs.auth := auth;
      lgs.allowedToBan := trusted;
      lgs.host := None;
      var i := 0;
      while i < |hosts|
        invariant 0 <= i <= |hosts| && i % 2 == 0
        invariant lgs.host == LastZeroKeyed(hosts[..i])
        invariant lgs.id == id && lgs.auth == auth && lgs.allowedToBan == trusted
        invariant lgs.state == old(lgs.state) && lgs.closedWith == old(lgs.closedWith)
      {
        LastZeroKeyedStep(hosts, i);
        var key := hosts[i];
        i := i + 1;
        if ZeroKey(key) {
          lgs.host := Some(hosts[i]);
        }
        i := i + 1;
      }
      assert hosts[..i] == hosts;
      if lgs.host == None {
        lgs.host := Some(DEFAULT_HOST);
      }
      lgs.port := port;
      lgs.maxPlayers := maxPlayers;
    }

    /** finishAuthorization, registering the server under the ID it was given. */
    method FinishAuthorization(id: int, auth: Option<string>, trusted: bool, lgs: GameServer, llc: LegacyConnections)
      requires |hosts| % 2 == 0
      modifies lgs, llc
      ensures Admitted(lgs, id, auth, trusted) && lgs.state == Authed && lgs.closedWith == old(lgs.closedWith)
      ensures llc.servers == old(llc.servers)[id := lgs]
    {
      Admit(id, auth, trusted, lgs);
      llc.AddGameServer(id, lgs);
      lgs.state := Authed;
    }

    /** finishAuthorization as written: the server is registered under the desired ID whatever ID it was given. */
    method FinishAuthorizationAsWritten(id: int, auth: Option<string>, trusted: bool, lgs: GameServer, llc: LegacyConnections)
      requires |hosts| % 2 == 0
      modifies lgs, llc
      ensures Admitted(lgs, id, auth, trusted) && lgs.state == Authed && lgs.closedWith == old(lgs.closedWith)
      ensures llc.servers == old(llc.servers)[desiredId := lgs]
    {
      Admit(id, auth, trusted, lgs);
      llc.AddGameServer(desiredId, lgs);
      lgs.state := Authed;
    }

    /** tryAssignAvailableId's search: scans 1..126, dropping each ID from the registered set as it goes. */
    method ScanIds(llc: LegacyConnections, registered: set<int>) returns (available: bool, newId: int)
      ensures available <==> FreeFrom(registered, llc.servers.Keys, 1).Some?
      ensures available ==> newId == FreeFrom(registered, llc.servers.Keys, 1).value
    {
      var reserved := registered;
      newId := 1;
      available := false;
      while newId < MAX_ID
        invariant 1 <= newId <= MAX_ID && !available
        invariant FreeFrom(registered, llc.servers.Keys, 1) == FreeFrom(registered, llc.servers.Keys, newId)
        invariant forall k | k >= newId :: k in reserved <==> k in registered
      {
        var wasReserved := newId in reserved;
        reserved := reserved - {newId};
        if wasReserved || newId in llc.servers {
          newId := newId + 1;
        } else {
          available := true;
          break;
        }
      }
    }

    /** tryAssignAvailableId, registering the server under the ID it was given. */
    method TryAssignAvailableId(lgs: GameServer, llc: LegacyConnections, registered: Option<set<int>>)
      requires |hosts| % 2 == 0
      modifies lgs, llc
      ensures match Reassign(old(llc.servers).Keys, registered)
        case Refused(reason) => lgs.closedWith == Some(reason) && llc.servers == old(llc.servers)
        case Authorized(id, auth, trusted) =>
          Admitted(lgs, id, auth, trusted) && lgs.state == Authed && lgs.closedWith == old(lgs.closedWith)
          && llc.servers == old(llc.servers)[id := lgs]
    {
      if registered.None? {
        lgs.Close(NoFreeId);
        return;
      }
      var available, newId := ScanIds(llc, registered.value);
      if available {
        FinishAuthorization(newId, None, false, lgs, llc);
      } else {
        lgs.Close(NoFreeId);
      }
    }

    /** tryAssignAvailableId as written: the server gets the new ID but is registered under the desired one. */
    method TryAssignAvailableIdAsWritten(lgs: GameServer, llc: LegacyConnections, registered: Option<set<int>>)
      requires |hosts| % 2 == 0
      modifies lgs, llc
      ensures match Reassign(old(llc.servers).Keys, registered)
        case Refused(reason) => lgs.closedWith == Some(reason) && llc.servers == old(llc.servers)
        case Authorized(id, auth, trusted) =>
          Admitted(lgs, id, auth, trusted) && lgs.state == Authed && lgs.closedWith == old(lgs.closedWith)
          && llc.servers == old(llc.servers)[desiredId := lgs]
    {
      if registered.None? {
        lgs.Close(NoFreeId);
        return;
      }
      var available, newId := ScanIds(llc, registered.value);
      if available {
        FinishAuthorizationAsWritten(newId, None, false, lgs, llc);
      } else {
        lgs.Close(NoFreeId);
      }
    }

    /** runImpl, with the registration under the ID given. */
    method RunImpl(lgs: GameServer, llc: LegacyConnections, strict: bool, lookup: Lookup, registered: Option<set<int>>)
      requires |hosts| % 2 == 0
      modifies lgs, llc
      ensures match Decide(Request(), old(llc.servers).Keys, strict, lookup, registered)
        case Refused(reason) => lgs.closedWith == Some(reason) && llc.servers == old(llc.servers)
        case Authorized(id, auth, trusted) =>
          Admitted(lgs, id, auth, trusted) && lgs.state == Authed && lgs.closedWith == old(lgs.closedWith)
          && llc.servers == old(llc.servers)[id := lgs]
      ensures forall k | k in old(llc.servers) :: k in llc.servers && llc.servers[k] == old(llc.servers)[k]
    {
      if desiredId in llc.servers {
        if !acceptAlternateId || strict {
          lgs.Close(AlreadyLoggedIn);
        } else {
          TryAssignAvailableId(lgs, llc, registered);
        }
      } else {
        match lookup
        case LookupFailed =>
          lgs.Close(NoFreeId);
        case Registered(auth, bans) =>
          var hex := Hex.BytesToHexString(Some(hexId));
          if Some(hex) != auth {
            if !acceptAlternateId || strict {
              lgs.Close(WrongHexId);
            } else {
              TryAssignAvailableId(lgs, llc, registered);
            }
          } else {
            FinishAuthorization(desiredId, Some(hex), bans, lgs, llc);
          }
        case Unregistered =>
          if strict {
            lgs.Close(WrongHexId);
          } else {
            var hex := Hex.BytesToHexString(Some(hexId));
            FinishAuthorization(desiredId, Some(hex), false, lgs, llc);
          }
      }
      if Decide(Request(), old(llc.servers).Keys, strict, lookup, registered).Authorized? {
        AuthorizedIdIsFree(Request(), old(llc.servers).Keys, strict, lookup, registered);
      }
    }

    /** runImpl as written: every authorized server is registered under its desired ID. */
    method RunImplAsWritten(lgs: GameServer, llc: LegacyConnections, strict: bool, lookup: Lookup, registered: Option<set<int>>)
      requires |hosts| % 2 == 0
      modifies lgs, llc
      ensures match Decide(Request(), old(llc.servers).Keys, strict, lookup, registered)
        case Refused(reason) => lgs.closedWith == Some(reason) && llc.servers == old(llc.servers)
        case Authorized(id, auth, trusted) =>
          Admitted(lgs, id, auth, trusted) && lgs.state == Authed && lgs.closedWith == old(lgs.closedWith)
          && llc.servers == old(llc.servers)[desiredId := lgs]
    {
      if desiredId in llc.servers {
        if !acceptAlternateId || strict {
          lgs.Close(AlreadyLoggedIn);
        } else {
          TryAssignAvailableIdAsWritten(lgs, llc, registered);
        }
      } else {
        match lookup
        case LookupFailed =>
          lgs.Close(NoFreeId);
        case Registered(auth, bans) =>
          var hex := Hex.BytesToHexString(Some(hexId));
          if Some(hex) != auth {
            if !acceptAlternateId || strict {
              lgs.Close(WrongHexId);
            } else {
              TryAssignAvailableIdAsWritten(lgs, llc, registered);
            }
          } else {
            FinishAuthorizationAsWritten(desiredId, Some(hex), bans, lgs, llc);
          }
        case Unregistered =>
          if strict {
            lgs.Close(WrongHexId);
          } else {
            var hex := Hex.BytesToHexString(Some(hexId));
            FinishAuthorizationAsWritten(desiredId, Some(hex), false, lgs, llc);
          }
      }
    }
  }

  // ----- The registration, as written and corrected -----

  /**
   * finishAuthorization as written registers the server under the desired ID, not the ID it was
   * given: with ID 1 on-line, a server that wants ID 1 and accepts another is given ID 2 and then
   * registered under ID 1, so the server that was on-line there is registered no more.
   */
  method DesiredIdDisplaced() returns (online: GameServer, lgs: GameServer, llc: LegacyConnections)
    ensures lgs.id == 2 && lgs.state == Authed && online != lgs
    ensures llc.servers == map[1 := lgs]
  {
    llc := new LegacyConnections();
    online := new GameServer();
    llc.AddGameServer(1, online);
    var packet := new GameServerAuth();
    packet.desiredId := 1;
    packet.acceptAlternateId := true;
    lgs := new GameServer();
    ReassignsFromOnlineId(packet.Request());
    packet.RunImplAsWritten(lgs, llc, false, Unregistered, Some({}));
  }

  /** The same case with the registration under the ID given: both servers stay registered. */
  method DesiredIdKept() returns (online: GameServer, lgs: GameServer, llc: LegacyConnections)
    ensures lgs.id == 2 && lgs.state == Authed && online != lgs
    ensures llc.servers == map[1 := online, 2 := lgs]
  {
    llc := new LegacyConnections();
    online := new GameServer();
    llc.AddGameServer(1, online);
    var packet := new GameServerAuth();
    packet.desiredId := 1;
    packet.acceptAlternateId := true;
    lgs := new GameServer();
    ReassignsFromOnlineId(packet.Request());
    packet.RunImpl(lgs, llc, false, Unregistered, Some({}));
  }
}
