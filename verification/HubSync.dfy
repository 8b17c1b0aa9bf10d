/** From join to sync: a device keeps its token and its place on the hub until
    it is removed, and never after. */
module HubSync {
  import opened Wrappers
  import opened Integers
  import opened Text
  import opened Subnet
  import opened Codes
  import opened Credentials
  import opened Hub
  import opened HubRuns

  // ---------------------------------------------------------------- joins

  /** What a join that succeeds does, all of it. */
  ghost predicate JoinedAs(w: World, s: State, op: Op, peer: Peer)
    requires op.JoinOp?
  {
    var (after, answer) := Apply(w, s, op);
    && after.peers == s.peers + [peer]
    && Ok(peer.name) == ParseName(w, op.request.name)
    && Some(peer.publicKey) == ParseKey(op.request.publicKey)
    && peer.tokenHash == w.hash(op.token)
    && LowestFree(s, peer.address)
    && (forall k :: 0 <= k < |s.peers| ==> s.peers[k].name != peer.name)
    && answer == Joined(Ok(JoinResponse(peer.name, ShowIpv4(peer.address), ShowSubnet(s.subnet), op.token,
                                        s.server.publicKey, ServerEndpoint(s), ShowIpv4(ServerAddress(s.subnet)))))
  }

  lemma JoinDoes(w: World, s: State, op: Op) returns (peer: Peer)
    requires Apply(w, s, op).1.Joined? && Apply(w, s, op).1.join.Ok?
    ensures op.JoinOp? && JoinedAs(w, s, op, peer)
  {
    hide ParseCode, ParseName, ParseKey, Allocate, ShowIpv4, ShowSubnet, LowestFree, IsKey, StatusOf;
    var reg := Registration(ParseCode(op.request.code).value, ParseName(w, op.request.name).value,
                            ParseKey(op.request.publicKey).value, w.hash(op.token));
    AddPeerExactly(s, reg, op.at);
    peer := AddPeer(s, reg, op.at).1.value;
  }

  // ----------------------------------------------------------------- auth

  /** The device `name` is registered at `address` under the hash `hash`, and
      nobody else has that hash. */
  ghost predicate Registered(s: State, name: string, address: Ipv4, hash: string) {
    && (exists k :: 0 <= k < |s.peers| && s.peers[k].name == name && s.peers[k].address == address
                    && s.peers[k].tokenHash == hash)
    && (forall k :: 0 <= k < |s.peers| && s.peers[k].tokenHash == hash ==> s.peers[k].name == name)
  }

  ghost predicate NobodyHas(s: State, hash: string) {
    forall k :: 0 <= k < |s.peers| ==> s.peers[k].tokenHash != hash
  }

  /** Operation `op` hands out no token with this hash. */
  predicate Avoids(w: World, op: Op, hash: string) {
    op.JoinOp? ==> w.hash(op.token) != hash
  }

  lemma RegisteredAuthenticates(w: World, s: State, name: string, address: Ipv4, token: string)
    ensures Registered(s, name, address, w.hash(token)) ==> Authenticate(w, s, token) == Ok(name)
    ensures NobodyHas(s, w.hash(token)) ==> Authenticate(w, s, token) == Err(Unauthorized)
  {
  }

  lemma RemoveKeepsRegistered(s: State, gone: string, name: string, address: Ipv4, hash: string)
    requires DistinctNames(s.peers) && Registered(s, name, address, hash)
    ensures var after := RemovePeer(s, gone).0;
            if gone == name then NobodyHas(after, hash) else Registered(after, name, address, hash)
  {
    hide PeerAt;
    var k :| 0 <= k < |s.peers| && s.peers[k].name == name && s.peers[k].address == address
        && s.peers[k].tokenHash == hash;
    var at, after := PeerAt(s.peers, gone), RemovePeer(s, gone).0;
    if at.Some? {
      assert forall i :: 0 <= i < |after.peers| ==> after.peers[i] == s.peers[if i < at.value then i else i + 1];
      if at.value != k {
        assert after.peers[if k < at.value then k else k - 1] == s.peers[k];
      }
    }
  }

  lemma ApplyKeepsRegistered(w: World, s: State, op: Op, name: string, address: Ipv4, hash: string)
    requires DistinctNames(s.peers) && Registered(s, name, address, hash) && Avoids(w, op, hash)
    ensures var (after, a) := Apply(w, s, op);
            if a.Removed? && a.removal.Ok? && a.removal.value.name == name then NobodyHas(after, hash)
            else Registered(after, name, address, hash)
  {
    hide Apply, Registered, NobodyHas;
    if op.RemoveOp? {
      RemovalKeepsRegistered(w, s, op, name, address, hash);
    } else {
      KeptPeers(w, s, op);
      StaysRegistered(s, Apply(w, s, op).0, name, address, hash);
    }
  }

  lemma RemovalKeepsRegistered(w: World, s: State, op: Op, name: string, address: Ipv4, hash: string)
    requires op.RemoveOp? && DistinctNames(s.peers) && Registered(s, name, address, hash)
    ensures var (after, a) := Apply(w, s, op);
            if a.Removed? && a.removal.Ok? && a.removal.value.name == name then NobodyHas(after, hash)
            else Registered(after, name, address, hash)
  {
    hide ParseName, Registered, NobodyHas, DistinctNames, ShowIpv4;
    if ParseName(w, op.name).Ok? {
      RemoveKeepsRegistered(s, ParseName(w, op.name).value, name, address, hash);
    }
  }

  lemma StaysRegistered(s: State, after: State, name: string, address: Ipv4, hash: string)
    requires Registered(s, name, address, hash) && |s.peers| <= |after.peers| <= |s.peers| + 1
    requires forall k :: 0 <= k < |s.peers| ==> SameDevice(s.peers[k], after.peers[k])
    requires |after.peers| > |s.peers| ==> after.peers[|s.peers|].tokenHash != hash
    ensures Registered(after, name, address, hash)
  {
    var k :| 0 <= k < |s.peers| && s.peers[k].name == name && s.peers[k].address == address
        && s.peers[k].tokenHash == hash;
    assert SameDevice(s.peers[k], after.peers[k]);
  }

  /** One device, whenever it last called. */
  predicate SameDevice(p: Peer, q: Peer) {
    q == p.(lastSeen := q.lastSeen)
  }

  /** Unless a device is removed, all stay where they were and at most one
      comes after them. */
  lemma KeptPeers(w: World, s: State, op: Op)
    requires !op.RemoveOp?
    ensures !Apply(w, s, op).1.Removed?
    ensures var after := Apply(w, s, op).0.peers;
            && |s.peers| <= |after| <= |s.peers| + 1
            && (forall k :: 0 <= k < |s.peers| ==> SameDevice(s.peers[k], after[k]))
            && (|after| > |s.peers| ==> op.JoinOp? && after[|s.peers|].tokenHash == w.hash(op.token))
  {
    hide ParseCode, ParseName, ParseKey, Allocate, Addresses, ShowIpv4, ShowSubnet, ServerEndpoint, IssueCode, StatusOf;
  }

  lemma ApplyKeepsNobody(w: World, s: State, op: Op, hash: string)
    requires NobodyHas(s, hash) && Avoids(w, op, hash)
    ensures NobodyHas(Apply(w, s, op).0, hash)
  {
    hide ParseCode, ParseName, ParseKey, Allocate, Addresses, ShowIpv4, ShowSubnet, ServerEndpoint, IssueCode, StatusOf;
  }

  /** No two joins are given tokens of one hash, nor of a hash a device already
      has. */
  ghost predicate DistinctTokens(w: World, s: State, ops: seq<Op>) {
    && (forall i, j :: 0 <= i < j < |ops| && ops[i].JoinOp? ==> Avoids(w, ops[j], w.hash(ops[i].token)))
    && forall i :: 0 <= i < |ops| && ops[i].JoinOp? ==> NobodyHas(s, w.hash(ops[i].token))
  }

  lemma {:induction false} UnusedHash(w: World, s: State, ops: seq<Op>, i: nat, hash: string)
    requires NobodyHas(s, hash) && i <= |ops|
    requires forall k :: 0 <= k < i ==> Avoids(w, ops[k], hash)
    ensures NobodyHas(Before(w, s, ops, i), hash)
  {
    hide Apply, Avoids;
    if i > 0 {
      UnusedHash(w, s, ops, i - 1, hash);
      ApplyKeepsNobody(w, Before(w, s, ops, i - 1), ops[i - 1], hash);
    }
  }

  /** Some operation from `from` up to `to` takes `name` off the hub. */
  ghost predicate RemovedBetween(w: World, s: State, ops: seq<Op>, from: nat, to: nat, name: string)
    requires to <= |ops|
  {
    exists k :: from <= k < to && RemovesAt(w, s, ops, k, name)
  }

  /** From its join on, a device is registered until the first operation that
      removes it; from then on its token's hash is nobody's. */
  lemma {:induction false} RegisteredUntilRemoved(w: World, s: State, ops: seq<Op>, i: nat, j: nat, peer: Peer)
    requires Sound(w) && Orderly(w, s) && DistinctTokens(w, s, ops)
    requires i < j <= |ops| && ops[i].JoinOp? && JoinedAs(w, Before(w, s, ops, i), ops[i], peer)
    ensures if RemovedBetween(w, s, ops, i + 1, j, peer.name) then NobodyHas(Before(w, s, ops, j), w.hash(ops[i].token))
            else Registered(Before(w, s, ops, j), peer.name, peer.address, w.hash(ops[i].token))
    decreases j
  {
    hide *;
    if j == i + 1 {
      UnusedHashAt(w, s, ops, i);
      RegisteredFirst(w, s, ops, i, peer);
    } else {
      RegisteredUntilRemoved(w, s, ops, i, j - 1, peer);
      RunKeepsOrder(w, s, ops, j - 1);
      TokensDiffer(w, s, ops, i, j - 1);
      NextRegistered(w, s, ops, i, j - 1, peer.name, peer.address, w.hash(ops[i].token));
    }
  }

  lemma TokensDiffer(w: World, s: State, ops: seq<Op>, i: nat, k: nat)
    requires DistinctTokens(w, s, ops) && i < k < |ops| && ops[i].JoinOp?
    ensures Avoids(w, ops[k], w.hash(ops[i].token))
  {
  }

  lemma UnusedHashAt(w: World, s: State, ops: seq<Op>, i: nat)
    requires DistinctTokens(w, s, ops) && i < |ops| && ops[i].JoinOp?
    ensures NobodyHas(Before(w, s, ops, i), w.hash(ops[i].token))
  {
    forall k | 0 <= k < i
      ensures Avoids(w, ops[k], w.hash(ops[i].token))
    {
      assert ops[k].JoinOp? ==> Avoids(w, ops[i], w.hash(ops[k].token));
    }
    UnusedHash(w, s, ops, i, w.hash(ops[i].token));
  }

  lemma RegisteredFirst(w: World, s: State, ops: seq<Op>, i: nat, peer: Peer)
    requires i < |ops| && ops[i].JoinOp? && JoinedAs(w, Before(w, s, ops, i), ops[i], peer)
    requires NobodyHas(Before(w, s, ops, i), w.hash(ops[i].token))
    ensures Registered(Before(w, s, ops, i + 1), peer.name, peer.address, w.hash(ops[i].token))
    ensures !RemovedBetween(w, s, ops, i + 1, i + 1, peer.name)
  {
    hide LowestFree, ParseName, ParseKey, ShowIpv4, ShowSubnet, ServerEndpoint, Apply;
    var t := Before(w, s, ops, i);
    assert Apply(w, t, ops[i]).0.peers[|t.peers|] == peer;
  }

  lemma NextRegistered(w: World, s: State, ops: seq<Op>, i: nat, k: nat, name: string, address: Ipv4, hash: string)
    requires i < k < |ops| && Avoids(w, ops[k], hash) && Orderly(w, Before(w, s, ops, k))
    requires if RemovedBetween(w, s, ops, i + 1, k, name) then NobodyHas(Before(w, s, ops, k), hash)
             else Registered(Before(w, s, ops, k), name, address, hash)
    ensures if RemovedBetween(w, s, ops, i + 1, k + 1, name) then NobodyHas(Before(w, s, ops, k + 1), hash)
            else Registered(Before(w, s, ops, k + 1), name, address, hash)
  {
    RemovedNext(w, s, ops, i + 1, k, name);
    NextState(w, s, ops, k, name);
    assert DistinctNames(Before(w, s, ops, k).peers);
    hide *;
    var t := Before(w, s, ops, k);
    if RemovedBetween(w, s, ops, i + 1, k, name) {
      ApplyKeepsNobody(w, t, ops[k], hash);
    } else {
      ApplyKeepsRegistered(w, t, ops[k], name, address, hash);
    }
  }

  lemma NextState(w: World, s: State, ops: seq<Op>, k: nat, name: string)
    requires k < |ops|
    ensures var (after, a) := Apply(w, Before(w, s, ops, k), ops[k]);
            && Before(w, s, ops, k + 1) == after
            && (RemovesAt(w, s, ops, k, name) <==> a.Removed? && a.removal.Ok? && a.removal.value.name == name)
  {
    hide Apply;
  }

  lemma RemovedNext(w: World, s: State, ops: seq<Op>, from: nat, k: nat, name: string)
    requires from <= k < |ops|
    ensures RemovedBetween(w, s, ops, from, k + 1, name) <==>
            RemovedBetween(w, s, ops, from, k, name) || RemovesAt(w, s, ops, k, name)
  {
    hide RemovesAt;
  }

  /** A token is its device's from the join until the removal, and then
      nobody's for good, whatever else joins, leaves or takes the name. */
  lemma TokenLivesExactly(w: World, s: State, ops: seq<Op>, i: nat, j: nat)
    requires Sound(w) && Orderly(w, s) && DistinctTokens(w, s, ops)
    requires i < j <= |ops| && JoinsAt(w, s, ops, i)
    ensures ops[i].JoinOp?
    ensures var name := AnswerAt(w, s, ops, i).join.value.name;
            Authenticate(w, Before(w, s, ops, j), ops[i].token) ==
            if RemovedBetween(w, s, ops, i + 1, j, name) then Err(Unauthorized) else Ok(name)
  {
    var peer := JoinDoes(w, Before(w, s, ops, i), ops[i]);
    RegisteredUntilRemoved(w, s, ops, i, j, peer);
    RegisteredAuthenticates(w, Before(w, s, ops, j), peer.name, peer.address, ops[i].token);
  }

  // ----------------------------------------------------------------- sync

  datatype Local = Local(name: string, address: Ipv4, subnet: Subnet, serverPublicKey: string, serverEndpoint: string,
                         serverAddress: Ipv4)

  datatype Reported = Reported(subnet: Subnet, serverPublicKey: string, serverEndpoint: string, serverAddress: Ipv4)

  datatype Member = Member(name: string, address: Ipv4)

  datatype Changes = Changes(serverPublicKey: bool, serverEndpoint: bool, serverAddress: bool)

  datatype Detachment = Gone | Reassigned(theirs: Ipv4) | SubnetChanged(network: Subnet)

  datatype Sync = Unchanged | Unverifiable | Rewrite(changes: Changes) | Detached(why: Detachment)

  function MemberAt(roster: seq<Member>, name: string): (r: Option<Member>)
    ensures r.None? <==> forall k :: 0 <= k < |roster| ==> roster[k].name != name
    ensures r.Some? ==> r.value in roster && r.value.name == name
  {
    if roster == [] then None
    else if roster[0].name == name then Some(roster[0])
    else MemberAt(roster[1..], name)
  }

  function Decide(local: Local, reported: Option<Reported>, roster: seq<Member>): Sync {
    if reported.Some? && reported.value.subnet != local.subnet then Detached(SubnetChanged(reported.value.subnet))
    else
      match MemberAt(roster, local.name)
      case None => Detached(Gone)
      case Some(member) =>
        if member.address != local.address then Detached(Reassigned(member.address))
        else
          match reported
          case None => Unverifiable
          case Some(hub) =>
            var changes := Changes(hub.serverPublicKey != local.serverPublicKey,
                                   hub.serverEndpoint != local.serverEndpoint,
                                   hub.serverAddress != local.serverAddress);
            if changes == Changes(false, false, false) then Unchanged else Rewrite(changes)
  }

  datatype SyncError = BadDeviceFile(field: string) | BadResponse(field: string)

  /** What the device wrote down when it joined, read back. */
  function LocalOf(w: World, kept: JoinResponse): Result<Local, SyncError> {
    var name, address, subnet, server :=
      ParseName(w, kept.name), ParseIpv4(kept.address), ParseSubnet(kept.subnet), ParseIpv4(kept.serverAddress);
    if name.Err? then Err(BadDeviceFile("name"))
    else if address.None? then Err(BadDeviceFile("address"))
    else if subnet.Err? then Err(BadDeviceFile("subnet"))
    else if server.None? then Err(BadDeviceFile("server_address"))
    else Ok(Local(name.value, address.value, subnet.value, kept.serverPublicKey, kept.serverEndpoint, server.value))
  }

  /** `u16::parse`. */
  function ParseU16(s: string): Option<U16> {
    var body := if s != [] && s[0] == '+' then s[1..] else s;
    if body == [] || !AllDigits(body) || DigitsValue(body) >= 0x1_0000 then None else Some(DigitsValue(body))
  }

  predicate IsHostChar(c: char) {
    IsAsciiAlnum(c) || c == '-' || c == '.'
  }

  /** `join::checked_endpoint`: `host:port`, strictly, given back canonical. */
  function CheckedEndpoint(text: string): Option<string> {
    match SplitLast(text, ':')
    case None => None
    case Some(p) =>
      if p.0 == [] || exists k :: 0 <= k < |p.0| && !IsHostChar(p.0[k]) then None
      else
        match ParseU16(p.1)
        case None => None
        case Some(port) => if port == 0 then None else Some(p.0 + [':'] + Digits(port))
  }

  function ReportedOf(response: PeersResponse): Result<Option<Reported>, SyncError> {
    match response.hub
    case None => Ok(None)
    case Some(hub) =>
      var subnet, key, endpoint, server :=
        ParseSubnet(hub.subnet), ParseKey(hub.serverPublicKey), CheckedEndpoint(hub.serverEndpoint),
        ParseIpv4(hub.serverAddress);
      if subnet.Err? then Err(BadResponse("subnet"))
      else if key.None? then Err(BadResponse("server_public_key"))
      else if endpoint.None? then Err(BadResponse("server_endpoint"))
      else if server.None? then Err(BadResponse("server_address"))
      else Ok(Some(Reported(subnet.value, key.value, endpoint.value, server.value)))
  }

  function MemberOf(w: World, info: PeerInfo): Result<Member, SyncError> {
    var name, address := ParseName(w, info.name), ParseIpv4(info.address);
    if name.Err? then Err(BadResponse("peer name"))
    else if address.None? then Err(BadResponse("peer address"))
    else Ok(Member(name.value, address.value))
  }

  function RosterOf(w: World, peers: seq<PeerInfo>): Result<seq<Member>, SyncError> {
    if peers == [] then Ok([])
    else
      match MemberOf(w, peers[0])
      case Err(e) => Err(e)
      case Ok(member) =>
        match RosterOf(w, peers[1..])
        case Err(e) => Err(e)
        case Ok(rest) => Ok([member] + rest)
  }

  /** One run of sync, from the device's file and the hub's answer. */
  function SyncWith(w: World, kept: JoinResponse, response: PeersResponse): Result<Sync, SyncError> {
    var local, reported, roster := LocalOf(w, kept), ReportedOf(response), RosterOf(w, response.peers);
    if local.Err? then Err(local.error)
    else if reported.Err? then Err(reported.error)
    else if roster.Err? then Err(roster.error)
    else Ok(Decide(local.value, reported.value, roster.value))
  }

  /** A hub whose own details a device accepts: a WireGuard key, and an
      endpoint that is a host name and a port. */
  predicate Reachable(s: State) {
    IsKey(s.server.publicKey) && HasEndpoint(s)
  }

  predicate HasEndpoint(s: State) {
    && s.domain != [] && (forall k :: 0 <= k < |s.domain| ==> IsHostChar(s.domain[k]))
    && s.listenPort != 0
  }

  /** The endpoint a hub gives out passes the device's check exactly when its
      domain is a host name and its port is not 0; it is then left as it is. */
  lemma EndpointExactly(s: State)
    ensures CheckedEndpoint(ServerEndpoint(s)) ==
            if HasEndpoint(s) then Some(ServerEndpoint(s)) else None
  {
    SplitLastAt(s.domain, ':', Digits(s.listenPort));
    DigitsReadBack(s.listenPort);
  }

  ghost predicate RosterMatches(roster: seq<Member>, peers: seq<Peer>) {
    |roster| == |peers| && forall k :: 0 <= k < |peers| ==> roster[k] == Member(peers[k].name, peers[k].address)
  }

  lemma {:induction false} RosterReads(w: World, peers: seq<Peer>, infos: seq<PeerInfo>)
    requires Sound(w) && forall k :: 0 <= k < |peers| ==> IsName(w, peers[k].name)
    requires |infos| == |peers| && forall k :: 0 <= k < |peers| ==> infos[k] == InfoOf(peers[k])
    ensures RosterOf(w, infos).Ok? && RosterMatches(RosterOf(w, infos).value, peers)
  {
    hide IsName, Sound, MemberOf, InfoOf;
    if peers != [] {
      MemberReads(w, peers[0]);
      RosterReads(w, peers[1..], infos[1..]);
    }
  }

  lemma MemberReads(w: World, peer: Peer)
    requires Sound(w) && IsName(w, peer.name)
    ensures MemberOf(w, InfoOf(peer)) == Ok(Member(peer.name, peer.address))
  {
    hide IsName, Sound, ParseName, ParseIpv4, ShowIpv4;
    NamesExactly(w, peer.name);
    Ipv4Exactly(ShowIpv4(peer.address), peer.address);
  }

  /** What a hub says of itself is believed exactly when its key is one, but
      for space around it, and its endpoint is a host name and a port. */
  lemma ReportReads(s: State)
    requires IsNetwork(s.subnet)
    ensures ReportedOf(DecidePeers(s)) ==
            if !IsKey(Trim(s.server.publicKey)) then Err(BadResponse("server_public_key"))
            else if !HasEndpoint(s) then Err(BadResponse("server_endpoint"))
            else Ok(Some(Reported(s.subnet, Trim(s.server.publicKey), ServerEndpoint(s), ServerAddress(s.subnet))))
  {
    hide ParseSubnet, ShowSubnet, ParseIpv4, ShowIpv4, CheckedEndpoint, ServerEndpoint, IsKey,
      HasEndpoint, Trim;
    SubnetExactly(ShowSubnet(s.subnet), s.subnet);
    Ipv4Exactly(ShowIpv4(ServerAddress(s.subnet)), ServerAddress(s.subnet));
    EndpointExactly(s);
  }

  lemma LocalReads(w: World, s: State, kept: JoinResponse, name: string, address: Ipv4)
    requires Sound(w) && IsName(w, name) && IsNetwork(s.subnet)
    requires kept.name == name && kept.address == ShowIpv4(address) && kept.subnet == ShowSubnet(s.subnet)
    requires kept.serverAddress == ShowIpv4(ServerAddress(s.subnet))
    ensures LocalOf(w, kept) ==
            Ok(Local(name, address, s.subnet, kept.serverPublicKey, kept.serverEndpoint, ServerAddress(s.subnet)))
  {
    hide ParseName, ParseIpv4, ParseSubnet, ShowIpv4, ShowSubnet, IsName;
    NamesExactly(w, name);
    Ipv4Exactly(kept.address, address);
    SubnetExactly(kept.subnet, s.subnet);
    Ipv4Exactly(kept.serverAddress, ServerAddress(s.subnet));
  }

  lemma FindsItself(roster: seq<Member>, peers: seq<Peer>, k: nat)
    requires RosterMatches(roster, peers) && DistinctNames(peers) && k < |peers|
    ensures MemberAt(roster, peers[k].name) == Some(Member(peers[k].name, peers[k].address))
  {
    hide MemberAt;
    assert roster[k].name == peers[k].name;
    var found := MemberAt(roster, peers[k].name).value;
    var n :| 0 <= n < |roster| && roster[n] == found;
    assert n == k;
  }

  /** What a device that is in step with the hub is told by a sync: nothing
      changed, unless the hub's own details are not what a device accepts. */
  function InStep(s: State): Result<Sync, SyncError> {
    if !IsKey(Trim(s.server.publicKey)) then Err(BadResponse("server_public_key"))
    else if !HasEndpoint(s) then Err(BadResponse("server_endpoint"))
    else if !IsKey(s.server.publicKey) then Ok(Rewrite(Changes(true, false, false)))
    else Ok(Unchanged)
  }

  /** That is nothing to do exactly when the hub's details are in order. */
  lemma InStepExactly(s: State)
    ensures InStep(s) == Ok(Unchanged) <==> Reachable(s)
  {
    hide HasEndpoint;
    KeyIsTrim(s.server.publicKey);
  }

  lemma KeyIsTrim(key: string)
    ensures IsKey(key) ==> Trim(key) == key
    ensures IsKey(Trim(key)) && Trim(key) == key ==> IsKey(key)
  {
    assert IsKey(key) ==> ParseKey(key) == Some(key);
  }

  /** One sync of a registered device finds that it is in step, on any hub. */
  lemma RegisteredSyncs(w: World, s: State, kept: JoinResponse, name: string, address: Ipv4, hash: string)
    requires Sound(w) && Orderly(w, s) && Registered(s, name, address, hash)
    requires kept == JoinResponse(name, ShowIpv4(address), ShowSubnet(s.subnet), kept.token, s.server.publicKey,
                                  ServerEndpoint(s), ShowIpv4(ServerAddress(s.subnet)))
    ensures SyncWith(w, kept, DecidePeers(s)) == InStep(s)
    ensures SyncWith(w, kept, DecidePeers(s)) == Ok(Unchanged) <==> Reachable(s)
  {
    InStepExactly(s);
    KeyIsTrim(s.server.publicKey);
    hide IsName, IsHex, IsCode, IsKey, Trim, HasEndpoint, ParseName, ParseIpv4, ParseSubnet, ShowIpv4, ShowSubnet,
      ServerEndpoint, ReportedOf, RosterOf, LocalOf, MemberAt;
    var k :| 0 <= k < |s.peers| && s.peers[k].name == name && s.peers[k].address == address;
    LocalReads(w, s, kept, name, address);
    ReportReads(s);
    RosterReads(w, s.peers, DecidePeers(s).peers);
    FindsItself(RosterOf(w, DecidePeers(s).peers).value, s.peers, k);
  }

  lemma {:induction false} HubStays(w: World, s: State, ops: seq<Op>, i: nat)
    requires i <= |ops|
    ensures SameHub(Before(w, s, ops, i), s)
  {
    hide Apply;
    if i > 0 {
      HubStays(w, s, ops, i - 1);
      RefusalChangesNothing(w, Before(w, s, ops, i - 1), ops[i - 1]);
    }
  }

  /** What a device is told of the hub itself is the same on the same hub. */
  lemma HubIsSame(t: State, s: State)
    requires SameHub(t, s)
    ensures t.server == s.server && t.subnet == s.subnet && ServerEndpoint(t) == ServerEndpoint(s)
    ensures InStep(t) == InStep(s) && (Reachable(t) <==> Reachable(s))
  {
    assert t == s.(peers := t.peers, codes := t.codes);
  }

  /** A device that joined and was not removed finds, at every later sync and
      after any other joins, removals and stamps, that it is in step: nothing
      has changed, exactly when the hub's own details are in order. */
  lemma MemberStaysInSync(w: World, s: State, ops: seq<Op>, i: nat, j: nat)
    requires Sound(w) && Orderly(w, s) && DistinctTokens(w, s, ops)
    requires i < j <= |ops| && JoinsAt(w, s, ops, i)
    requires !RemovedBetween(w, s, ops, i + 1, j, AnswerAt(w, s, ops, i).join.value.name)
    ensures var kept := AnswerAt(w, s, ops, i).join.value;
            var later := Before(w, s, ops, j);
            && Authenticate(w, later, kept.token) == Ok(kept.name)
            && SyncWith(w, kept, DecidePeers(later)) == InStep(s)
            && (SyncWith(w, kept, DecidePeers(later)) == Ok(Unchanged) <==> Reachable(s))
  {
    var first, later := Before(w, s, ops, i), Before(w, s, ops, j);
    var peer := JoinDoes(w, first, ops[i]);
    RegisteredUntilRemoved(w, s, ops, i, j, peer);
    TokenLivesExactly(w, s, ops, i, j);
    hide Apply, Registered, NobodyHas, Authenticate, InStep, Reachable, SyncWith, DecidePeers, ParseName, ParseKey,
      ShowIpv4, ShowSubnet, ServerEndpoint, LowestFree, Sound, DistinctTokens;
    HubStays(w, s, ops, i);
    HubStays(w, s, ops, j);
    RunKeepsOrder(w, s, ops, j);
    HubIsSame(first, s);
    HubIsSame(later, s);
    RegisteredSyncs(w, later, AnswerAt(w, s, ops, i).join.value, peer.name, peer.address, w.hash(ops[i].token));
  }
}
