/** The hub's state and the changes made to it: codes issued, devices joined,
    removed and seen, tokens authenticated. */
module Hub {
  import opened Wrappers
  import opened Integers
  import opened Subnet
  import opened Codes
  import opened Credentials
  import opened TlsState

  datatype Cloudflare = Cloudflare(zoneId: string, recordId: Option<string>, tokenPath: Option<string>)

  datatype ServerKeys = ServerKeys(privateKey: string, publicKey: string, address: Ipv4)

  datatype Peer = Peer(name: string, publicKey: string, address: Ipv4, tokenHash: string, createdAt: I64,
                       lastSeen: Option<I64>)

  datatype State = State(domain: string, subnet: Subnet, listenPort: U16, apiPort: U16, tls: Tls,
                         cloudflare: Option<Cloudflare>, server: ServerKeys, peers: seq<Peer>, codes: seq<IssuedCode>)

  datatype Registration = Registration(code: string, name: string, publicKey: string, tokenHash: string)

  datatype JoinRejection = UnknownCode | CodeNotUsable(status: CodeStatus) | Taken | Full

  // --------------------------------------------------------- transitions

  /** The first entry for a code. */
  function CodeAt(codes: seq<IssuedCode>, code: string): (r: Option<nat>)
    ensures r.Some? ==> r.value < |codes| && codes[r.value].code == code
    ensures r.Some? ==> forall k :: 0 <= k < r.value ==> codes[k].code != code
    ensures r.None? ==> forall k :: 0 <= k < |codes| ==> codes[k].code != code
  {
    if codes == [] then None
    else if codes[0].code == code then Some(0)
    else
      match CodeAt(codes[1..], code)
      case None => None
      case Some(k) => Some(k + 1)
  }

  /** The first device under a name. */
  function PeerAt(peers: seq<Peer>, name: string): (r: Option<nat>)
    ensures r.Some? ==> r.value < |peers| && peers[r.value].name == name
    ensures r.Some? ==> forall k :: 0 <= k < r.value ==> peers[k].name != name
    ensures r.None? ==> forall k :: 0 <= k < |peers| ==> peers[k].name != name
  {
    if peers == [] then None
    else if peers[0].name == name then Some(0)
    else
      match PeerAt(peers[1..], name)
      case None => None
      case Some(k) => Some(k + 1)
  }

  function Addresses(peers: seq<Peer>): (r: seq<Ipv4>)
    ensures |r| == |peers| && forall k :: 0 <= k < |r| ==> r[k] == peers[k].address
  {
    seq(|peers|, k requires 0 <= k < |peers| => peers[k].address)
  }

  /** Redeems a code and registers a device, or refuses and changes nothing. */
  function AddPeer(s: State, reg: Registration, now: I64): (State, Result<Peer, JoinRejection>) {
    match CodeAt(s.codes, reg.code)
    case None => (s, Err(UnknownCode))
    case Some(k) =>
      if StatusOf(s.codes[k], now) != Usable then (s, Err(CodeNotUsable(StatusOf(s.codes[k], now))))
      else if PeerAt(s.peers, reg.name).Some? then (s, Err(Taken))
      else
        match Allocate(s.subnet, Addresses(s.peers))
        case None => (s, Err(Full))
        case Some(address) =>
          var peer := Peer(reg.name, reg.publicKey, address, reg.tokenHash, now, None);
          (s.(codes := s.codes[k := s.codes[k].(usedAt := Some(now))], peers := s.peers + [peer]), Ok(peer))
  }

  function RemovePeer(s: State, name: string): (State, Option<Peer>) {
    match PeerAt(s.peers, name)
    case None => (s, None)
    case Some(k) => (s.(peers := s.peers[..k] + s.peers[k + 1..]), Some(s.peers[k]))
  }

  /** `touch_last_seen`. */
  function Touch(s: State, name: string, now: I64): State {
    match PeerAt(s.peers, name)
    case None => s
    case Some(k) => s.(peers := s.peers[k := s.peers[k].(lastSeen := Some(now))])
  }

  function Issue(s: State, code: string, now: I64, ttl: I64): State {
    s.(codes := s.codes + [IssueCode(code, now, ttl)])
  }

  datatype DrawError = NoRandomness | NoFreeCode(draws: nat)

  /** Takes the first drawn code the state does not hold; `None` is a draw for
      which there was no randomness. */
  function ChooseUnused(s: State, draws: seq<Option<string>>, tried: nat): Result<string, DrawError>
    decreases |draws|
  {
    if draws == [] then Err(NoFreeCode(tried))
    else
      match draws[0]
      case None => Err(NoRandomness)
      case Some(code) =>
        if CodeAt(s.codes, code).None? then Ok(code) else ChooseUnused(s, draws[1..], tried + 1)
  }

  // ------------------------------------------------------------- the API

  datatype ApiError =
    | InvalidCode
    | InvalidName(error: NameError)
    | InvalidPublicKey
    | NameTaken
    | SubnetFull
    | NotFound
    | Unauthorized

  datatype JoinRequest = JoinRequest(code: string, name: string, publicKey: string)

  datatype JoinResponse = JoinResponse(name: string, address: string, subnet: string, token: string,
                                       serverPublicKey: string, serverEndpoint: string, serverAddress: string)

  datatype PeerInfo = PeerInfo(name: string, publicKey: string, address: string)

  datatype HubInfo = HubInfo(subnet: string, serverPublicKey: string, serverEndpoint: string, serverAddress: string)

  datatype PeersResponse = PeersResponse(peers: seq<PeerInfo>, hub: Option<HubInfo>)

  function ServerEndpoint(s: State): string {
    s.domain + [':'] + Digits(s.listenPort)
  }

  function InfoOf(peer: Peer): PeerInfo {
    PeerInfo(peer.name, peer.publicKey, ShowIpv4(peer.address))
  }

  function Describe(s: State): HubInfo {
    HubInfo(ShowSubnet(s.subnet), s.server.publicKey, ServerEndpoint(s), ShowIpv4(ServerAddress(s.subnet)))
  }

  /** `GET /peers`: the roster, and the hub's account of itself. */
  function DecidePeers(s: State): PeersResponse {
    PeersResponse(seq(|s.peers|, k requires 0 <= k < |s.peers| => InfoOf(s.peers[k])), Some(Describe(s)))
  }

  /** What a refusal is called on the wire: every trouble with a code is one. */
  function WireError(rejection: JoinRejection): ApiError {
    match rejection
    case UnknownCode => InvalidCode
    case CodeNotUsable(_) => InvalidCode
    case Taken => NameTaken
    case Full => SubnetFull
  }

  function DecideJoin(w: World, s: State, request: JoinRequest, token: string, now: I64)
    : (State, Result<JoinResponse, ApiError>)
  {
    match ParseCode(request.code)
    case Err(_) => (s, Err(InvalidCode))
    case Ok(code) =>
      match ParseName(w, request.name)
      case Err(e) => (s, Err(InvalidName(e)))
      case Ok(name) =>
        match ParseKey(request.publicKey)
        case None => (s, Err(InvalidPublicKey))
        case Some(key) =>
          var (after, added) := AddPeer(s, Registration(code, name, key, w.hash(token)), now);
          match added
          case Err(rejection) => (after, Err(WireError(rejection)))
          case Ok(peer) =>
            (after, Ok(JoinResponse(peer.name, ShowIpv4(peer.address), ShowSubnet(after.subnet), token,
                                    after.server.publicKey, ServerEndpoint(after),
                                    ShowIpv4(ServerAddress(after.subnet)))))
  }

  function DecideRemove(w: World, s: State, name: string): (State, Result<PeerInfo, ApiError>) {
    match ParseName(w, name)
    case Err(_) => (s, Err(NotFound))
    case Ok(parsed) =>
      match RemovePeer(s, parsed)
      case (after, None) => (after, Err(NotFound))
      case (after, Some(peer)) => (after, Ok(InfoOf(peer)))
  }

  /** The last device whose stored hash is the offered one. */
  function LastMatch(peers: seq<Peer>, hash: string): (r: Option<string>)
    ensures r.None? <==> forall k :: 0 <= k < |peers| ==> peers[k].tokenHash != hash
    ensures r.Some? ==> exists k :: 0 <= k < |peers| && peers[k].tokenHash == hash && peers[k].name == r.value
  {
    if peers == [] then None
    else
      var k := |peers| - 1;
      if peers[k].tokenHash == hash then Some(peers[k].name) else LastMatch(peers[..k], hash)
  }

  function Authenticate(w: World, s: State, token: string): Result<string, ApiError> {
    match LastMatch(s.peers, w.hash(token))
    case None => Err(Unauthorized)
    case Some(name) => Ok(name)
  }

  // ---------------------------------------------------------- invariants

  /** What the types and the file's own rules require of a state. */
  ghost predicate WellFormed(w: World, s: State) {
    && IsNetwork(s.subnet)
    && s.server.address == ServerAddress(s.subnet)
    && (forall k :: 0 <= k < |s.peers| ==> IsName(w, s.peers[k].name) && IsHex(s.peers[k].tokenHash))
    && (forall k :: 0 <= k < |s.codes| ==> IsCode(s.codes[k].code))
  }

  ghost predicate DistinctNames(peers: seq<Peer>) {
    forall i, j :: 0 <= i < j < |peers| ==> peers[i].name != peers[j].name
  }

  ghost predicate DistinctAddresses(peers: seq<Peer>) {
    forall i, j :: 0 <= i < j < |peers| ==> peers[i].address != peers[j].address
  }

  /** A device as a join leaves it: a key of the right shape, an address from
      .2 to .254 of the hub's own network. */
  predicate Housed(net: Subnet, peer: Peer) {
    IsKey(peer.publicKey) && Contains(net, peer.address) && 2 <= peer.address.d <= 254
  }

  /** What every reachable state is, beyond being well-formed. */
  ghost predicate Orderly(w: World, s: State) {
    && WellFormed(w, s)
    && DistinctNames(s.peers)
    && DistinctAddresses(s.peers)
    && forall k :: 0 <= k < |s.peers| ==> Housed(s.subnet, s.peers[k])
  }

  /** A hub nobody has joined yet. */
  ghost predicate IsFresh(w: World, s: State) {
    WellFormed(w, s) && s.peers == [] && s.codes == []
  }

  /** Everything but devices and codes. */
  predicate SameHub(a: State, b: State) {
    a.(peers := [], codes := []) == b.(peers := [], codes := [])
  }
}
