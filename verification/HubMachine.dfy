/** The hub's state as the server holds it, in fields it updates in place, and
    the loops over them, held to what modules `Hub` and `Codes` compute. */
module HubMachine {
  import opened Wrappers
  import opened Integers
  import opened Subnet
  import opened Codes
  import opened Credentials
  import opened TlsState
  import opened Hub

  class Server {
    var domain: string
    var subnet: Subnet
    var listenPort: U16
    var apiPort: U16
    var tls: Tls
    var cloudflare: Option<Cloudflare>
    var keys: ServerKeys
    var peers: seq<Peer>
    var codes: seq<IssuedCode>

    constructor (s: State)
      ensures Contents() == s
    {
      domain, subnet, listenPort, apiPort := s.domain, s.subnet, s.listenPort, s.apiPort;
      tls, cloudflare, keys, peers, codes := s.tls, s.cloudflare, s.server, s.peers, s.codes;
    }

    function Contents(): State
      reads this
    {
      State(domain, subnet, listenPort, apiPort, tls, cloudflare, keys, peers, codes)
    }

    method AddPeer(reg: Registration, now: I64) returns (r: Result<Peer, JoinRejection>)
      modifies this`peers, this`codes
      ensures (Contents(), r) == Hub.AddPeer(old(Contents()), reg, now)
    {
      var index := CodeAt(codes, reg.code);
      if index.None? {
        return Err(UnknownCode);
      }
      var status := StatusOf(codes[index.value], now);
      if status != Usable {
        return Err(CodeNotUsable(status));
      }
      var taken := IsTaken(peers, reg.name);
      if taken {
        return Err(Taken);
      }
      var address := Allocate(subnet, Addresses(peers));
      if address.None? {
        return Err(Full);
      }
      codes := codes[index.value := codes[index.value].(usedAt := Some(now))];
      var peer := Peer(reg.name, reg.publicKey, address.value, reg.tokenHash, now, None);
      peers := peers + [peer];
      return Ok(peer);
    }

    method RemovePeer(name: string) returns (r: Option<Peer>)
      modifies this`peers
      ensures (Contents(), r) == Hub.RemovePeer(old(Contents()), name)
    {
      var index := PeerAt(peers, name);
      if index.None? {
        return None;
      }
      var peer := peers[index.value];
      peers := peers[..index.value] + peers[index.value + 1..];
      return Some(peer);
    }

    method TouchLastSeen(name: string, now: I64)
      modifies this`peers
      ensures Contents() == Touch(old(Contents()), name, now)
    {
      var index := PeerAt(peers, name);
      if index.Some? {
        peers := peers[index.value := peers[index.value].(lastSeen := Some(now))];
      }
    }

    method IssueCode(code: string, now: I64, ttl: I64) returns (issued: IssuedCode)
      modifies this`codes
      ensures Contents() == Issue(old(Contents()), code, now, ttl)
      ensures issued == codes[|codes| - 1]
    {
      issued := Codes.IssueCode(code, now, ttl);
      codes := codes + [issued];
    }

    method DecideJoin(w: World, request: JoinRequest, token: string, now: I64)
      returns (r: Result<JoinResponse, ApiError>)
      modifies this`peers, this`codes
      ensures (Contents(), r) == Hub.DecideJoin(w, old(Contents()), request, token, now)
    {
      hide ParseName, ParseKey, ShowIpv4, ShowSubnet;
      var code := ParseCodeLoop(request.code);
      if code.Err? {
        return Err(InvalidCode);
      }
      var name := ParseName(w, request.name);
      if name.Err? {
        return Err(InvalidName(name.error));
      }
      var key := ParseKey(request.publicKey);
      if key.None? {
        return Err(InvalidPublicKey);
      }
      var added := AddPeer(Registration(code.value, name.value, key.value, w.hash(token)), now);
      if added.Err? {
        return Err(WireError(added.error));
      }
      var peer := added.value;
      return Ok(JoinResponse(peer.name, ShowIpv4(peer.address), ShowSubnet(subnet), token, keys.publicKey,
                             ServerEndpoint(Contents()), ShowIpv4(ServerAddress(subnet))));
    }

    method DecideRemove(w: World, name: string) returns (r: Result<PeerInfo, ApiError>)
      modifies this`peers
      ensures (Contents(), r) == Hub.DecideRemove(w, old(Contents()), name)
    {
      var parsed := ParseName(w, name);
      if parsed.Err? {
        return Err(NotFound);
      }
      var peer := RemovePeer(parsed.value);
      if peer.None? {
        return Err(NotFound);
      }
      return Ok(InfoOf(peer.value));
    }

    /** Every device is visited, whatever matches. */
    method Authenticate(w: World, token: string) returns (r: Result<string, ApiError>)
      ensures r == Hub.Authenticate(w, Contents(), token)
    {
      var offered := w.hash(token);
      var found: Option<string> := None;
      for k := 0 to |peers|
        invariant found == LastMatch(peers[..k], offered)
      {
        assert peers[..k + 1][..k] == peers[..k];
        if peers[k].tokenHash == offered {
          found := Some(peers[k].name);
        }
      }
      assert peers[..|peers|] == peers;
      return match found case None => Err(Unauthorized) case Some(name) => Ok(name);
    }
  }

  method IsTaken(peers: seq<Peer>, name: string) returns (taken: bool)
    ensures taken <==> PeerAt(peers, name).Some?
    ensures taken <==> exists k :: 0 <= k < |peers| && peers[k].name == name
  {
    for k := 0 to |peers|
      invariant forall n :: 0 <= n < k ==> peers[n].name != name
    {
      if peers[k].name == name {
        return true;
      }
    }
    return false;
  }

  /** Redraws until a code is new; `draws` is what the kernel would give. */
  method ChooseUnusedLoop(s: State, draws: seq<Option<string>>) returns (r: Result<string, DrawError>)
    ensures r == ChooseUnused(s, draws, 0)
  {
    for k := 0 to |draws|
      invariant ChooseUnused(s, draws[k..], k) == ChooseUnused(s, draws, 0)
    {
      assert draws[k..][1..] == draws[k + 1..];
      if draws[k].None? {
        return Err(NoRandomness);
      }
      if CodeAt(s.codes, draws[k].value).None? {
        return Ok(draws[k].value);
      }
    }
    return Err(NoFreeCode(|draws|));
  }

  method ParseCodeLoop(input: string) returns (r: Result<string, CodeError>)
    ensures r == ParseCode(input)
  {
    hide IsCodeChar, IsSeparator;
    var chars: string := [];
    for k := 0 to |input|
      invariant |chars| <= CODE_LEN
      invariant ParseFrom(input[k..], chars) == ParseCode(input)
    {
      assert input[k..][1..] == input[k + 1..];
      if IsSeparator(input[k]) {
        continue;
      }
      var upper := AsciiUpper(input[k]);
      if !IsCodeChar(upper) {
        return Err(BadChar(input[k]));
      }
      if |chars| == CODE_LEN {
        return Err(WrongLength(CODE_LEN + 1));
      }
      chars := chars + [upper];
    }
    if |chars| != CODE_LEN {
      return Err(WrongLength(|chars|));
    }
    return Ok(Grouped(chars));
  }

  method FromIndicesLoop(indices: seq<nat>) returns (r: Option<string>)
    ensures r == FromIndices(indices)
  {
    if |indices| != CODE_LEN {
      return None;
    }
    var chars: string := [];
    for k := 0 to |indices|
      invariant |chars| == k
      invariant forall n :: 0 <= n < k ==> indices[n] < |ALPHABET| && chars[n] == ALPHABET[indices[n]]
    {
      if indices[k] >= |ALPHABET| {
        return None;
      }
      chars := chars + [ALPHABET[indices[k]]];
    }
    assert chars == seq(CODE_LEN, k requires 0 <= k < CODE_LEN => ALPHABET[indices[k]]);
    return Some(Grouped(chars));
  }
}
