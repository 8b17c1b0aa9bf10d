/** Loading a state file as it runs: the two lists filled item by item, the
    first bad item ending the read, held to what module `StateFile` computes. */
module StateFileMachine {
  import opened Wrappers
  import opened Subnet
  import opened Codes
  import opened Credentials
  import opened Hub
  import opened Json
  import opened StateFile

  method ReadPeers(w: World, items: seq<Value>) returns (r: Result<seq<Peer>, StateError>)
    ensures r == PeersOf(w, items, 0)
  {
    hide PeerOf, Path, At;
    var peers: seq<Peer> := [];
    ghost var goal := PeersOf(w, items, 0);
    assert goal.Ok? ==> peers + goal.value == goal.value;
    for k := 0 to |items|
      invariant match PeersOf(w, items, k)
                case Ok(rest) => goal == Ok(peers + rest)
                case Err(e) => goal == Err(e)
    {
      var peer := Within(At("peers", k), PeerOf(w, items[k]));
      if peer.Err? {
        return Err(peer.error);
      }
      ghost var rest := PeersOf(w, items, k + 1);
      assert rest.Ok? ==> peers + ([peer.value] + rest.value) == (peers + [peer.value]) + rest.value;
      peers := peers + [peer.value];
    }
    assert peers + [] == peers;
    return Ok(peers);
  }

  method ReadCodes(items: seq<Value>) returns (r: Result<seq<IssuedCode>, StateError>)
    ensures r == CodesOf(items, 0)
  {
    hide CodeOf, Path, At;
    var codes: seq<IssuedCode> := [];
    ghost var goal := CodesOf(items, 0);
    assert goal.Ok? ==> codes + goal.value == goal.value;
    for k := 0 to |items|
      invariant match CodesOf(items, k)
                case Ok(rest) => goal == Ok(codes + rest)
                case Err(e) => goal == Err(e)
    {
      var code := Within(At("codes", k), CodeOf(items[k]));
      if code.Err? {
        return Err(code.error);
      }
      ghost var rest := CodesOf(items, k + 1);
      assert rest.Ok? ==> codes + ([code.value] + rest.value) == (codes + [code.value]) + rest.value;
      codes := codes + [code.value];
    }
    assert codes + [] == codes;
    return Ok(codes);
  }

  method ReadState(w: World, v: Value) returns (r: Result<State, StateError>)
    ensures r == FromJson(w, v)
  {
    hide Get, Required, SubnetOf, ServerOf, PeersOf, CodesOf, TlsOf, LegacyTlsOf, CloudflareOf, PortField, StringField,
      ArrayField, IntField, ServerAddress;
    var o :- ObjectOf(v);
    var version :- IntField(o, "version");
    if version != SCHEMA_VERSION && version != LEGACY_VERSION {
      return Err(UnsupportedVersion(version));
    }
    var subnet :- SubnetOf(o);
    var found :- Required(o, "server");
    var server :- ServerOf(found);
    if server.address != ServerAddress(subnet) {
      return Err(BadValue("server.address"));
    }
    var peerItems :- ArrayField(o, "peers");
    var peers :- ReadPeers(w, peerItems);
    var codeItems :- ArrayField(o, "codes");
    var codes :- ReadCodes(codeItems);
    var domain :- StringField(o, "domain");
    var listenPort :- PortField(o, "listen_port");
    var apiPort :- PortField(o, "api_port");
    var tls :- if version == LEGACY_VERSION then LegacyTlsOf(o) else TlsOf(o);
    var cloudflare :- if version == LEGACY_VERSION then Ok(None) else CloudflareOf(o);
    return Ok(State(domain, subnet, listenPort, apiPort, tls, cloudflare, server, peers, codes));
  }
}
