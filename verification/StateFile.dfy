/** The hub's state file: the JSON written for a state, what is made of a file
    that may say anything, and that nothing is lost between them. */
module StateFile {
  import opened Wrappers
  import opened Integers
  import opened Subnet
  import opened Codes
  import opened Credentials
  import opened TlsState
  import opened Hub
  import opened Json


  const SCHEMA_VERSION: I64 := 2
  const LEGACY_VERSION: I64 := 1

  // --------------------------------------------------------------- writing

  function OptStr(s: Option<string>): Value {
    match s case None => Null case Some(text) => Str(text)
  }

  function OptTime(at: Option<I64>): Value {
    match at case None => Null case Some(n) => Int(n)
  }

  function ChallengeText(c: Challenge): string {
    match c case Http01 => "http-01" case Dns01 => "dns-01"
  }

  function AcmeFields(acme: Acme): seq<Field> {
    [Field("directory", Str(acme.directory)), Field("contact", OptStr(acme.contact)),
     Field("account_key_path", Str(acme.accountKeyPath)), Field("account_url", Str(acme.accountUrl)),
     Field("challenge", Str(ChallengeText(acme.challenge))), Field("issued_at", Int(acme.issuedAt)),
     Field("renew_after", Int(acme.renewAfter))]
  }

  function TlsFields(tls: Tls): seq<Field> {
    var source := if tls.source.Manual? then "manual" else "acme";
    var acme := if tls.source.Manual? then Null else Obj(AcmeFields(tls.source.acme));
    [Field("source", Str(source)), Field("cert_path", Str(tls.certPath)), Field("key_path", Str(tls.keyPath)),
     Field("not_after", OptTime(tls.notAfter)), Field("acme", acme)]
  }

  function CloudflareFields(cf: Cloudflare): seq<Field> {
    [Field("zone_id", Str(cf.zoneId)), Field("record_id", OptStr(cf.recordId)),
     Field("token_path", OptStr(cf.tokenPath))]
  }

  function CloudflareJson(cf: Option<Cloudflare>): Value {
    match cf case None => Null case Some(c) => Obj(CloudflareFields(c))
  }

  function PeerFields(peer: Peer): seq<Field> {
    [Field("name", Str(peer.name)), Field("public_key", Str(peer.publicKey)),
     Field("address", Str(ShowIpv4(peer.address))), Field("token_hash", Str(peer.tokenHash)),
     Field("created_at", Int(peer.createdAt)), Field("last_seen", OptTime(peer.lastSeen))]
  }

  function CodeFields(code: IssuedCode): seq<Field> {
    [Field("code", Str(code.code)), Field("issued_at", Int(code.issuedAt)), Field("expires_at", Int(code.expiresAt)),
     Field("used_at", OptTime(code.usedAt))]
  }

  function ServerFields(server: ServerKeys): seq<Field> {
    [Field("private_key", Str(server.privateKey)), Field("public_key", Str(server.publicKey)),
     Field("address", Str(ShowIpv4(server.address)))]
  }

  function PeersJson(peers: seq<Peer>): Value {
    Arr(seq(|peers|, k requires 0 <= k < |peers| => Obj(PeerFields(peers[k]))))
  }

  function CodesJson(codes: seq<IssuedCode>): Value {
    Arr(seq(|codes|, k requires 0 <= k < |codes| => Obj(CodeFields(codes[k]))))
  }

  function StateFields(s: State): seq<Field> {
    [Field("version", Int(SCHEMA_VERSION)), Field("domain", Str(s.domain)), Field("subnet", Str(ShowSubnet(s.subnet))),
     Field("listen_port", Int(s.listenPort)), Field("api_port", Int(s.apiPort)), Field("tls", Obj(TlsFields(s.tls))),
     Field("cloudflare", CloudflareJson(s.cloudflare)), Field("server", Obj(ServerFields(s.server))),
     Field("peers", PeersJson(s.peers)), Field("codes", CodesJson(s.codes))]
  }

  /** A version 1 file: two flat paths, no Cloudflare. */
  function LegacyFields(s: State, certPath: string, keyPath: string): seq<Field> {
    [Field("version", Int(LEGACY_VERSION)), Field("domain", Str(s.domain)), Field("subnet", Str(ShowSubnet(s.subnet))),
     Field("listen_port", Int(s.listenPort)), Field("api_port", Int(s.apiPort)), Field("tls_cert_path", Str(certPath)),
     Field("tls_key_path", Str(keyPath)), Field("server", Obj(ServerFields(s.server))),
     Field("peers", PeersJson(s.peers)), Field("codes", CodesJson(s.codes))]
  }

  /** `to_json`. */
  function ToJson(s: State): Value {
    Obj(StateFields(s))
  }

  /** `to_json_string`. */
  function Save(s: State): string {
    Pretty(ToJson(s))
  }

  // --------------------------------------------------------------- reading

  datatype ShapeKind = Missing | WrongType

  datatype StateError =
    | NotJson(error: Json.Error)
    | Shape(field: string, kind: ShapeKind)
    | UnsupportedVersion(version: I64)
    | BadValue(field: string)

  function Path(prefix: string, field: string): string {
    if field == [] then prefix else prefix + "." + field
  }

  /** `within`: an error deeper in the file, named from further up. */
  function Within<T>(prefix: string, r: Result<T, StateError>): Result<T, StateError> {
    match r
    case Err(Shape(field, kind)) => Err(Shape(Path(prefix, field), kind))
    case Err(BadValue(field)) => Err(BadValue(Path(prefix, field)))
    case other => other
  }

  function Get(fields: seq<Field>, name: string): Option<Value> {
    if fields == [] then None
    else if fields[0].key == name then Some(fields[0].value)
    else Get(fields[1..], name)
  }

  function ObjectOf(v: Value): Result<seq<Field>, StateError> {
    if v.Obj? then Ok(v.fields) else Err(Shape("", WrongType))
  }

  function Required(o: seq<Field>, name: string): Result<Value, StateError> {
    match Get(o, name) case None => Err(Shape(name, Missing)) case Some(v) => Ok(v)
  }

  function StringField(o: seq<Field>, name: string): Result<string, StateError> {
    var v :- Required(o, name);
    if v.Str? then Ok(v.s) else Err(Shape(name, WrongType))
  }

  function IntField(o: seq<Field>, name: string): Result<I64, StateError> {
    var v :- Required(o, name);
    if v.Int? then Ok(v.n) else Err(Shape(name, WrongType))
  }

  function ArrayField(o: seq<Field>, name: string): Result<seq<Value>, StateError> {
    var v :- Required(o, name);
    if v.Arr? then Ok(v.items) else Err(Shape(name, WrongType))
  }

  function ObjectField(o: seq<Field>, name: string): Result<seq<Field>, StateError> {
    var v :- Required(o, name);
    if v.Obj? then Ok(v.fields) else Err(Shape(name, WrongType))
  }

  function OptIntField(o: seq<Field>, name: string): Result<Option<I64>, StateError> {
    var v :- Required(o, name);
    if v.Null? then Ok(None) else if v.Int? then Ok(Some(v.n)) else Err(Shape(name, WrongType))
  }

  function OptStringField(o: seq<Field>, name: string): Result<Option<string>, StateError> {
    var v :- Required(o, name);
    if v.Null? then Ok(None) else if v.Str? then Ok(Some(v.s)) else Err(Shape(name, WrongType))
  }

  function OptObjectField(o: seq<Field>, name: string): Result<Option<seq<Field>>, StateError> {
    var v :- Required(o, name);
    if v.Null? then Ok(None) else if v.Obj? then Ok(Some(v.fields)) else Err(Shape(name, WrongType))
  }

  function PortField(o: seq<Field>, name: string): Result<U16, StateError> {
    var n :- IntField(o, name);
    if 0 <= n < 0x1_0000 then Ok(n) else Err(BadValue(name))
  }

  function AddressField(o: seq<Field>, name: string): Result<Ipv4, StateError> {
    var text :- StringField(o, name);
    match ParseIpv4(text) case None => Err(BadValue(name)) case Some(ip) => Ok(ip)
  }

  function ParseChallenge(text: string): Option<Challenge> {
    if text == "http-01" then Some(Http01) else if text == "dns-01" then Some(Dns01) else None
  }

  function AcmeOf(o: seq<Field>): Result<Acme, StateError> {
    var text :- Within("tls.acme", StringField(o, "challenge"));
    var directory :- Within("tls.acme", StringField(o, "directory"));
    var contact :- Within("tls.acme", OptStringField(o, "contact"));
    var keyPath :- Within("tls.acme", StringField(o, "account_key_path"));
    var url :- Within("tls.acme", StringField(o, "account_url"));
    if ParseChallenge(text).None? then Err(BadValue("tls.acme.challenge"))
    else
      var issuedAt :- Within("tls.acme", IntField(o, "issued_at"));
      var renewAfter :- Within("tls.acme", IntField(o, "renew_after"));
      Ok(Acme(directory, contact, keyPath, url, ParseChallenge(text).value, issuedAt, renewAfter))
  }

  /** The two halves must agree: ACME details exactly when the source says so. */
  function SourceOf(source: string, acme: Option<seq<Field>>): Result<TlsSource, StateError> {
    if source == "manual" then
      if acme.None? then Ok(Manual) else Err(BadValue("tls.acme"))
    else if source == "acme" then
      if acme.None? then Err(BadValue("tls.acme"))
      else
        var details :- AcmeOf(acme.value);
        Ok(Issued(details))
    else Err(BadValue("tls.source"))
  }

  function TlsOf(o: seq<Field>): Result<Tls, StateError> {
    var tls :- ObjectField(o, "tls");
    var text :- Within("tls", StringField(tls, "source"));
    var acme :- Within("tls", OptObjectField(tls, "acme"));
    var source :- SourceOf(text, acme);
    var certPath :- Within("tls", StringField(tls, "cert_path"));
    var keyPath :- Within("tls", StringField(tls, "key_path"));
    var notAfter :- Within("tls", OptIntField(tls, "not_after"));
    Ok(Tls(certPath, keyPath, notAfter, source))
  }

  function LegacyTlsOf(o: seq<Field>): Result<Tls, StateError> {
    var certPath :- StringField(o, "tls_cert_path");
    var keyPath :- StringField(o, "tls_key_path");
    Ok(Tls(certPath, keyPath, None, Manual))
  }

  function CloudflareOf(o: seq<Field>): Result<Option<Cloudflare>, StateError> {
    var found :- OptObjectField(o, "cloudflare");
    match found
    case None => Ok(None)
    case Some(cf) =>
      var zoneId :- Within("cloudflare", StringField(cf, "zone_id"));
      var recordId :- Within("cloudflare", OptStringField(cf, "record_id"));
      var tokenPath :- Within("cloudflare", OptStringField(cf, "token_path"));
      Ok(Some(Cloudflare(zoneId, recordId, tokenPath)))
  }

  function PeerOf(w: World, v: Value): Result<Peer, StateError> {
    var o :- ObjectOf(v);
    var name :- StringField(o, "name");
    var hash :- StringField(o, "token_hash");
    if ParseName(w, name).Err? then Err(BadValue("name"))
    else
      var publicKey :- StringField(o, "public_key");
      var address :- AddressField(o, "address");
      if CheckHex(hash).Err? then Err(BadValue("token_hash"))
      else
        var createdAt :- IntField(o, "created_at");
        var lastSeen :- OptIntField(o, "last_seen");
        Ok(Peer(ParseName(w, name).value, publicKey, address, hash, createdAt, lastSeen))
  }

  function CodeOf(v: Value): Result<IssuedCode, StateError> {
    var o :- ObjectOf(v);
    var text :- StringField(o, "code");
    if ParseCode(text).Err? then Err(BadValue("code"))
    else
      var issuedAt :- IntField(o, "issued_at");
      var expiresAt :- IntField(o, "expires_at");
      var usedAt :- OptIntField(o, "used_at");
      Ok(IssuedCode(ParseCode(text).value, issuedAt, expiresAt, usedAt))
  }

  function At(list: string, k: nat): string {
    list + "[" + Digits(k) + "]"
  }

  /** The devices from item `k` on; the first bad one decides. */
  function PeersOf(w: World, items: seq<Value>, k: nat): Result<seq<Peer>, StateError>
    decreases |items| - k
  {
    if k >= |items| then Ok([])
    else
      var peer :- Within(At("peers", k), PeerOf(w, items[k]));
      var rest :- PeersOf(w, items, k + 1);
      Ok([peer] + rest)
  }

  function CodesOf(items: seq<Value>, k: nat): Result<seq<IssuedCode>, StateError>
    decreases |items| - k
  {
    if k >= |items| then Ok([])
    else
      var code :- Within(At("codes", k), CodeOf(items[k]));
      var rest :- CodesOf(items, k + 1);
      Ok([code] + rest)
  }

  function ServerOf(v: Value): Result<ServerKeys, StateError> {
    var o :- Within("server", ObjectOf(v));
    var privateKey :- Within("server", StringField(o, "private_key"));
    var publicKey :- Within("server", StringField(o, "public_key"));
    var address :- Within("server", AddressField(o, "address"));
    Ok(ServerKeys(privateKey, publicKey, address))
  }

  function SubnetOf(o: seq<Field>): Result<Subnet, StateError> {
    var text :- StringField(o, "subnet");
    match ParseSubnet(text) case Err(_) => Err(BadValue("subnet")) case Ok(net) => Ok(net)
  }

  /** `from_json`, in the order the source looks at things. */
  function FromJson(w: World, v: Value): Result<State, StateError> {
    var o :- ObjectOf(v);
    var version :- IntField(o, "version");
    if version != SCHEMA_VERSION && version != LEGACY_VERSION then Err(UnsupportedVersion(version))
    else
      var subnet :- SubnetOf(o);
      var found :- Required(o, "server");
      var server :- ServerOf(found);
      if server.address != ServerAddress(subnet) then Err(BadValue("server.address"))
      else
        var peerItems :- ArrayField(o, "peers");
        var peers :- PeersOf(w, peerItems, 0);
        var codeItems :- ArrayField(o, "codes");
        var codes :- CodesOf(codeItems, 0);
        var domain :- StringField(o, "domain");
        var listenPort :- PortField(o, "listen_port");
        var apiPort :- PortField(o, "api_port");
        var tls :- if version == LEGACY_VERSION then LegacyTlsOf(o) else TlsOf(o);
        var cloudflare :- if version == LEGACY_VERSION then Ok(None) else CloudflareOf(o);
        Ok(State(domain, subnet, listenPort, apiPort, tls, cloudflare, server, peers, codes))
  }

  /** `ServerState::parse`. */
  function Load(w: World, text: string): Result<State, StateError> {
    match Read(text)
    case Err(e) => Err(NotJson(e))
    case Ok(v) => FromJson(w, v)
  }
}
