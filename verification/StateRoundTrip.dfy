/** The state file loses nothing: what is saved is what is loaded, and what is
    loaded survives being saved. */
module StateRoundTrip {
  import opened Wrappers
  import opened Integers
  import opened Subnet
  import opened Codes
  import opened Credentials
  import opened TlsState
  import opened Hub
  import opened Json
  import opened JsonRoundTrip
  import opened StateFile
  import opened FieldNames

  // ------------------------------------------------------------ field names

  predicate Keyed(fields: seq<Field>, keys: seq<string>) {
    |fields| == |keys| && forall k :: 0 <= k < |fields| ==> fields[k].key == keys[k]
  }

  /** Under names that all differ, each field is found by its own. */
  lemma {:induction false} EachIsFound(fields: seq<Field>, keys: seq<string>)
    requires Unlike(keys) && Keyed(fields, keys)
    ensures DistinctKeys(fields)
    ensures forall k :: 0 <= k < |keys| ==> Get(fields, keys[k]) == Some(fields[k].value)
  {
    if fields != [] {
      EachIsFound(fields[1..], keys[1..]);
      DiffersFromEach(keys[0], keys[1..]);
      forall i, j | 0 <= i < j < |fields|
        ensures fields[i].key != fields[j].key
      {
        if i == 0 {
          assert keys[j] == keys[1..][j - 1];
        } else {
          assert fields[i] == fields[1..][i - 1] && fields[j] == fields[1..][j - 1];
        }
      }
      forall k | 0 <= k < |keys|
        ensures Get(fields, keys[k]) == Some(fields[k].value)
      {
        if k > 0 {
          assert keys[k] == keys[1..][k - 1] && fields[k] == fields[1..][k - 1];
        }
      }
    }
  }

  // ------------------------------------------------------------- the parts

  lemma AcmeFound(acme: Acme, o: seq<Field>)
    requires o == AcmeFields(acme)
    ensures DistinctKeys(o)
    ensures Get(o, "directory") == Some(Str(acme.directory))
    ensures Get(o, "contact") == Some(OptStr(acme.contact))
    ensures Get(o, "account_key_path") == Some(Str(acme.accountKeyPath))
    ensures Get(o, "account_url") == Some(Str(acme.accountUrl))
    ensures Get(o, "challenge") == Some(Str(ChallengeText(acme.challenge)))
    ensures Get(o, "issued_at") == Some(Int(acme.issuedAt))
    ensures Get(o, "renew_after") == Some(Int(acme.renewAfter))
  {
    AcmeKeysDiffer();
    hide Get, DistinctKeys, OptStr, ChallengeText, Unlike;
    var keys := ["directory", "contact", "account_key_path", "account_url", "challenge", "issued_at", "renew_after"];
    EachIsFound(o, keys);
    assert keys[0] == "directory" && keys[1] == "contact" && keys[2] == "account_key_path" && keys[3] == "account_url";
    assert keys[4] == "challenge" && keys[5] == "issued_at" && keys[6] == "renew_after";
  }

  lemma AcmeReads(acme: Acme)
    ensures AcmeOf(AcmeFields(acme)) == Ok(acme)
  {
    AcmeFound(acme, AcmeFields(acme));
    hide Get, AcmeFields, DistinctKeys;
  }

  lemma TlsFound(tls: Tls, o: seq<Field>)
    requires o == TlsFields(tls)
    ensures DistinctKeys(o)
    ensures Get(o, "source") == Some(Str(if tls.source.Manual? then "manual" else "acme"))
    ensures Get(o, "cert_path") == Some(Str(tls.certPath))
    ensures Get(o, "key_path") == Some(Str(tls.keyPath))
    ensures Get(o, "not_after") == Some(OptTime(tls.notAfter))
    ensures Get(o, "acme") == Some(if tls.source.Manual? then Null else Obj(AcmeFields(tls.source.acme)))
  {
    hide Get, DistinctKeys, OptTime, AcmeFields;
    var keys := ["source", "cert_path", "key_path", "not_after", "acme"];
    EachIsFound(o, keys);
    assert keys[0] == "source" && keys[1] == "cert_path";
    assert keys[2] == "key_path" && keys[3] == "not_after" && keys[4] == "acme";
  }

  lemma CloudflareFound(cf: Cloudflare, o: seq<Field>)
    requires o == CloudflareFields(cf)
    ensures DistinctKeys(o)
    ensures Get(o, "zone_id") == Some(Str(cf.zoneId))
    ensures Get(o, "record_id") == Some(OptStr(cf.recordId))
    ensures Get(o, "token_path") == Some(OptStr(cf.tokenPath))
  {
    hide Get, DistinctKeys, OptStr;
    var keys := ["zone_id", "record_id", "token_path"];
    EachIsFound(o, keys);
    assert keys[0] == "zone_id" && keys[1] == "record_id" && keys[2] == "token_path";
  }

  lemma PeerFound(peer: Peer, o: seq<Field>)
    requires o == PeerFields(peer)
    ensures DistinctKeys(o)
    ensures Get(o, "name") == Some(Str(peer.name))
    ensures Get(o, "public_key") == Some(Str(peer.publicKey))
    ensures Get(o, "address") == Some(Str(ShowIpv4(peer.address)))
    ensures Get(o, "token_hash") == Some(Str(peer.tokenHash))
    ensures Get(o, "created_at") == Some(Int(peer.createdAt))
    ensures Get(o, "last_seen") == Some(OptTime(peer.lastSeen))
  {
    hide Get, DistinctKeys, OptTime, ShowIpv4;
    var keys := ["name", "public_key", "address", "token_hash", "created_at", "last_seen"];
    EachIsFound(o, keys);
    assert keys[0] == "name" && keys[1] == "public_key" && keys[2] == "address";
    assert keys[3] == "token_hash" && keys[4] == "created_at" && keys[5] == "last_seen";
  }

  lemma CodeFound(code: IssuedCode, o: seq<Field>)
    requires o == CodeFields(code)
    ensures DistinctKeys(o)
    ensures Get(o, "code") == Some(Str(code.code))
    ensures Get(o, "issued_at") == Some(Int(code.issuedAt))
    ensures Get(o, "expires_at") == Some(Int(code.expiresAt))
    ensures Get(o, "used_at") == Some(OptTime(code.usedAt))
  {
    hide Get, DistinctKeys, OptTime;
    var keys := ["code", "issued_at", "expires_at", "used_at"];
    EachIsFound(o, keys);
    assert keys[0] == "code" && keys[1] == "issued_at" && keys[2] == "expires_at" && keys[3] == "used_at";
  }

  lemma ServerFound(server: ServerKeys, o: seq<Field>)
    requires o == ServerFields(server)
    ensures DistinctKeys(o)
    ensures Get(o, "private_key") == Some(Str(server.privateKey))
    ensures Get(o, "public_key") == Some(Str(server.publicKey))
    ensures Get(o, "address") == Some(Str(ShowIpv4(server.address)))
  {
    hide Get, DistinctKeys, ShowIpv4;
    var keys := ["private_key", "public_key", "address"];
    EachIsFound(o, keys);
    assert keys[0] == "private_key" && keys[1] == "public_key" && keys[2] == "address";
  }

  /** The fields a state file of either version has. */
  ghost predicate CommonFound(s: State, o: seq<Field>) {
    && Get(o, "domain") == Some(Str(s.domain))
    && Get(o, "subnet") == Some(Str(ShowSubnet(s.subnet)))
    && Get(o, "listen_port") == Some(Int(s.listenPort))
    && Get(o, "api_port") == Some(Int(s.apiPort))
    && Get(o, "server") == Some(Obj(ServerFields(s.server)))
    && Get(o, "peers") == Some(PeersJson(s.peers))
    && Get(o, "codes") == Some(CodesJson(s.codes))
  }

  lemma StateKeyed(s: State, o: seq<Field>)
    requires o == StateFields(s)
    ensures Keyed(o, ["version", "domain", "subnet", "listen_port", "api_port", "tls", "cloudflare", "server",
        "peers", "codes"])
  {
    hide ShowSubnet, ServerFields, PeersJson, CodesJson, TlsFields, CloudflareJson;
  }

  lemma StateFound(s: State, o: seq<Field>)
    requires o == StateFields(s)
    ensures DistinctKeys(o) && CommonFound(s, o)
    ensures Get(o, "version") == Some(Int(SCHEMA_VERSION))
    ensures Get(o, "tls") == Some(Obj(TlsFields(s.tls)))
    ensures Get(o, "cloudflare") == Some(CloudflareJson(s.cloudflare))
  {
    hide Get, DistinctKeys, ShowSubnet, ServerFields, PeersJson, CodesJson, TlsFields, CloudflareJson, Unlike, Keyed;
    var keys := ["version", "domain", "subnet", "listen_port", "api_port", "tls", "cloudflare", "server", "peers",
        "codes"];
    StateKeysDiffer();
    StateKeyed(s, o);
    EachIsFound(o, keys);
    assert keys[0] == "version" && keys[1] == "domain" && keys[2] == "subnet" && keys[3] == "listen_port";
    assert keys[4] == "api_port" && keys[5] == "tls" && keys[6] == "cloudflare" && keys[7] == "server";
    assert keys[8] == "peers" && keys[9] == "codes";
  }

  lemma LegacyKeyed(s: State, certPath: string, keyPath: string, o: seq<Field>)
    requires o == LegacyFields(s, certPath, keyPath)
    ensures Keyed(o, ["version", "domain", "subnet", "listen_port", "api_port", "tls_cert_path", "tls_key_path",
                    "server", "peers", "codes"])
  {
    hide ShowSubnet, ServerFields, PeersJson, CodesJson, TlsFields, CloudflareJson;
  }

  lemma LegacyFound(s: State, certPath: string, keyPath: string, o: seq<Field>)
    requires o == LegacyFields(s, certPath, keyPath)
    ensures DistinctKeys(o) && CommonFound(s, o)
    ensures Get(o, "version") == Some(Int(LEGACY_VERSION))
    ensures Get(o, "tls_cert_path") == Some(Str(certPath))
    ensures Get(o, "tls_key_path") == Some(Str(keyPath))
  {
    hide Get, DistinctKeys, ShowSubnet, ServerFields, PeersJson, CodesJson, TlsFields, CloudflareJson, Unlike, Keyed;
    var keys := ["version", "domain", "subnet", "listen_port", "api_port", "tls_cert_path", "tls_key_path", "server",
                    "peers", "codes"];
    LegacyKeysDiffer();
    LegacyKeyed(s, certPath, keyPath, o);
    EachIsFound(o, keys);
    assert keys[0] == "version" && keys[1] == "domain" && keys[2] == "subnet" && keys[3] == "listen_port" && keys[4]
        == "api_port";
    assert keys[5] == "tls_cert_path" && keys[6] == "tls_key_path" && keys[7] == "server" && keys[8] == "peers"
        && keys[9] == "codes";
  }

  // ------------------------------------------------------- reading the parts

  lemma TlsReads(tls: Tls, o: seq<Field>)
    requires Get(o, "tls") == Some(Obj(TlsFields(tls)))
    ensures TlsOf(o) == Ok(tls)
  {
    TlsFound(tls, TlsFields(tls));
    if tls.source.Issued? {
      AcmeReads(tls.source.acme);
    }
    hide Get, TlsFields, AcmeFields, AcmeOf, DistinctKeys;
  }

  lemma CloudflareReads(cf: Option<Cloudflare>, o: seq<Field>)
    requires Get(o, "cloudflare") == Some(CloudflareJson(cf))
    ensures CloudflareOf(o) == Ok(cf)
  {
    if cf.Some? {
      CloudflareFound(cf.value, CloudflareFields(cf.value));
    }
    hide Get, CloudflareFields, DistinctKeys;
  }

  lemma GivesString(o: seq<Field>, name: string, text: string)
    requires Get(o, name) == Some(Str(text))
    ensures StringField(o, name) == Ok(text)
  {
  }

  lemma GivesInt(o: seq<Field>, name: string, n: I64)
    requires Get(o, name) == Some(Int(n))
    ensures IntField(o, name) == Ok(n)
  {
  }

  lemma GivesTime(o: seq<Field>, name: string, at: Option<I64>)
    requires Get(o, name) == Some(OptTime(at))
    ensures OptIntField(o, name) == Ok(at)
  {
  }

  lemma AddressReads(o: seq<Field>, ip: Ipv4)
    ensures Get(o, "address") == Some(Str(ShowIpv4(ip))) ==> AddressField(o, "address") == Ok(ip)
  {
    hide Get, ParseIpv4, ShowIpv4;
    Ipv4Exactly(ShowIpv4(ip), ip);
  }

  lemma PeerFieldsRead(peer: Peer, o: seq<Field>)
    requires o == PeerFields(peer)
    ensures StringField(o, "name") == Ok(peer.name)
    ensures StringField(o, "public_key") == Ok(peer.publicKey)
    ensures AddressField(o, "address") == Ok(peer.address)
    ensures StringField(o, "token_hash") == Ok(peer.tokenHash)
    ensures IntField(o, "created_at") == Ok(peer.createdAt)
    ensures OptIntField(o, "last_seen") == Ok(peer.lastSeen)
  {
    hide *;
    PeerFound(peer, o);
    AddressReads(o, peer.address);
    GivesString(o, "name", peer.name);
    GivesString(o, "public_key", peer.publicKey);
    GivesString(o, "token_hash", peer.tokenHash);
    GivesInt(o, "created_at", peer.createdAt);
    GivesTime(o, "last_seen", peer.lastSeen);
  }

  lemma PeerReads(w: World, peer: Peer)
    requires Sound(w) && IsName(w, peer.name) && IsHex(peer.tokenHash)
    ensures PeerOf(w, Obj(PeerFields(peer))) == Ok(peer)
  {
    PeerFieldsRead(peer, PeerFields(peer));
    NamesExactly(w, peer.name);
    hide PeerFields, ParseName, AddressField, IsName, IsHex, Sound, CheckHex, StringField, IntField, OptIntField;
  }

  lemma CodeFieldsRead(code: IssuedCode, o: seq<Field>)
    requires o == CodeFields(code)
    ensures StringField(o, "code") == Ok(code.code)
    ensures IntField(o, "issued_at") == Ok(code.issuedAt)
    ensures IntField(o, "expires_at") == Ok(code.expiresAt)
    ensures OptIntField(o, "used_at") == Ok(code.usedAt)
  {
    hide *;
    CodeFound(code, o);
    GivesString(o, "code", code.code);
    GivesInt(o, "issued_at", code.issuedAt);
    GivesInt(o, "expires_at", code.expiresAt);
    GivesTime(o, "used_at", code.usedAt);
  }

  lemma CodeReads(code: IssuedCode)
    requires IsCode(code.code)
    ensures CodeOf(Obj(CodeFields(code))) == Ok(code)
  {
    CodeFieldsRead(code, CodeFields(code));
    CanonicalExactly(code.code);
    hide CodeFields, ParseCode, IsCode, StringField, IntField, OptIntField;
  }

  lemma ServerReads(server: ServerKeys)
    ensures ServerOf(Obj(ServerFields(server))) == Ok(server)
  {
    hide Get, ServerFields, DistinctKeys, AddressField, Path, ShowIpv4;
    ServerFound(server, ServerFields(server));
    AddressReads(ServerFields(server), server.address);
  }

  lemma {:induction false} PeersRead(w: World, peers: seq<Peer>, items: seq<Value>, k: nat)
    requires Sound(w) && k <= |peers| == |items|
    requires forall i :: 0 <= i < |peers| ==> IsName(w, peers[i].name) && IsHex(peers[i].tokenHash)
    requires forall i :: 0 <= i < |peers| ==> items[i] == Obj(PeerFields(peers[i]))
    ensures PeersOf(w, items, k) == Ok(peers[k..])
    decreases |peers| - k
  {
    hide PeerOf, PeerFields, IsName, IsHex, Sound;
    if k < |peers| {
      PeerReads(w, peers[k]);
      PeersRead(w, peers, items, k + 1);
      assert [peers[k]] + peers[k + 1..] == peers[k..];
    }
  }

  lemma {:induction false} CodesRead(codes: seq<IssuedCode>, items: seq<Value>, k: nat)
    requires k <= |codes| == |items|
    requires forall i :: 0 <= i < |codes| ==> IsCode(codes[i].code)
    requires forall i :: 0 <= i < |codes| ==> items[i] == Obj(CodeFields(codes[i]))
    ensures CodesOf(items, k) == Ok(codes[k..])
    decreases |codes| - k
  {
    hide CodeOf, CodeFields, IsCode;
    if k < |codes| {
      CodeReads(codes[k]);
      CodesRead(codes, items, k + 1);
      assert [codes[k]] + codes[k + 1..] == codes[k..];
    }
  }

  /** What both versions share reads back. */
  lemma CommonReads(w: World, s: State, o: seq<Field>)
    requires Sound(w) && WellFormed(w, s) && CommonFound(s, o)
    ensures SubnetOf(o) == Ok(s.subnet)
    ensures Required(o, "server").Ok? && ServerOf(Required(o, "server").value) == Ok(s.server)
    ensures ArrayField(o, "peers").Ok? && PeersOf(w, ArrayField(o, "peers").value, 0) == Ok(s.peers)
    ensures ArrayField(o, "codes").Ok? && CodesOf(ArrayField(o, "codes").value, 0) == Ok(s.codes)
    ensures StringField(o, "domain") == Ok(s.domain)
    ensures PortField(o, "listen_port") == Ok(s.listenPort) && PortField(o, "api_port") == Ok(s.apiPort)
  {
    hide Get, ShowSubnet, ParseSubnet, ServerFields, PeerFields, CodeFields, ServerOf, PeersOf, CodesOf, IsName,
        IsHex, IsCode, Sound;
    SubnetExactly(ShowSubnet(s.subnet), s.subnet);
    ServerReads(s.server);
    PeersRead(w, s.peers, PeersJson(s.peers).items, 0);
    CodesRead(s.codes, CodesJson(s.codes).items, 0);
    assert s.peers[0..] == s.peers && s.codes[0..] == s.codes;
  }

  /** The parts, put together. */
  lemma WholeReads(w: World, s: State, o: seq<Field>, version: I64, tls: Tls, cloudflare: Option<Cloudflare>)
    requires IntField(o, "version") == Ok(version)
    requires if version == LEGACY_VERSION then LegacyTlsOf(o) == Ok(tls) && cloudflare == None
             else version == SCHEMA_VERSION && TlsOf(o) == Ok(tls) && CloudflareOf(o) == Ok(cloudflare)
    requires s.server.address == ServerAddress(s.subnet)
    requires SubnetOf(o) == Ok(s.subnet)
    requires Required(o, "server").Ok? && ServerOf(Required(o, "server").value) == Ok(s.server)
    requires ArrayField(o, "peers").Ok? && PeersOf(w, ArrayField(o, "peers").value, 0) == Ok(s.peers)
    requires ArrayField(o, "codes").Ok? && CodesOf(ArrayField(o, "codes").value, 0) == Ok(s.codes)
    requires StringField(o, "domain") == Ok(s.domain)
    requires PortField(o, "listen_port") == Ok(s.listenPort) && PortField(o, "api_port") == Ok(s.apiPort)
    ensures FromJson(w, Obj(o)) == Ok(s.(tls := tls, cloudflare := cloudflare))
  {
    hide Get, SubnetOf, ServerOf, PeersOf, CodesOf, TlsOf, LegacyTlsOf, CloudflareOf, PortField, StringField,
      ArrayField, ServerAddress, Required, IntField;
  }

  // ---------------------------------------------------------- main results

  lemma JsonReadsBack(w: World, s: State)
    requires Sound(w) && WellFormed(w, s)
    ensures FromJson(w, ToJson(s)) == Ok(s)
  {
    var o := StateFields(s);
    StateFound(s, o);
    CommonReads(w, s, o);
    TlsReads(s.tls, o);
    CloudflareReads(s.cloudflare, o);
    WholeReads(w, s, o, SCHEMA_VERSION, s.tls, s.cloudflare);
  }

  lemma LegacyReads(w: World, s: State, certPath: string, keyPath: string)
    requires Sound(w) && WellFormed(w, s)
    ensures FromJson(w, Obj(LegacyFields(s, certPath, keyPath)))
         == Ok(s.(tls := Tls(certPath, keyPath, None, Manual), cloudflare := None))
  {
    var o := LegacyFields(s, certPath, keyPath);
    LegacyFound(s, certPath, keyPath, o);
    CommonReads(w, s, o);
    WholeReads(w, s, o, LEGACY_VERSION, Tls(certPath, keyPath, None, Manual), None);
  }

  // ------------------------------------------------------------ well-formed

  lemma PeerParts(w: World, v: Value)
    requires PeerOf(w, v).Ok?
    ensures v.Obj? && StringField(v.fields, "name").Ok?
    ensures ParseName(w, StringField(v.fields, "name").value) == Ok(PeerOf(w, v).value.name)
    ensures CheckHex(PeerOf(w, v).value.tokenHash).Ok?
  {
    hide Get, ParseName, CheckHex, StringField, AddressField, IntField, OptIntField, IsHex, Required;
  }

  lemma PeerOfIsGood(w: World, v: Value)
    requires Sound(w) && PeerOf(w, v).Ok?
    ensures IsName(w, PeerOf(w, v).value.name) && IsHex(PeerOf(w, v).value.tokenHash)
  {
    hide *;
    PeerParts(w, v);
    NamesExactly(w, StringField(v.fields, "name").value);
  }

  lemma CodeOfIsGood(v: Value)
    requires CodeOf(v).Ok?
    ensures IsCode(CodeOf(v).value.code)
  {
    CodeReadExactly(StringField(v.fields, "code").value);
    hide Get, ParseCode, IsCode, StringField, IntField, OptIntField;
  }

  lemma {:induction false} PeersOfAreGood(w: World, items: seq<Value>, k: nat)
    requires Sound(w) && PeersOf(w, items, k).Ok?
    ensures forall p :: p in PeersOf(w, items, k).value ==> IsName(w, p.name) && IsHex(p.tokenHash)
    decreases |items| - k
  {
    hide PeerOf, IsName, IsHex, Sound, Path;
    if k < |items| {
      PeerOfIsGood(w, items[k]);
      PeersOfAreGood(w, items, k + 1);
    }
  }

  lemma {:induction false} CodesOfAreGood(items: seq<Value>, k: nat)
    requires CodesOf(items, k).Ok?
    ensures forall c :: c in CodesOf(items, k).value ==> IsCode(c.code)
    decreases |items| - k
  {
    hide CodeOf, IsCode, Path;
    if k < |items| {
      CodeOfIsGood(items[k]);
      CodesOfAreGood(items, k + 1);
    }
  }

  lemma SubnetOfIsGood(o: seq<Field>)
    requires SubnetOf(o).Ok?
    ensures IsNetwork(SubnetOf(o).value)
  {
    hide Get, ParseSubnet;
    SubnetExactly(StringField(o, "subnet").value, SubnetOf(o).value);
  }

  /** Where a loaded state's parts come from. */
  lemma LoadedParts(w: World, v: Value)
    requires FromJson(w, v).Ok?
    ensures v.Obj?
    ensures var s, o := FromJson(w, v).value, v.fields;
            && SubnetOf(o) == Ok(s.subnet)
            && s.server.address == ServerAddress(s.subnet)
            && ArrayField(o, "peers").Ok? && PeersOf(w, ArrayField(o, "peers").value, 0) == Ok(s.peers)
            && ArrayField(o, "codes").Ok? && CodesOf(ArrayField(o, "codes").value, 0) == Ok(s.codes)
  {
    hide Get, SubnetOf, ServerOf, PeersOf, CodesOf, TlsOf, LegacyTlsOf, CloudflareOf, PortField, StringField,
      ArrayField, ServerAddress, Required, IntField;
  }

  /** Whatever is loaded is well-formed. */
  lemma LoadedIsWellFormed(w: World, v: Value)
    requires Sound(w) && FromJson(w, v).Ok?
    ensures WellFormed(w, FromJson(w, v).value)
  {
    hide Get, FromJson, SubnetOf, PeersOf, CodesOf, ArrayField, ServerAddress, IsName, IsHex, IsCode, Sound;
    LoadedParts(w, v);
    SubnetOfIsGood(v.fields);
    PeersOfAreGood(w, ArrayField(v.fields, "peers").value, 0);
    CodesOfAreGood(ArrayField(v.fields, "codes").value, 0);
  }

  // -------------------------------------------------------------- printable

  /** Printable `d` levels down without passing the reader's depth limit. */
  ghost predicate Fits(v: Value, d: nat) {
    Buildable(v) && d + Nesting(v) <= MAX_DEPTH
  }

  lemma ObjectFits(fields: seq<Field>, d: nat)
    requires DistinctKeys(fields) && d < MAX_DEPTH
    requires forall k :: 0 <= k < |fields| ==> Fits(fields[k].value, d + 1)
    ensures Fits(Obj(fields), d)
  {
    if fields != [] {
      GoodFieldsNest(fields, d);
    }
  }

  lemma ArrayFits(items: seq<Value>, d: nat)
    requires d < MAX_DEPTH
    requires forall k :: 0 <= k < |items| ==> Fits(items[k], d + 1)
    ensures Fits(Arr(items), d)
  {
    if items != [] {
      GoodItemsNest(items, d);
    }
  }

  predicate IsScalar(v: Value) {
    !v.Arr? && !v.Obj?
  }

  lemma FlatFits(fields: seq<Field>, d: nat)
    requires DistinctKeys(fields) && d < MAX_DEPTH
    requires forall k :: 0 <= k < |fields| ==> IsScalar(fields[k].value)
    ensures Fits(Obj(fields), d)
  {
    hide DistinctKeys;
    ObjectFits(fields, d);
  }

  lemma TlsFits(tls: Tls, d: nat)
    requires d + 1 < MAX_DEPTH
    ensures Fits(Obj(TlsFields(tls)), d)
  {
    assert DistinctKeys(TlsFields(tls)) by {
      TlsFound(tls, TlsFields(tls));
    }
    if tls.source.Issued? {
      AcmeFits(tls.source.acme, d + 1);
    }
    hide DistinctKeys, AcmeFields;
    ObjectFits(TlsFields(tls), d);
  }

  lemma AcmeFits(acme: Acme, d: nat)
    requires d < MAX_DEPTH
    ensures Fits(Obj(AcmeFields(acme)), d)
  {
    AcmeFound(acme, AcmeFields(acme));
    hide DistinctKeys, Get, Fits;
    FlatFits(AcmeFields(acme), d);
  }

  lemma PeersFit(peers: seq<Peer>, d: nat)
    requires d + 1 < MAX_DEPTH
    ensures Fits(PeersJson(peers), d)
  {
    hide DistinctKeys, Get, Fits;
    forall k | 0 <= k < |peers|
      ensures Fits(PeersJson(peers).items[k], d + 1)
    {
      PeerFound(peers[k], PeerFields(peers[k]));
      FlatFits(PeerFields(peers[k]), d + 1);
    }
    ArrayFits(PeersJson(peers).items, d);
  }

  lemma CodesFit(codes: seq<IssuedCode>, d: nat)
    requires d + 1 < MAX_DEPTH
    ensures Fits(CodesJson(codes), d)
  {
    hide DistinctKeys, Get, Fits;
    forall k | 0 <= k < |codes|
      ensures Fits(CodesJson(codes).items[k], d + 1)
    {
      CodeFound(codes[k], CodeFields(codes[k]));
      FlatFits(CodeFields(codes[k]), d + 1);
    }
    ArrayFits(CodesJson(codes).items, d);
  }

  lemma PartsFit(s: State, d: nat)
    requires d + 1 < MAX_DEPTH
    ensures Fits(Obj(TlsFields(s.tls)), d) && Fits(CloudflareJson(s.cloudflare), d)
    ensures Fits(Obj(ServerFields(s.server)), d) && Fits(PeersJson(s.peers), d) && Fits(CodesJson(s.codes), d)
  {
    ServerFound(s.server, ServerFields(s.server));
    if s.cloudflare.Some? {
      CloudflareFound(s.cloudflare.value, CloudflareFields(s.cloudflare.value));
    }
    hide DistinctKeys, Get;
    TlsFits(s.tls, d);
    PeersFit(s.peers, d);
    CodesFit(s.codes, d);
    FlatFits(ServerFields(s.server), d);
    if s.cloudflare.Some? {
      FlatFits(CloudflareFields(s.cloudflare.value), d);
    }
  }

  lemma StateFits(s: State)
    ensures Fits(ToJson(s), 0)
  {
    assert DistinctKeys(StateFields(s)) by {
      StateFound(s, StateFields(s));
    }
    hide StateFields, Fits, DistinctKeys;
    EachFits(s);
    ObjectFits(StateFields(s), 0);
  }

  lemma EachFits(s: State)
    ensures forall k :: 0 <= k < |StateFields(s)| ==> Fits(StateFields(s)[k].value, 1)
  {
    PartsFit(s, 1);
    hide TlsFields, CloudflareJson, ServerFields, PeersJson, CodesJson, ShowSubnet, Fits;
    ScalarFits(Int(SCHEMA_VERSION));
    CommonScalarsFit(s);
  }

  lemma LegacyFits(s: State, certPath: string, keyPath: string)
    ensures Fits(Obj(LegacyFields(s, certPath, keyPath)), 0)
  {
    assert DistinctKeys(LegacyFields(s, certPath, keyPath)) by {
      LegacyFound(s, certPath, keyPath, LegacyFields(s, certPath, keyPath));
    }
    hide LegacyFields, Fits, DistinctKeys;
    EachLegacyFits(s, certPath, keyPath);
    ObjectFits(LegacyFields(s, certPath, keyPath), 0);
  }

  lemma EachLegacyFits(s: State, certPath: string, keyPath: string)
    ensures forall k :: 0 <= k < |LegacyFields(s, certPath, keyPath)| ==>
                          Fits(LegacyFields(s, certPath, keyPath)[k].value, 1)
  {
    PartsFit(s, 1);
    hide ServerFields, PeersJson, CodesJson, ShowSubnet, Fits;
    ScalarFits(Int(LEGACY_VERSION));
    ScalarFits(Str(certPath));
    ScalarFits(Str(keyPath));
    CommonScalarsFit(s);
  }

  lemma ScalarFits(v: Value)
    requires IsScalar(v)
    ensures Fits(v, 1)
  {
  }

  lemma CommonScalarsFit(s: State)
    ensures Fits(Str(s.domain), 1) && Fits(Str(ShowSubnet(s.subnet)), 1)
    ensures Fits(Int(s.listenPort), 1) && Fits(Int(s.apiPort), 1)
  {
  }

  // ------------------------------------------------------------ main results

  /** Saving and loading gives a state back exactly when it is well-formed: the
      server at the subnet's .1, canonical names, codes and hashes. */
  lemma SavedLoadsExactly(w: World, s: State)
    requires Sound(w)
    ensures Load(w, Save(s)) == Ok(s) <==> WellFormed(w, s)
  {
    hide Sound, WellFormed, FromJson, ToJson;
    StateFits(s);
    RoundTripExactly(ToJson(s));
    if WellFormed(w, s) {
      JsonReadsBack(w, s);
    }
    if Load(w, Save(s)) == Ok(s) {
      LoadedIsWellFormed(w, ToJson(s));
    }
  }

  /** Everything a load accepts, from whatever file, survives save and load. */
  lemma LoadedSurvives(w: World, text: string)
    requires Sound(w) && Load(w, text).Ok?
    ensures WellFormed(w, Load(w, text).value)
    ensures Load(w, Save(Load(w, text).value)) == Load(w, text)
  {
    hide Sound, WellFormed, FromJson, Read;
    LoadedIsWellFormed(w, Read(text).value);
    SavedLoadsExactly(w, Load(w, text).value);
  }

  /** A version 1 file is the same state with a manual certificate and no
      Cloudflare; saved again, it is a version 2 file of that state. */
  lemma LegacyLoads(w: World, s: State, certPath: string, keyPath: string)
    requires Sound(w) && WellFormed(w, s)
    ensures var upgraded := s.(tls := Tls(certPath, keyPath, None, Manual), cloudflare := None);
            && Load(w, Pretty(Obj(LegacyFields(s, certPath, keyPath)))) == Ok(upgraded)
            && Load(w, Save(upgraded)) == Ok(upgraded)
  {
    hide Sound, FromJson, ToJson, LegacyFields, Read, Pretty, Save;
    LegacyFits(s, certPath, keyPath);
    RoundTripExactly(Obj(LegacyFields(s, certPath, keyPath)));
    LegacyReads(w, s, certPath, keyPath);
    SavedLoadsExactly(w, s.(tls := Tls(certPath, keyPath, None, Manual), cloudflare := None));
  }

  /** A bad device stops the load, and the error names the first one and the
      field inside it. */
  lemma {:induction false} BadPeerIsNamed(w: World, items: seq<Value>, from: nat) returns (k: nat)
    requires from <= |items| && PeersOf(w, items, from).Err?
    ensures from <= k < |items| && PeerOf(w, items[k]).Err?
    ensures forall i :: from <= i < k ==> PeerOf(w, items[i]).Ok?
    ensures PeersOf(w, items, from).error == Within(At("peers", k), PeerOf(w, items[k])).error
    decreases |items| - from
  {
    hide PeerOf, Path, At;
    if PeerOf(w, items[from]).Err? {
      k := from;
    } else {
      k := BadPeerIsNamed(w, items, from + 1);
    }
  }

  lemma {:induction false} BadCodeIsNamed(items: seq<Value>, from: nat) returns (k: nat)
    requires from <= |items| && CodesOf(items, from).Err?
    ensures from <= k < |items| && CodeOf(items[k]).Err?
    ensures forall i :: from <= i < k ==> CodeOf(items[i]).Ok?
    ensures CodesOf(items, from).error == Within(At("codes", k), CodeOf(items[k])).error
    decreases |items| - from
  {
    hide CodeOf, Path, At;
    if CodeOf(items[from]).Err? {
      k := from;
    } else {
      k := BadCodeIsNamed(items, from + 1);
    }
  }

  /** ACME details exist exactly when the source is ACME: a file that says one
      thing and holds the other is refused. */
  lemma SourceMustAgree(o: seq<Field>, tls: seq<Field>)
    requires Get(o, "tls") == Some(Obj(tls)) && TlsOf(o).Ok?
    ensures Get(tls, "source") == Some(Str("manual")) || Get(tls, "source") == Some(Str("acme"))
    ensures TlsOf(o).value.source.Manual? <==> Get(tls, "source") == Some(Str("manual"))
    ensures TlsOf(o).value.source.Manual? <==> Get(tls, "acme") == Some(Null)
  {
    hide Get, AcmeOf, Path;
  }
}
