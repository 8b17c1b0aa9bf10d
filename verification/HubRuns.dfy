/** What holds of the hub over every sequence of codes issued, joins, removals
    and stamps, starting from a hub nobody has joined. */
module HubRuns {
  import opened Wrappers
  import opened Integers
  import opened Subnet
  import opened Codes
  import opened Credentials
  import opened Hub

  type JoinCode = s: string | IsCode(s) witness "2222-2222"

  /** One request, with the token a join would hand out and the clock's time. */
  datatype Op =
    | IssueOp(code: JoinCode, at: I64, ttl: I64)
    | JoinOp(request: JoinRequest, token: string, at: I64)
    | RemoveOp(name: string)
    | SeenOp(name: string, at: I64)

  datatype Answer = Done | Joined(join: Result<JoinResponse, ApiError>) | Removed(removal: Result<PeerInfo, ApiError>)

  function Apply(w: World, s: State, op: Op): (State, Answer) {
    match op
    case IssueOp(code, at, ttl) => (Issue(s, code, at, ttl), Done)
    case JoinOp(request, token, at) =>
      var (after, r) := DecideJoin(w, s, request, token, at);
      (after, Joined(r))
    case RemoveOp(name) =>
      var (after, r) := DecideRemove(w, s, name);
      (after, Removed(r))
    case SeenOp(name, at) => (Touch(s, name, at), Done)
  }

  /** The state before operation `i`. */
  function Before(w: World, s: State, ops: seq<Op>, i: nat): State
    requires i <= |ops|
  {
    if i == 0 then s else Apply(w, Before(w, s, ops, i - 1), ops[i - 1]).0
  }

  function AnswerAt(w: World, s: State, ops: seq<Op>, i: nat): Answer
    requires i < |ops|
  {
    Apply(w, Before(w, s, ops, i), ops[i]).1
  }

  predicate Refused(a: Answer) {
    (a.Joined? && a.join.Err?) || (a.Removed? && a.removal.Err?)
  }

  predicate JoinsAt(w: World, s: State, ops: seq<Op>, i: nat)
    requires i < |ops|
  {
    AnswerAt(w, s, ops, i).Joined? && AnswerAt(w, s, ops, i).join.Ok?
  }

  /** Operation `i` takes the device called `name` off the hub. */
  predicate RemovesAt(w: World, s: State, ops: seq<Op>, i: nat, name: string)
    requires i < |ops|
  {
    var a := AnswerAt(w, s, ops, i);
    a.Removed? && a.removal.Ok? && a.removal.value.name == name
  }

  // ------------------------------------------------------- one operation

  /** A refusal leaves the state equal, and a stamp or a code adds no device. */
  lemma RefusalChangesNothing(w: World, s: State, op: Op)
    ensures Refused(Apply(w, s, op).1) ==> Apply(w, s, op).0 == s
    ensures SameHub(Apply(w, s, op).0, s)
    ensures |Apply(w, s, op).0.peers| ==
            |s.peers| + (match Apply(w, s, op).1
                         case Joined(Ok(_)) => 1
                         case Removed(Ok(_)) => -1
                         case _ => 0)
  {
    hide ParseCode, ParseName, ParseKey, Allocate, StatusOf, ShowIpv4, ShowSubnet, ServerEndpoint;
  }

  /** Exactly when a registration is accepted, and what it is then given: the
      lowest free address, and the code spent at that moment. */
  lemma AddPeerExactly(s: State, reg: Registration, now: I64)
    ensures var (after, r) := AddPeer(s, reg, now);
            && (r.Ok? <==>
                  && CodeAt(s.codes, reg.code).Some?
                  && StatusOf(s.codes[CodeAt(s.codes, reg.code).value], now) == Usable
                  && (forall k :: 0 <= k < |s.peers| ==> s.peers[k].name != reg.name)
                  && (exists o: Octet ::
                        && 2 <= o <= 254
                        && forall k :: 0 <= k < |s.peers| ==> s.peers[k].address != AddressOf(s.subnet, o)))
            && (r.Ok? ==>
                  && after.peers == s.peers + [r.value]
                  && r.value.name == reg.name && r.value.publicKey == reg.publicKey
                  && r.value.tokenHash == reg.tokenHash
                  && LowestFree(s, r.value.address)
                  && StatusOf(after.codes[CodeAt(s.codes, reg.code).value], now) == Used)
  {
    AllocatesLowestFree(s.subnet, Addresses(s.peers));
    var used := Addresses(s.peers);
    forall ip: Ipv4
      ensures ip in used <==> exists k :: 0 <= k < |s.peers| && s.peers[k].address == ip
    {
      if k :| 0 <= k < |s.peers| && s.peers[k].address == ip {
        assert used[k] == ip;
      }
    }
    assert forall o: Octet ::
        AddressOf(s.subnet, o) in used
        <==> exists k :: 0 <= k < |s.peers| && s.peers[k].address == AddressOf(s.subnet, o);
  }

  /** The lowest host address from .2 to .254 no device holds. */
  ghost predicate LowestFree(s: State, ip: Ipv4) {
    && Contains(s.subnet, ip) && 2 <= ip.d <= 254
    && (forall k :: 0 <= k < |s.peers| ==> s.peers[k].address != ip)
    && forall o: Octet :: 2 <= o < ip.d ==>
                            exists k :: 0 <= k < |s.peers| && s.peers[k].address == AddressOf(s.subnet, o)
  }

  lemma AddPeerKeepsOrder(w: World, s: State, reg: Registration, now: I64)
    requires Orderly(w, s)
    requires IsName(w, reg.name) && IsHex(reg.tokenHash) && IsKey(reg.publicKey)
    ensures Orderly(w, AddPeer(s, reg, now).0)
  {
    AllocatesLowestFree(s.subnet, Addresses(s.peers));
    var (after, r) := AddPeer(s, reg, now);
    if r.Ok? {
      var used := Addresses(s.peers);
      assert forall k :: 0 <= k < |s.peers| ==> used[k] == s.peers[k].address;
    }
  }

  lemma RemoveKeepsOrder(w: World, s: State, name: string)
    requires Orderly(w, s)
    ensures Orderly(w, RemovePeer(s, name).0)
  {
    var at := PeerAt(s.peers, name);
    if at.Some? {
      var after := RemovePeer(s, name).0.peers;
      assert forall i :: 0 <= i < |after| ==> after[i] == s.peers[if i < at.value then i else i + 1];
    }
  }

  lemma ApplyKeepsOrder(w: World, s: State, op: Op)
    requires Sound(w) && Orderly(w, s)
    ensures Orderly(w, Apply(w, s, op).0)
  {
    hide ParseCode, ParseName, ParseKey, Allocate, Addresses, ShowIpv4, ShowSubnet, ServerEndpoint, IsName, IsKey,
        IsHex, IsCode, StatusOf;
    match op {
      case IssueOp(code, at, ttl) =>
      case SeenOp(name, at) =>
      case RemoveOp(name) =>
        if ParseName(w, name).Ok? {
          RemoveKeepsOrder(w, s, ParseName(w, name).value);
        }
      case JoinOp(request, token, at) =>
        var code, name, key := ParseCode(request.code), ParseName(w, request.name), ParseKey(request.publicKey);
        if code.Ok? && name.Ok? && key.Some? {
          NamesExactly(w, request.name);
          AddPeerKeepsOrder(w, s, Registration(code.value, name.value, key.value, w.hash(token)), at);
        }
    }
  }

  /** A removal answers with the device it took, leaves every other as it was
      and in its order, and frees the address for the next join. */
  lemma RemoveExactly(w: World, s: State, name: string)
    requires Orderly(w, s)
    ensures var (after, r) := DecideRemove(w, s, name);
            && (r.Ok? <==> ParseName(w, name).Ok? && PeerAt(s.peers, ParseName(w, name).value).Some?)
            && (r.Ok? ==>
                  var at := PeerAt(s.peers, ParseName(w, name).value).value;
                  && r.value == PeerInfo(ParseName(w, name).value, s.peers[at].publicKey, ShowIpv4(s.peers[at].address))
                  && after == s.(peers := s.peers[..at] + s.peers[at + 1..])
                  && forall p :: p in after.peers <==> p in s.peers && p.name != r.value.name)
            && (r.Ok? ==> forall p :: p in after.peers ==> ShowIpv4(p.address) != r.value.address)
  {
    hide ParseName, ShowIpv4, WellFormed, Housed;
    var (after, r) := DecideRemove(w, s, name);
    if r.Ok? {
      var at := PeerAt(s.peers, ParseName(w, name).value).value;
      assert s.peers == s.peers[..at] + [s.peers[at]] + s.peers[at + 1..];
      forall p | p in after.peers
        ensures p in s.peers && p.name != r.value.name && ShowIpv4(p.address) != r.value.address
      {
        var k :| 0 <= k < |after.peers| && after.peers[k] == p;
        assert p == s.peers[if k < at then k else k + 1];
        Ipv4Exactly(ShowIpv4(p.address), p.address);
        Ipv4Exactly(ShowIpv4(p.address), s.peers[at].address);
      }
    }
  }

  /** A stamp changes one device's last call and nothing else. */
  lemma TouchOnlyStamps(w: World, s: State, name: string, now: I64)
    requires DistinctNames(s.peers)
    ensures var after := Touch(s, name, now);
            && after.(peers := s.peers) == s && |after.peers| == |s.peers|
            && forall k :: 0 <= k < |s.peers| ==>
                 after.peers[k] == if s.peers[k].name == name then s.peers[k].(lastSeen := Some(now)) else s.peers[k]
  {
    hide PeerAt;
  }

  // ------------------------------------------------------------ the subnet

  ghost function AddressSet(peers: seq<Peer>): (r: set<Ipv4>)
    ensures forall ip :: ip in r <==> exists k :: 0 <= k < |peers| && peers[k].address == ip
  {
    set k | 0 <= k < |peers| :: peers[k].address
  }

  lemma {:induction false} AddressesCounted(peers: seq<Peer>)
    requires DistinctAddresses(peers)
    ensures |AddressSet(peers)| == |peers|
  {
    if peers != [] {
      var n := |peers| - 1;
      AddressesCounted(peers[..n]);
      assert AddressSet(peers) == AddressSet(peers[..n]) + {peers[n].address};
    }
  }

  ghost function HostsFrom(net: Subnet, from: nat): (r: set<Ipv4>)
    requires from <= 255
    ensures forall ip :: ip in r <==> Contains(net, ip) && from <= ip.d <= 254
    ensures |r| == 255 - from
    decreases 255 - from
  {
    if from == 255 then {} else {AddressOf(net, from)} + HostsFrom(net, from + 1)
  }

  lemma UsedAreHeld(peers: seq<Peer>, ip: Ipv4)
    ensures ip in Addresses(peers) <==> ip in AddressSet(peers)
  {
    if k :| 0 <= k < |peers| && peers[k].address == ip {
      assert Addresses(peers)[k] == ip;
    }
  }

  lemma HostIsHeld(s: State, ip: Ipv4)
    requires Contains(s.subnet, ip) && 2 <= ip.d <= 254 && Allocate(s.subnet, Addresses(s.peers)).None?
    ensures ip in AddressSet(s.peers)
  {
    AllocatesLowestFree(s.subnet, Addresses(s.peers));
    UsedAreHeld(s.peers, ip);
    assert ip == AddressOf(s.subnet, ip.d);
  }

  lemma FreeIsNotHeld(s: State)
    requires Allocate(s.subnet, Addresses(s.peers)).Some?
    ensures var ip := Allocate(s.subnet, Addresses(s.peers)).value;
            Contains(s.subnet, ip) && 2 <= ip.d <= 254 && ip !in AddressSet(s.peers)
  {
    AllocatesLowestFree(s.subnet, Addresses(s.peers));
    UsedAreHeld(s.peers, Allocate(s.subnet, Addresses(s.peers)).value);
  }

  lemma HeldAreHosts(w: World, s: State)
    requires Orderly(w, s)
    ensures AddressSet(s.peers) <= HostsFrom(s.subnet, 2) && |AddressSet(s.peers)| == |s.peers|
  {
    hide IsKey, WellFormed, HostsFrom, DistinctNames;
    AddressesCounted(s.peers);
  }

  lemma AllHeldWhenFull(s: State)
    requires Allocate(s.subnet, Addresses(s.peers)).None?
    ensures HostsFrom(s.subnet, 2) <= AddressSet(s.peers)
  {
    hide Allocate, HostsFrom, AddressSet, Addresses;
    forall ip | ip in HostsFrom(s.subnet, 2)
      ensures ip in AddressSet(s.peers)
    {
      HostIsHeld(s, ip);
    }
  }

  lemma SomeFreeOtherwise(s: State)
    requires Allocate(s.subnet, Addresses(s.peers)).Some?
    requires AddressSet(s.peers) <= HostsFrom(s.subnet, 2)
    ensures |AddressSet(s.peers)| < 253
  {
    FreeIsNotHeld(s);
    hide Allocate, AddressSet, Addresses;
    assert AddressSet(s.peers) != HostsFrom(s.subnet, 2);
    SubsetSizes(AddressSet(s.peers), HostsFrom(s.subnet, 2));
  }

  /** There is no free address exactly when 253 devices hold them all. */
  lemma FullExactly(w: World, s: State)
    requires Orderly(w, s)
    ensures |s.peers| <= 253
    ensures Allocate(s.subnet, Addresses(s.peers)).None? <==> |s.peers| == 253
  {
    hide *;
    HeldAreHosts(w, s);
    SubsetSizes(AddressSet(s.peers), HostsFrom(s.subnet, 2));
    if Allocate(s.subnet, Addresses(s.peers)).None? {
      AllHeldWhenFull(s);
      SubsetSizes(HostsFrom(s.subnet, 2), AddressSet(s.peers));
    } else {
      SomeFreeOtherwise(s);
    }
  }

  lemma SubsetSizes<T>(a: set<T>, b: set<T>)
    requires a <= b
    ensures |a| <= |b| && (|a| == |b| ==> a == b)
  {
    assert |b| == |a| + |b - a| by {
      assert b == a + (b - a);
    }
  }

  /** The first entry for the code, which decides, is unspent and in time. */
  ghost predicate Spendable(codes: seq<IssuedCode>, code: string, now: I64) {
    exists k :: 0 <= k < |codes| && codes[k].code == code && StatusOf(codes[k], now) == Usable &&
                forall n :: 0 <= n < k ==> codes[n].code != code
  }

  predicate NameFree(peers: seq<Peer>, name: string) {
    forall k :: 0 <= k < |peers| ==> peers[k].name != name
  }

  /** A request with nothing wrong in it: a code that can be redeemed now, a
      name nobody has, a key. */
  ghost predicate Redeemable(w: World, s: State, request: JoinRequest, now: I64) {
    && ParseCode(request.code).Ok? && ParseName(w, request.name).Ok? && ParseKey(request.publicKey).Some?
    && Spendable(s.codes, ParseCode(request.code).value, now)
    && NameFree(s.peers, ParseName(w, request.name).value)
  }

  /** Such a request is turned away only by a full subnet, which takes exactly
      253 devices; every other is turned away for something else. */
  lemma JoinExactly(w: World, s: State, request: JoinRequest, token: string, now: I64)
    requires Orderly(w, s)
    ensures var r := DecideJoin(w, s, request, token, now).1;
            && (r.Ok? <==> Redeemable(w, s, request, now) && |s.peers| < 253)
            && (r == Err(SubnetFull) <==> Redeemable(w, s, request, now) && |s.peers| == 253)
  {
    hide ParseCode, ParseName, ParseKey, Allocate, Addresses, ShowIpv4, ShowSubnet, ServerEndpoint, Orderly, StatusOf,
      CodeAt, PeerAt, Spendable, NameFree;
    FullExactly(w, s);
    if ParseCode(request.code).Ok? {
      SpendableExactly(s.codes, ParseCode(request.code).value, now);
    }
    if ParseName(w, request.name).Ok? {
      NameFreeExactly(s.peers, ParseName(w, request.name).value);
    }
  }

  lemma NameFreeExactly(peers: seq<Peer>, name: string)
    ensures NameFree(peers, name) <==> PeerAt(peers, name).None?
  {
    hide PeerAt;
  }

  lemma SpendableExactly(codes: seq<IssuedCode>, code: string, now: I64)
    ensures Spendable(codes, code, now) <==>
            CodeAt(codes, code).Some? && StatusOf(codes[CodeAt(codes, code).value], now) == Usable
  {
    hide CodeAt, StatusOf;
  }

  // --------------------------------------------------------------- counts

  ghost function SpentCodes(codes: seq<IssuedCode>): nat {
    if codes == [] then 0
    else SpentCodes(codes[..|codes| - 1]) + (if codes[|codes| - 1].usedAt.Some? then 1 else 0)
  }

  lemma {:induction false} SpendingCounted(codes: seq<IssuedCode>, k: nat, now: I64)
    requires k < |codes| && codes[k].usedAt.None?
    ensures SpentCodes(codes[k := codes[k].(usedAt := Some(now))]) == SpentCodes(codes) + 1
    decreases |codes|
  {
    var n := |codes| - 1;
    var after := codes[k := codes[k].(usedAt := Some(now))];
    if k == n {
      assert after[..n] == codes[..n];
    } else {
      assert after[..n] == codes[..n][k := codes[..n][k].(usedAt := Some(now))];
      SpendingCounted(codes[..n], k, now);
    }
  }

  ghost function JoinsBefore(w: World, s: State, ops: seq<Op>, i: nat): nat
    requires i <= |ops|
  {
    if i == 0 then 0 else JoinsBefore(w, s, ops, i - 1) + (if JoinsAt(w, s, ops, i - 1) then 1 else 0)
  }

  ghost function RemovalsBefore(w: World, s: State, ops: seq<Op>, i: nat): nat
    requires i <= |ops|
  {
    if i == 0 then 0
    else RemovalsBefore(w, s, ops, i - 1) +
         (if AnswerAt(w, s, ops, i - 1).Removed? && AnswerAt(w, s, ops, i - 1).removal.Ok? then 1 else 0)
  }

  lemma SpentByOne(w: World, s: State, op: Op)
    ensures SpentCodes(Apply(w, s, op).0.codes) ==
            SpentCodes(s.codes) + (if Apply(w, s, op).1.Joined? && Apply(w, s, op).1.join.Ok? then 1 else 0)
  {
    hide ParseCode, ParseName, ParseKey, Allocate, Addresses, ShowIpv4, ShowSubnet, ServerEndpoint;
    match op {
      case IssueOp(code, at, ttl) =>
        var after := Issue(s, code, at, ttl).codes;
        assert after[..|after| - 1] == s.codes;
      case JoinOp(request, token, at) =>
        if Apply(w, s, op).1.join.Ok? {
          SpendingCounted(s.codes, CodeAt(s.codes, ParseCode(request.code).value).value, at);
        }
      case _ =>
    }
  }

  /** A run from an orderly state stays orderly; every join spends one code, and
      every device was there before or is a join not yet undone. */
  lemma {:induction false} RunKeepsOrder(w: World, s: State, ops: seq<Op>, i: nat)
    requires Sound(w) && Orderly(w, s) && i <= |ops|
    ensures Orderly(w, Before(w, s, ops, i))
    ensures SpentCodes(Before(w, s, ops, i).codes) == SpentCodes(s.codes) + JoinsBefore(w, s, ops, i)
    ensures |Before(w, s, ops, i).peers| + RemovalsBefore(w, s, ops, i) == |s.peers| + JoinsBefore(w, s, ops, i)
  {
    hide Apply, Sound;
    if i > 0 {
      RunKeepsOrder(w, s, ops, i - 1);
      var t, op := Before(w, s, ops, i - 1), ops[i - 1];
      ApplyKeepsOrder(w, t, op);
      SpentByOne(w, t, op);
      RefusalChangesNothing(w, t, op);
    }
  }

  /** A hub nobody has joined yet is orderly, and its counts start at zero. */
  lemma FreshIsOrderly(w: World, s: State)
    requires IsFresh(w, s)
    ensures Orderly(w, s) && SpentCodes(s.codes) == |s.peers| == 0
  {
  }

  lemma ApplyKeepsWellFormed(w: World, s: State, op: Op)
    requires Sound(w) && WellFormed(w, s)
    ensures WellFormed(w, Apply(w, s, op).0)
  {
    hide ParseCode, ParseName, ParseKey, Allocate, Addresses, ShowIpv4, ShowSubnet, ServerEndpoint, IsName, IsKey,
        IsHex, IsCode, StatusOf;
    if op.JoinOp? && ParseName(w, op.request.name).Ok? {
      NamesExactly(w, op.request.name);
    }
  }

  /** Whatever state a run starts from, names, codes and hashes stay canonical. */
  lemma {:induction false} RunKeepsWellFormed(w: World, s: State, ops: seq<Op>, i: nat)
    requires Sound(w) && WellFormed(w, s) && i <= |ops|
    ensures WellFormed(w, Before(w, s, ops, i))
  {
    hide Apply, Sound, WellFormed;
    if i > 0 {
      RunKeepsWellFormed(w, s, ops, i - 1);
      ApplyKeepsWellFormed(w, Before(w, s, ops, i - 1), ops[i - 1]);
    }
  }

  // ---------------------------------------------------------------- codes

  /** Later entries only add to earlier ones: nothing is forgotten, reissued
      in place, or unspent. */
  ghost predicate Extends(a: seq<IssuedCode>, b: seq<IssuedCode>) {
    && |a| <= |b|
    && forall k :: 0 <= k < |a| ==>
         b[k].code == a[k].code && b[k].issuedAt == a[k].issuedAt && b[k].expiresAt == a[k].expiresAt
         && (a[k].usedAt.Some? ==> b[k].usedAt == a[k].usedAt)
  }

  lemma {:induction false} CodesExtend(w: World, s: State, ops: seq<Op>, i: nat, j: nat)
    requires i <= j <= |ops|
    ensures Extends(Before(w, s, ops, i).codes, Before(w, s, ops, j).codes)
    decreases j
  {
    hide Apply;
    if i < j {
      CodesExtend(w, s, ops, i, j - 1);
      ApplyExtends(w, Before(w, s, ops, j - 1), ops[j - 1]);
    }
  }

  lemma ApplyExtends(w: World, s: State, op: Op)
    ensures Extends(s.codes, Apply(w, s, op).0.codes)
  {
    hide ParseCode, ParseName, ParseKey, Allocate, Addresses, ShowIpv4, ShowSubnet, ServerEndpoint, IssueCode, IsCode;
  }

  /** A join redeems the first entry for its code, unspent until then. */
  lemma JoinSpends(w: World, s: State, op: Op)
    requires Apply(w, s, op).1.Joined? && Apply(w, s, op).1.join.Ok?
    ensures ParseCode(op.request.code).Ok?
    ensures var at := CodeAt(s.codes, ParseCode(op.request.code).value);
            && at.Some? && s.codes[at.value].usedAt.None?
            && at.value < |Apply(w, s, op).0.codes| && Apply(w, s, op).0.codes[at.value].usedAt.Some?
  {
    hide ParseCode, ParseName, ParseKey, Allocate, Addresses, ShowIpv4, ShowSubnet, ServerEndpoint;
  }

  /** The first entry for a code stays the first, and stays spent. */
  lemma FirstEntryStays(a: seq<IssuedCode>, b: seq<IssuedCode>, code: string)
    requires Extends(a, b) && CodeAt(a, code).Some?
    ensures CodeAt(b, code) == CodeAt(a, code)
    ensures a[CodeAt(a, code).value].usedAt.Some? ==> b[CodeAt(a, code).value].usedAt.Some?
  {
    hide CodeAt;
    var k := CodeAt(a, code).value;
    assert b[k].code == code;
    assert forall n :: 0 <= n < k ==> b[n].code == a[n].code;
  }

  lemma JoinSpendsAt(w: World, s: State, ops: seq<Op>, i: nat)
    requires i < |ops| && JoinsAt(w, s, ops, i)
    ensures ops[i].JoinOp? && ParseCode(ops[i].request.code).Ok?
    ensures var first, next := Before(w, s, ops, i), Before(w, s, ops, i + 1);
            var at := CodeAt(first.codes, ParseCode(ops[i].request.code).value);
            && at.Some? && first.codes[at.value].usedAt.None?
            && at.value < |next.codes| && next.codes[at.value].usedAt.Some?
  {
    JoinSpends(w, Before(w, s, ops, i), ops[i]);
    hide ParseCode, CodeAt, DecideJoin;
  }

  /** One code admits at most one device, however often it was issued, however
      it was typed, and whatever became of the device. */
  lemma OneCodeOneDevice(w: World, s: State, ops: seq<Op>, i: nat, j: nat)
    requires i < j < |ops| && JoinsAt(w, s, ops, i) && JoinsAt(w, s, ops, j)
    ensures ops[i].JoinOp? && ops[j].JoinOp?
    ensures ParseCode(ops[i].request.code) != ParseCode(ops[j].request.code)
  {
    hide *;
    var first, next, later := Before(w, s, ops, i), Before(w, s, ops, i + 1), Before(w, s, ops, j);
    JoinSpendsAt(w, s, ops, i);
    JoinSpendsAt(w, s, ops, j);
    CodesExtend(w, s, ops, i, i + 1);
    CodesExtend(w, s, ops, i + 1, j);
    var code := ParseCode(ops[i].request.code).value;
    FirstEntryStays(first.codes, next.codes, code);
    FirstEntryStays(next.codes, later.codes, code);
  }

  /** A code just chosen and issued is the one a join with it redeems. */
  lemma ChosenCodeIsRedeemed(s: State, draws: seq<Option<string>>, tried: nat, at: I64, ttl: I64, now: I64)
    requires ChooseUnused(s, draws, tried).Ok?
    ensures var code := ChooseUnused(s, draws, tried).value;
            var after := Issue(s, code, at, ttl);
            && Some(code) in draws
            && CodeAt(after.codes, code) == Some(|s.codes|)
            && (ttl > 0 && now < SatAdd(at, ttl) ==>
                  StatusOf(after.codes[CodeAt(after.codes, code).value], now) == Usable)
  {
    ChosenIsNew(s, draws, tried);
    var code := ChooseUnused(s, draws, tried).value;
    var after := Issue(s, code, at, ttl);
    var found := CodeAt(after.codes, code);
    assert after.codes[|s.codes|].code == code;
  }

  lemma {:induction false} ChosenIsNew(s: State, draws: seq<Option<string>>, tried: nat)
    requires ChooseUnused(s, draws, tried).Ok?
    ensures var code := ChooseUnused(s, draws, tried).value;
            CodeAt(s.codes, code).None? && Some(code) in draws
    decreases |draws|
  {
    if CodeAt(s.codes, draws[0].value).Some? {
      ChosenIsNew(s, draws[1..], tried + 1);
    }
  }
}
