/** IPv4 addresses and the hub's /24: their text, and the address a new device
    is given. */
module Subnet {
  import opened Wrappers
  import opened Integers
  import opened Text

  const PREFIX_LEN: nat := 24

  type Octet = n: nat | n < 256

  datatype Ipv4 = Ipv4(a: Octet, b: Octet, c: Octet, d: Octet)

  function ShowIpv4(ip: Ipv4): string {
    Digits(ip.a) + ['.'] + (Digits(ip.b) + ['.'] + (Digits(ip.c) + ['.'] + Digits(ip.d)))
  }

  /** One part of a dotted address: one to three digits, no leading zero. */
  function ParseOctet(s: string): Option<Octet> {
    if s == [] || |s| > 3 || !AllDigits(s) || (|s| > 1 && s[0] == '0') || DigitsValue(s) > 255 then None
    else Some(DigitsValue(s))
  }

  /** `Ipv4Addr::from_str`. */
  function ParseIpv4(s: string): Option<Ipv4> {
    match SplitOnce(s, '.')
    case None => None
    case Some(p) =>
      match SplitOnce(p.1, '.')
      case None => None
      case Some(q) =>
        match SplitOnce(q.1, '.')
        case None => None
        case Some(r) =>
          var a, b, c, d := ParseOctet(p.0), ParseOctet(q.0), ParseOctet(r.0), ParseOctet(r.1);
          if a.Some? && b.Some? && c.Some? && d.Some? then Some(Ipv4(a.value, b.value, c.value, d.value)) else None
  }

  datatype Subnet = Subnet(network: Ipv4)

  datatype SubnetError =
    | MissingPrefix
    | BadAddress
    | BadPrefix
    | UnsupportedPrefix(n: nat)
    | NotNetworkAddress(ip: Ipv4)

  /** A network address is its own: no host bits. */
  predicate IsNetwork(net: Subnet) {
    net.network.d == 0
  }

  function ShowSubnet(net: Subnet): string {
    ShowIpv4(net.network) + ['/'] + Digits(PREFIX_LEN)
  }

  function ParseSubnet(text: string): Result<Subnet, SubnetError> {
    match SplitOnce(text, '/')
    case None => Err(MissingPrefix)
    case Some(p) =>
      match ParseIpv4(p.0)
      case None => Err(BadAddress)
      case Some(network) =>
        var prefix := p.1;
        if prefix == [] || !AllDigits(prefix) then Err(BadPrefix)
        else if |prefix| > 1 && prefix[0] == '0' then Err(BadPrefix)
        else if DigitsValue(prefix) > 32 then Err(BadPrefix)
        else if DigitsValue(prefix) != PREFIX_LEN then Err(UnsupportedPrefix(DigitsValue(prefix)))
        else if network.d != 0 then Err(NotNetworkAddress(network))
        else Ok(Subnet(network))
  }

  function AddressOf(net: Subnet, octet: Octet): Ipv4 {
    net.network.(d := octet)
  }

  function ServerAddress(net: Subnet): Ipv4 {
    AddressOf(net, 1)
  }

  predicate Contains(net: Subnet, ip: Ipv4) {
    ip.a == net.network.a && ip.b == net.network.b && ip.c == net.network.c
  }

  function HostOctet(net: Subnet, ip: Ipv4): Option<Octet> {
    if Contains(net, ip) then Some(ip.d) else None
  }

  /** The host octets in use, other networks' addresses left out. */
  function HostOctets(net: Subnet, used: seq<Ipv4>): seq<Octet> {
    if used == [] then []
    else (match HostOctet(net, used[0]) case None => [] case Some(o) => [o]) + HostOctets(net, used[1..])
  }

  /** The first of `from..=254` not in use. */
  function FindFree(used: seq<Octet>, from: nat): (r: Option<Octet>)
    ensures r.Some? ==> from <= r.value <= 254 && r.value !in used
    ensures r.Some? ==> forall o: Octet :: from <= o < r.value ==> o in used
    ensures r.None? ==> forall o: Octet :: from <= o <= 254 ==> o in used
    decreases 255 - from
  {
    if from > 254 then None
    else if from !in used then Some(from)
    else FindFree(used, from + 1)
  }

  function NextFreeOctet(used: seq<Octet>): Option<Octet> {
    FindFree(used, 2)
  }

  function Allocate(net: Subnet, used: seq<Ipv4>): Option<Ipv4> {
    match NextFreeOctet(HostOctets(net, used))
    case None => None
    case Some(o) => Some(AddressOf(net, o))
  }

  // ---------------------------------------------------------------- text

  /** Three digits without a leading zero, up to 255, spell one octet each. */
  lemma OctetExactly(s: string, o: Octet)
    ensures ParseOctet(s) == Some(o) <==> s == Digits(o)
  {
    DigitsReadBack(o);
    if o >= 10 {
      assert |Digits(o)| == |Digits(o / 10)| + 1;
      if o >= 100 {
        assert |Digits(o / 10)| == |Digits(o / 100)| + 1;
      }
    }
    if ParseOctet(s).Some? {
      CanonicalDigits(s);
    }
  }

  /** An address is read from exactly one text: the one it is shown as. */
  lemma Ipv4Exactly(s: string, ip: Ipv4)
    ensures ParseIpv4(s) == Some(ip) <==> s == ShowIpv4(ip)
  {
    var a, b, c, d := Digits(ip.a), Digits(ip.b), Digits(ip.c), Digits(ip.d);
    if s == ShowIpv4(ip) {
      DottedSplits(a, b, c, d);
      OctetExactly(a, ip.a);
      OctetExactly(b, ip.b);
      OctetExactly(c, ip.c);
      OctetExactly(d, ip.d);
    }
    if ParseIpv4(s) == Some(ip) {
      var p := SplitOnce(s, '.').value;
      var q := SplitOnce(p.1, '.').value;
      var r := SplitOnce(q.1, '.').value;
      OctetExactly(p.0, ip.a);
      OctetExactly(q.0, ip.b);
      OctetExactly(r.0, ip.c);
      OctetExactly(r.1, ip.d);
    }
  }

  lemma DottedSplits(a: string, b: string, c: string, d: string)
    requires AllDigits(a) && AllDigits(b) && AllDigits(c)
    ensures SplitOnce(a + ['.'] + (b + ['.'] + (c + ['.'] + d)), '.') == Some((a, b + ['.'] + (c + ['.'] + d)))
    ensures SplitOnce(b + ['.'] + (c + ['.'] + d), '.') == Some((b, c + ['.'] + d))
    ensures SplitOnce(c + ['.'] + d, '.') == Some((c, d))
  {
    SplitOnceAt(a, '.', b + ['.'] + (c + ['.'] + d));
    SplitOnceAt(b, '.', c + ['.'] + d);
    SplitOnceAt(c, '.', d);
  }

  /** A subnet, too, is read from exactly the text it is shown as: no other
      spelling of the prefix, no host bits, no quiet masking. */
  lemma SubnetExactly(s: string, net: Subnet)
    ensures ParseSubnet(s) == Ok(net) <==> s == ShowSubnet(net) && IsNetwork(net)
  {
    DigitsReadBack(PREFIX_LEN);
    var text := ShowIpv4(net.network);
    assert '/' !in text;
    SplitOnceAt(text, '/', Digits(PREFIX_LEN));
    Ipv4Exactly(text, net.network);
    if ParseSubnet(s) == Ok(net) {
      var p := SplitOnce(s, '/').value;
      Ipv4Exactly(p.0, net.network);
      CanonicalDigits(p.1);
    }
  }

  // ----------------------------------------------------------- allocation

  lemma {:induction false} InHostOctets(net: Subnet, used: seq<Ipv4>, o: Octet)
    ensures o in HostOctets(net, used) <==> AddressOf(net, o) in used
  {
    if used != [] {
      InHostOctets(net, used[1..], o);
      assert used == [used[0]] + used[1..];
      assert AddressOf(net, o) == used[0] <==> HostOctet(net, used[0]) == Some(o);
    }
  }

  /** What allocation promises: the lowest address from .2 to .254 that is not
      in use, and none exactly when all of them are. */
  lemma AllocatesLowestFree(net: Subnet, used: seq<Ipv4>)
    ensures Allocate(net, used).None? <==> forall o: Octet :: 2 <= o <= 254 ==> AddressOf(net, o) in used
    ensures Allocate(net, used).Some? ==>
              var ip := Allocate(net, used).value;
              && Contains(net, ip) && 2 <= ip.d <= 254
              && ip !in used
              && (forall o: Octet :: 2 <= o < ip.d ==> AddressOf(net, o) in used)
  {
    forall o: Octet
      ensures o in HostOctets(net, used) <==> AddressOf(net, o) in used
    {
      InHostOctets(net, used, o);
    }
  }
}
