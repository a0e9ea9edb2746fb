/** The SOCKS5-like address codec (section 5 of RFC 1928) that every carrier uses. */
module SocksAddress {
  import opened Bytes
  import opened Streams
  import PreloadConn

  type Bytes4 = s: seq<byte> | |s| == 4 witness [0, 0, 0, 0]
  type Bytes16 = s: seq<byte> | |s| == 16
    witness [0, 0, 0, 0, 0, 0, 0, 0, 0, 0, 0, 0, 0, 0, 0, 0]

  datatype SocketAddress =
    | IPv4(ip4: Bytes4, port: uint16)
    | IPv6(ip6: Bytes16, zone: seq<byte>, port: uint16)
    | Domain(name: seq<byte>, port: uint16)

  const IPV4_TYPE: byte := 1
  const IPV6_TYPE: byte := 4
  const DOMAIN_TYPE: byte := 3

  /** SOCKSLikeAddrSizeInBytes. */
  function AddressSize(a: SocketAddress): (n: nat)
  {
    match a
    case IPv4(_, _) => 1 + 4 + 2
    case IPv6(_, _, _) => 1 + 16 + 2
    case Domain(name, _) => 1 + 1 + |name| + 2
  }

  /** WriteSOCKSLikeAddr: the zone of an IPv6 address is not written, and the
      length byte of a domain is its length truncated to 8 bits. */
  function EncodeAddress(a: SocketAddress): (bs: seq<byte>)
  {
    match a
    case IPv4(ip, port) => [IPV4_TYPE] + ip + PutU16(port)
    case IPv6(ip, _, port) => [IPV6_TYPE] + ip + PutU16(port)
    case Domain(name, port) => [DOMAIN_TYPE, |name| % 256] + name + PutU16(port)
  }

  /** The addresses the wire format can carry. */
  predicate Representable(a: SocketAddress)
  {
    match a
    case IPv4(_, _) => true
    case IPv6(_, zone, _) => zone == []
    case Domain(name, _) => |name| <= 255
  }

  datatype Parsed = Address(addr: SocketAddress, rest: seq<byte>) | Malformed

  /** What ReadSOCKS5Address makes of a byte string. */
  function ParseAddress(bs: seq<byte>): (r: Parsed)
  {
    if |bs| == 0 then Malformed
    else if bs[0] == IPV4_TYPE then
      if |bs| < 7 then Malformed else Address(IPv4(bs[1..5], U16(bs[5..])), bs[7..])
    else if bs[0] == IPV6_TYPE then
      if |bs| < 19 then Malformed else Address(IPv6(bs[1..17], [], U16(bs[17..])), bs[19..])
    else if bs[0] == DOMAIN_TYPE then
      if |bs| < 2 || |bs| < 4 + bs[1] as int then Malformed
      else
        var end := 2 + bs[1] as int;
        Address(Domain(bs[2..end], U16(bs[end..])), bs[end + 2..])
    else Malformed
  }

  /** ReadAddressWithType over a connection: it consumes exactly the address. */
  method ReadAddress(c: PreloadConn.Conn) returns (addr: Option<SocketAddress>)
    requires c.Valid()
    modifies c, c.conn
    ensures c.Valid() && |c.preload| <= |old(c.preload)|
    ensures ParseAddress(old(c.Stream())).Malformed? <==> addr == None
    ensures addr.Some? ==> ParseAddress(old(c.Stream())) == Address(addr.value, c.Stream())
  {
    ghost var all := c.Stream();
    var kind, n, ok := ReadHostSize(c);
    if !ok {
      return None;
    }
    ghost var at := if kind == DOMAIN_TYPE then 2 else 1;
    var host, port, s := ReadHostAndPort(c, n);
    if s != Fine {
      return None;
    }
    assert host == all[at..at + n] && port == U16(all[at + n..]) && c.Stream() == all[at + n + 2..];
    if kind == IPV4_TYPE {
      addr := Some(IPv4(host, port));
    } else if kind == IPV6_TYPE {
      addr := Some(IPv6(host, [], port));
    } else {
      addr := Some(Domain(host, port));
    }
  }

  /** The address type and, from it or from the length byte, the size of the host. */
  method ReadHostSize(c: PreloadConn.Conn) returns (kind: byte, n: nat, ok: bool)
    requires c.Valid()
    modifies c, c.conn
    ensures c.Valid() && |c.preload| <= |old(c.preload)|
    ensures var s := old(c.Stream());
            && (ok <==> s != [] && (s[0] == IPV4_TYPE || s[0] == IPV6_TYPE || (s[0] == DOMAIN_TYPE && |s| > 1)))
            && (ok ==> kind == s[0] && c.Stream() == s[if kind == DOMAIN_TYPE then 2 else 1..])
            && (ok ==> n == if kind == IPV4_TYPE then 4 else if kind == IPV6_TYPE then 16 else s[1] as int)
  {
    kind, n, ok := 0, 0, false;
    var bs, s := c.ReadFull(1);
    if s != Fine {
      return;
    }
    kind := bs[0];
    if kind == IPV4_TYPE {
      n, ok := 4, true;
    } else if kind == IPV6_TYPE {
      n, ok := 16, true;
    } else if kind == DOMAIN_TYPE {
      bs, s := c.ReadFull(1);
      if s == Fine {
        n, ok := bs[0], true;
      }
    }
  }

  method ReadHostAndPort(c: PreloadConn.Conn, n: nat) returns (host: seq<byte>, port: uint16, status: ReadStatus)
    requires c.Valid()
    modifies c, c.conn
    ensures c.Valid() && |c.preload| <= |old(c.preload)|
    ensures status == Fine <==> n + 2 <= |old(c.Stream())|
    ensures status == Fine ==> host == old(c.Stream())[..n] && port == U16(old(c.Stream())[n..])
    ensures status == Fine ==> c.Stream() == old(c.Stream())[n + 2..]
  {
    port := 0;
    host, status := c.ReadFull(n);
    if status == Fine {
      var bs;
      bs, status := c.ReadFull(2);
      if status == Fine {
        port := U16(bs);
      }
    }
  }

  /** The bytes on the wire: type 1, 4 or 3, the host, and the port with its high byte
      first. What is read from them is that address. */
  lemma WireIPv4(ip: Bytes4, high: byte, low: byte, rest: seq<byte>)
    ensures EncodeAddress(IPv4(ip, 256 * high + low)) == [1] + ip + [high, low]
    ensures ParseAddress([1] + ip + [high, low] + rest) == Address(IPv4(ip, 256 * high + low), rest)
  {
    BigEndianPair(high, low, []);
    DecodeEncode(IPv4(ip, 256 * high + low), rest);
  }

  lemma WireIPv6(ip: Bytes16, high: byte, low: byte, rest: seq<byte>)
    ensures EncodeAddress(IPv6(ip, [], 256 * high + low)) == [4] + ip + [high, low]
    ensures ParseAddress([4] + ip + [high, low] + rest) == Address(IPv6(ip, [], 256 * high + low), rest)
  {
    BigEndianPair(high, low, []);
    DecodeEncode(IPv6(ip, [], 256 * high + low), rest);
  }

  lemma WireDomain(name: seq<byte>, high: byte, low: byte, rest: seq<byte>)
    ensures EncodeAddress(Domain(name, 256 * high + low)) == [3, |name| % 256] + name + [high, low]
    ensures |name| <= 255 ==>
      ParseAddress([3, |name|] + name + [high, low] + rest) == Address(Domain(name, 256 * high + low), rest)
  {
    BigEndianPair(high, low, []);
    if |name| <= 255 {
      DecodeEncode(Domain(name, 256 * high + low), rest);
    }
  }

  lemma EncodedSize(a: SocketAddress)
    ensures |EncodeAddress(a)| == AddressSize(a)
    ensures Representable(a) ==> AddressSize(a) <= 259
  {
  }

  /** Decoding undoes encoding exactly for the representable addresses, and
      leaves what follows the address untouched. */
  lemma DecodeEncode(a: SocketAddress, rest: seq<byte>)
    ensures ParseAddress(EncodeAddress(a) + rest) == Address(a, rest) <==> Representable(a)
  {
    match a {
      case IPv4(ip, port) => FieldsOf([IPV4_TYPE], ip, port, rest);
      case IPv6(ip, zone, port) => FieldsOf([IPV6_TYPE], ip, port, rest);
      case Domain(name, port) => DecodeEncodeDomain(name, port, rest);
    }
  }

  lemma FieldsOf(head: seq<byte>, host: seq<byte>, port: uint16, rest: seq<byte>)
    ensures var bs := head + host + PutU16(port) + rest;
            var end := |head| + |host|;
            && bs[|head|..end] == host && U16(bs[end..]) == port && bs[end + 2..] == rest
            && |bs| == end + 2 + |rest| && forall i :: 0 <= i < |head| ==> bs[i] == head[i]
  {
    var bs := head + host + PutU16(port) + rest;
    assert bs[|head| + |host|..] == PutU16(port) + rest;
    U16RoundTrip(port, rest);
  }

  lemma DecodeEncodeDomain(name: seq<byte>, port: uint16, rest: seq<byte>)
    ensures ParseAddress(EncodeAddress(Domain(name, port)) + rest) == Address(Domain(name, port), rest)
       <==> |name| <= 255
  {
    if |name| <= 255 {
      DomainFits(name, port, rest);
    } else {
      DomainWraps(name, port, rest);
    }
  }

  lemma DomainFits(name: seq<byte>, port: uint16, rest: seq<byte>)
    requires |name| <= 255
    ensures ParseAddress(EncodeAddress(Domain(name, port)) + rest) == Address(Domain(name, port), rest)
  {
    FieldsOf([DOMAIN_TYPE, |name|], name, port, rest);
    var bs := EncodeAddress(Domain(name, port)) + rest;
    assert bs[0] == DOMAIN_TYPE && bs[1] == |name|;
  }

  /** A name that is too long is announced with a wrapped length, so another one is read. */
  lemma DomainWraps(name: seq<byte>, port: uint16, rest: seq<byte>)
    requires |name| > 255
    ensures var p := ParseAddress(EncodeAddress(Domain(name, port)) + rest);
            p.Address? ==> p.addr.Domain? && |p.addr.name| < |name|
  {
    var bs := EncodeAddress(Domain(name, port)) + rest;
    assert bs[0] == DOMAIN_TYPE && bs[1] < 256;
  }

  /** Every byte string that parses is the encoding of what it parses to. */
  lemma EncodeDecode(bs: seq<byte>)
    requires ParseAddress(bs).Address?
    ensures EncodeAddress(ParseAddress(bs).addr) + ParseAddress(bs).rest == bs
    ensures Representable(ParseAddress(bs).addr)
  {
    if bs[0] == IPV4_TYPE {
      PartsOf(bs, 1, 5);
    } else if bs[0] == IPV6_TYPE {
      PartsOf(bs, 1, 17);
    } else {
      PartsOf(bs, 2, 2 + bs[1] as int);
    }
  }

  lemma PartsOf(bs: seq<byte>, start: nat, end: nat)
    requires start <= end && end + 2 <= |bs|
    ensures bs[..start] + bs[start..end] + PutU16(U16(bs[end..])) + bs[end + 2..] == bs
    ensures start == 1 ==> bs[..start] == [bs[0]]
    ensures start == 2 ==> bs[..start] == [bs[0], bs[1]]
  {
    U16RoundTrip(0, []);
    assert U16(bs[end..]) == U16(bs[end..end + 2]);
    assert PutU16(U16(bs[end..end + 2])) == bs[end..end + 2];
  }

  /** No encoding is a prefix of another. */
  lemma PrefixFree(a: SocketAddress, b: SocketAddress)
    requires Representable(a) && Representable(b)
    requires EncodeAddress(a) <= EncodeAddress(b)
    ensures a == b
  {
    var tail := EncodeAddress(b)[|EncodeAddress(a)|..];
    assert EncodeAddress(a) + tail == EncodeAddress(b) + [];
    DecodeEncode(a, tail);
    DecodeEncode(b, []);
  }
}
