/** The first request and the first response of a Shadowsocks 2022 connection, as
    functions on byte strings: what is sent, what the peer makes of it, and the
    end-to-end laws for whole streams. */
module ShadowsocksHeaders {
  import opened Bytes
  import opened SocksAddress
  import opened SaltPool
  import opened ShadowsocksWire

  lemma Pow256Of8()
    ensures Pow256(8) == 2 * TWO63
  {
    assert Pow256(4) == 0x1_0000_0000;
    assert Pow256(8) == 256 * (256 * (256 * (256 * Pow256(4))));
  }

  function PutU64(n: uint64): (bs: seq<byte>)
    ensures |bs| == 8
  {
    PutBE(n, 8)
  }

  function U64(bs: seq<byte>): (n: uint64)
    requires |bs| == 8
  {
    Pow256Of8();
    FromBE(bs)
  }

  lemma U64RoundTrip(n: uint64)
    ensures U64(PutU64(n)) == n
  {
    Pow256Of8();
    BigEndianRoundTrip(n, 8);
  }

  /** Four bytes as a number, the highest first. */
  function Word(bs: seq<byte>): (n: nat)
    requires |bs| == 4
  {
    0x100_0000 * bs[0] as nat + 0x1_0000 * bs[1] as nat + 0x100 * bs[2] as nat + bs[3]
  }

  /** The bytes of a timestamp, the highest first. */
  lemma U64Bytes(bs: seq<byte>)
    requires |bs| == 8
    ensures U64(bs) == 0x1_0000_0000 * Word(bs[..4]) + Word(bs[4..])
    ensures PutU64(U64(bs)) == bs
  {
    FromWord(bs[..4]);
    NextDigit(bs, 4);
    NextDigit(bs, 5);
    NextDigit(bs, 6);
    NextDigit(bs, 7);
    assert bs[..8] == bs;
    PutFromBE(bs);
  }

  lemma NextDigit(bs: seq<byte>, n: nat)
    requires n < |bs|
    ensures FromBE(bs[..n + 1]) == 256 * FromBE(bs[..n]) + bs[n]
  {
    assert bs[..n + 1][..n] == bs[..n];
  }

  lemma FromWord(bs: seq<byte>)
    requires |bs| == 4
    ensures FromBE(bs) == Word(bs)
  {
    NextDigit(bs, 0);
    NextDigit(bs, 1);
    NextDigit(bs, 2);
    NextDigit(bs, 3);
    assert bs[..4] == bs && bs[..0] == [];
  }

  lemma {:induction false} PutFromBE(bs: seq<byte>)
    ensures PutBE(FromBE(bs), |bs|) == bs
  {
    if |bs| > 0 {
      PutFromBE(bs[..|bs| - 1]);
    }
  }

  // ------------------------------------------------------------------
  // Fixed-length headers

  /** Request: type, timestamp, length. Response: the request salt sits before the length. */
  function FixedHeader(kind: byte, ts: uint64, echoedSalt: seq<byte>, len: uint16): (h: seq<byte>)
    ensures |h| == FIXED_HEADER + |echoedSalt|
  {
    [kind] + PutU64(ts) + echoedSalt + PutU16(len)
  }

  /** validateFixedHeaderAndReturnLen. */
  function HeaderLength(kind: byte, echoedSalt: seq<byte>, now: int, h: seq<byte>): (len: Option<nat>)
    requires |h| == FIXED_HEADER + |echoedSalt|
  {
    if h[0] != kind then None
    else if !InRange(U64(h[1..TYPE_AND_TIME]), now) then None
    else if h[TYPE_AND_TIME..|h| - LEN_FIELD] != echoedSalt then None
    else Some(U16(h[|h| - LEN_FIELD..]))
  }

  lemma HeaderLengthExactly(kind: byte, salt: seq<byte>, kind': byte, salt': seq<byte>, ts: uint64, len: uint16,
                            now: int)
    requires |salt| == |salt'|
    ensures HeaderLength(kind', salt', now, FixedHeader(kind, ts, salt, len))
         == if kind == kind' && salt == salt' && InRange(ts, now) then Some(len) else None
  {
    var h := FixedHeader(kind, ts, salt, len);
    U64RoundTrip(ts);
    assert h[1..TYPE_AND_TIME] == PutU64(ts);
    assert h[TYPE_AND_TIME..|h| - LEN_FIELD] == salt;
    assert h[|h| - LEN_FIELD..] == PutU16(len) + [];
    U16RoundTrip(len, []);
  }

  /** A whole first message: salt, sealed fixed-length header, and the sealed
      chunk whose length that header announces. */
  function SealFirst(a: Aead, psk: seq<byte>, salt: seq<byte>, kind: byte, ts: uint64,
                     echoedSalt: seq<byte>, v: seq<byte>): (wire: seq<byte>)
  {
    var k := a.derive(psk, salt);
    salt + (a.seal(k, Nonce(0), FixedHeader(kind, ts, echoedSalt, ToU16(|v|))) + a.seal(k, Nonce(1), v))
  }

  // ------------------------------------------------------------------
  // The request

  function RequestBody(addr: SocketAddress, padding: seq<byte>, first: seq<byte>): (v: seq<byte>)
  {
    EncodeAddress(addr) + PutU16(ToU16(|padding|)) + padding + first
  }

  /** The whole first message of a client: salt and the two sealed header chunks. */
  function RequestHead(a: Aead, psk: seq<byte>, salt: seq<byte>, ts: uint64,
                       addr: SocketAddress, padding: seq<byte>, first: seq<byte>): (wire: seq<byte>)
  {
    SealFirst(a, psk, salt, CLIENT_STREAM, ts, [], RequestBody(addr, padding, first))
  }

  /** The layout of a request: the salt; type 0, the time and the length of the rest,
      sealed under nonce 0; address, padding's length, padding and payload, sealed under
      nonce 1. The subkey is that of the salt. */
  lemma RequestLayout(a: Aead, psk: seq<byte>, salt: seq<byte>, time: seq<byte>, addr: SocketAddress,
                      padding: seq<byte>, first: seq<byte>, p1: byte, p0: byte, l1: byte, l0: byte)
    requires |time| == 8 && |padding| == 256 * p1 + p0
    requires |EncodeAddress(addr)| + 2 + |padding| + |first| == 256 * l1 + l0
    ensures RequestHead(a, psk, salt, U64(time), addr, padding, first)
         == salt + (a.seal(a.derive(psk, salt), [0, 0, 0, 0, 0, 0, 0, 0, 0, 0, 0, 0], [0] + time + [l1, l0])
                    + a.seal(a.derive(psk, salt), [1, 0, 0, 0, 0, 0, 0, 0, 0, 0, 0, 0],
                             EncodeAddress(addr) + [p1, p0] + padding + first))
  {
    BigEndianPair(p1, p0, []);
    BigEndianPair(l1, l0, []);
    U64Bytes(time);
    FirstNonces();
    assert [0] + time + [] + [l1, l0] == [0] + time + [l1, l0];
  }

  lemma FirstNonces()
    ensures Nonce(0) == [0, 0, 0, 0, 0, 0, 0, 0, 0, 0, 0, 0]
    ensures Nonce(1) == [1, 0, 0, 0, 0, 0, 0, 0, 0, 0, 0, 0]
  {
    PutLEZero(12);
    PutLEZero(11);
    assert Nonce(1) == [1] + PutLE(0, 11);
  }

  datatype Body = Body(addr: SocketAddress, payload: seq<byte>)

  /** What the server makes of the variable-length header. */
  function ParseBody(v: seq<byte>): (b: Option<Body>)
  {
    ParseAfterAddress(ParseAddress(v))
  }

  function ParseAfterAddress(p: Parsed): (b: Option<Body>)
  {
    match p
    case Malformed => None
    case Address(addr, rest) =>
      if |rest| <= LEN_FIELD then None
      else if |rest| - LEN_FIELD < U16(rest) then None
      else Some(Body(addr, rest[LEN_FIELD + U16(rest)..]))
  }

  /** A first message that opened: its subkey, the header fields that matter and
      the rest of the stream. */
  datatype Opened<+T> = Opened(key: Key, head: T, rest: seq<byte>)

  /** Opens and checks the salt-and-fixed-header block; gives the announced length. */
  function FixedAt(a: Aead, psk: seq<byte>, kind: byte, echoedSalt: seq<byte>, now: int, block: seq<byte>)
    : (len: Option<nat>)
    requires |psk| <= |block|
  {
    match a.open(a.derive(psk, block[..|psk|]), Nonce(0), block[|psk|..])
    case None => None
    case Some(h) => if |h| != FIXED_HEADER + |echoedSalt| then None else HeaderLength(kind, echoedSalt, now, h)
  }

  /** Opens salt, fixed header and the chunk whose length the fixed header gives. */
  function OpenFirst(a: Aead, psk: seq<byte>, kind: byte, echoedSalt: seq<byte>, now: int, wire: seq<byte>)
    : (r: Option<Opened<seq<byte>>>)
  {
    var bodyStart := |psk| + FIXED_HEADER + |echoedSalt| + TAG;
    if |wire| < bodyStart then None else OpenBlock(a, psk, kind, echoedSalt, now, wire[..bodyStart], wire[bodyStart..])
  }

  /** The same for a wire that is split behind salt and fixed header. */
  function OpenBlock(a: Aead, psk: seq<byte>, kind: byte, echoedSalt: seq<byte>, now: int, block: seq<byte>,
                     rest: seq<byte>)
    : (r: Option<Opened<seq<byte>>>)
    requires |psk| <= |block|
  {
    OpenBehind(a, a.derive(psk, block[..|psk|]), FixedAt(a, psk, kind, echoedSalt, now, block), rest)
  }

  /** Opens the chunk behind a header that announced `len` bytes. */
  function OpenBehind(a: Aead, k: Key, len: Option<nat>, rest: seq<byte>): (r: Option<Opened<seq<byte>>>)
  {
    if len == None then None
    else
      match PayloadAt(a, k, 1, len.value, rest)
      case None => None
      case Some(v) => Some(Opened(k, v, rest[len.value + TAG..]))
  }

  lemma OpenFirstSplit(a: Aead, psk: seq<byte>, kind: byte, echoedSalt: seq<byte>, now: int,
                       block: seq<byte>, rest: seq<byte>)
    requires |block| == |psk| + FIXED_HEADER + |echoedSalt| + TAG
    ensures OpenFirst(a, psk, kind, echoedSalt, now, block + rest)
         == OpenBlock(a, psk, kind, echoedSalt, now, block, rest)
  {
    SplitAt(block, rest);
    assert (block + rest)[..|psk|] == block[..|psk|];
  }

  /** The first request as the server reads it. */
  function OpenRequest(a: Aead, psk: seq<byte>, now: int, wire: seq<byte>): (r: Option<Opened<Body>>)
  {
    AsRequest(OpenFirst(a, psk, CLIENT_STREAM, [], now, wire))
  }

  function AsRequest(first: Option<Opened<seq<byte>>>): (r: Option<Opened<Body>>)
  {
    match first
    case None => None
    case Some(o) =>
      match ParseBody(o.head)
      case None => None
      case Some(b) => Some(Opened(o.key, b, o.rest))
  }

  lemma OpenRequestSplit(a: Aead, psk: seq<byte>, now: int, block: seq<byte>, rest: seq<byte>)
    requires |block| == |psk| + FIXED_HEADER + TAG
    ensures OpenRequest(a, psk, now, block + rest) == AsRequest(OpenBlock(a, psk, CLIENT_STREAM, [], now, block, rest))
  {
    OpenFirstSplit(a, psk, CLIENT_STREAM, [], now, block, rest);
  }

  /** The address and every byte the server can ever deliver from `wire`. */
  function ServerRecovers(a: Aead, psk: seq<byte>, now: int, wire: seq<byte>): (r: Option<Body>)
  {
    match OpenRequest(a, psk, now, wire)
    case None => None
    case Some(o) => Some(Body(o.head.addr, o.head.payload + Recover(a, o.key, 2, o.rest)))
  }

  /** Reading that stream to its end looks like a clean end to the server. */
  predicate ServerEnds(a: Aead, psk: seq<byte>, now: int, wire: seq<byte>)
  {
    var o := OpenRequest(a, psk, now, wire);
    o.Some? && EndsCleanly(a, o.value.key, 2, o.value.rest)
  }

  /** The server reads back the address and first payload exactly for
      representable addresses and headers that carry padding or payload. */
  lemma BodyRoundTrip(addr: SocketAddress, padding: seq<byte>, first: seq<byte>)
    requires |padding| <= MAX_CHUNK
    ensures ParseBody(RequestBody(addr, padding, first)) == Some(Body(addr, first))
       <==> Representable(addr) && |padding| + |first| > 0
  {
    var v, tail := RequestBody(addr, padding, first), PutU16(|padding|) + padding + first;
    assert v == EncodeAddress(addr) + tail;
    DecodeEncode(addr, tail);
    AfterAddressRoundTrip(addr, padding, first);
    if !Representable(addr) && ParseBody(v).Some? {
      EncodeDecode(v);
    }
  }

  /** Nothing else parses: a variable-length header that is accepted is an address, some
      padding and a payload, not both of them empty. */
  lemma ParsedBodyIsRequest(v: seq<byte>) returns (padding: seq<byte>)
    requires ParseBody(v).Some?
    ensures v == RequestBody(ParseBody(v).value.addr, padding, ParseBody(v).value.payload)
    ensures |padding| + |ParseBody(v).value.payload| > 0 && |padding| <= 65535
  {
    var rest := ParseAddress(v).rest;
    EncodeDecode(v);
    padding := RestIsBody(ParseAddress(v).addr, rest);
    BehindAddress(EncodeAddress(ParseAddress(v).addr), PutU16(|padding|), padding, ParseBody(v).value.payload);
  }

  lemma RestIsBody(addr: SocketAddress, rest: seq<byte>) returns (padding: seq<byte>)
    requires ParseAfterAddress(Address(addr, rest)).Some?
    ensures var b := ParseAfterAddress(Address(addr, rest)).value;
            b.addr == addr && rest == PutU16(ToU16(|padding|)) + padding + b.payload && |padding| + |b.payload| > 0
    ensures |padding| <= 65535
  {
    var n := U16(rest);
    padding := rest[2..2 + n];
    assert U16(rest[..2]) == n && PutU16(U16(rest[..2])) == rest[..2] by {
      U16RoundTrip(0, []);
    }
  }

  lemma BehindAddress(a: seq<byte>, b: seq<byte>, c: seq<byte>, d: seq<byte>)
    ensures a + (b + c + d) == a + b + c + d
  {
  }

  lemma AfterAddressRoundTrip(addr: SocketAddress, padding: seq<byte>, first: seq<byte>)
    requires |padding| <= MAX_CHUNK
    ensures ParseAfterAddress(Address(addr, PutU16(|padding|) + padding + first))
         == if |padding| + |first| > 0 then Some(Body(addr, first)) else None
  {
    var tail := PutU16(|padding|) + padding + first;
    assert tail == PutU16(|padding|) + (padding + first);
    U16RoundTrip(|padding|, padding + first);
    assert tail[LEN_FIELD + |padding|..] == first;
  }

  /** A first message cut short opens to nothing. */
  lemma FirstCut(a: Aead, psk: seq<byte>, salt: seq<byte>, kind: byte, echoed: seq<byte>, ts: uint64,
                 v: seq<byte>, now: int, cut: nat)
    requires Lawful(a) && |salt| == |psk| && |v| <= MAX_CHUNK
    requires cut < |SealFirst(a, psk, salt, kind, ts, echoed, v)|
    ensures OpenFirst(a, psk, kind, echoed, now, SealFirst(a, psk, salt, kind, ts, echoed, v)[..cut]) == None
  {
    var k := a.derive(psk, salt);
    var fixed := FixedHeader(kind, ts, echoed, |v|);
    var h, b := a.seal(k, Nonce(0), fixed), a.seal(k, Nonce(1), v);
    assert SealLaw(a, k, Nonce(0), fixed) && SealLaw(a, k, Nonce(1), v);
    if cut >= |psk| + |h| {
      Assoc(salt, h, b);
      TakeBehind(salt + h, b, cut);
      OpenFirstSplit(a, psk, kind, echoed, now, salt + h, b[..cut - |psk| - |h|]);
      FixedRoundTrip(a, psk, salt, kind, echoed, ts, |v|, now);
    }
  }

  lemma FixedRoundTrip(a: Aead, psk: seq<byte>, salt: seq<byte>, kind: byte, echoed: seq<byte>, ts: uint64,
                       len: uint16, now: int)
    requires Lawful(a) && |salt| == |psk|
    ensures FixedAt(a, psk, kind, echoed, now,
                    salt + a.seal(a.derive(psk, salt), Nonce(0), FixedHeader(kind, ts, echoed, len)))
         == if InRange(ts, now) then Some(len) else None
  {
    var h := a.seal(a.derive(psk, salt), Nonce(0), FixedHeader(kind, ts, echoed, len));
    assert SealLaw(a, a.derive(psk, salt), Nonce(0), FixedHeader(kind, ts, echoed, len));
    SplitAt(salt, h);
    HeaderLengthExactly(kind, echoed, kind, echoed, ts, len, now);
  }

  /** A whole first message opens to what was sealed, exactly inside the time window. */
  lemma FirstWhole(a: Aead, psk: seq<byte>, salt: seq<byte>, kind: byte, echoed: seq<byte>, ts: uint64,
                   v: seq<byte>, now: int, rest: seq<byte>)
    requires Lawful(a) && |salt| == |psk| && |v| <= MAX_CHUNK
    ensures OpenFirst(a, psk, kind, echoed, now, SealFirst(a, psk, salt, kind, ts, echoed, v) + rest)
         == if InRange(ts, now) then Some(Opened(a.derive(psk, salt), v, rest)) else None
  {
    var k := a.derive(psk, salt);
    var fixed := FixedHeader(kind, ts, echoed, |v|);
    var h, b := a.seal(k, Nonce(0), fixed), a.seal(k, Nonce(1), v);
    assert SealLaw(a, k, Nonce(0), fixed) && SealLaw(a, k, Nonce(1), v);
    Assoc(salt, h, b);
    Assoc(salt + h, b, rest);
    OpenFirstSplit(a, psk, kind, echoed, now, salt + h, b + rest);
    FixedRoundTrip(a, psk, salt, kind, echoed, ts, |v|, now);
    SplitAt(salt, h);
    SplitAt(b, rest);
  }

  lemma RequestOpens(a: Aead, psk: seq<byte>, salt: seq<byte>, ts: uint64, now: int, addr: SocketAddress,
                     padding: seq<byte>, first: seq<byte>, rest: seq<byte>)
    requires Lawful(a) && |salt| == |psk|
    requires Representable(addr) && |padding| + |first| > 0 && InRange(ts, now)
    requires |padding| <= MAX_CHUNK && |RequestBody(addr, padding, first)| <= MAX_CHUNK
    ensures OpenRequest(a, psk, now, RequestHead(a, psk, salt, ts, addr, padding, first) + rest)
         == Some(Opened(a.derive(psk, salt), Body(addr, first), rest))
  {
    FirstWhole(a, psk, salt, CLIENT_STREAM, [], ts, RequestBody(addr, padding, first), now, rest);
    BodyRoundTrip(addr, padding, first);
  }

  /** Of chunks whose wire is cut after `cut` bytes, a reader recovers the payload
      of those that arrived whole: a prefix, and everything if nothing is cut. */
  lemma {:induction false} TailRecovers(a: Aead, k: Key, chunks: seq<seq<byte>>, cut: nat)
    requires Lawful(a) && ChunkSized(chunks) && cut <= |Chunks(a, k, 2, chunks)|
    ensures Recover(a, k, 2, Chunks(a, k, 2, chunks)[..cut]) == WholePayload(chunks, cut)
  {
    WholeRecovered(a, k, 2, chunks, cut);
  }

  /** Their payload is a prefix of all there is, and all of it if nothing is cut. */
  lemma {:induction false} WholeIsPrefix(chunks: seq<seq<byte>>, cut: nat)
    ensures WholePayload(chunks, cut) <= Flatten(chunks)
    ensures WholePayload(chunks, ChunksSize(chunks)) == Flatten(chunks)
  {
    PayloadOfWhole(chunks, cut);
    FlattenPrefix(chunks, WholeChunks(chunks, cut));
    PayloadOfWhole(chunks, ChunksSize(chunks));
    WholeSize(chunks);
    assert chunks[..|chunks|] == chunks;
  }

  /** End to end, request direction: for every address, first payload, padding
      and list of chunks, from a stream cut anywhere behind its first message the
      server recovers the address and the payload of the chunks that arrived whole. */
  lemma {:induction false} RequestEndToEnd(a: Aead, psk: seq<byte>, salt: seq<byte>, ts: uint64, now: int,
      addr: SocketAddress, padding: seq<byte>, first: seq<byte>, chunks: seq<seq<byte>>, cut: nat)
    requires Lawful(a) && |salt| == |psk| && ChunkSized(chunks)
    requires Representable(addr) && |padding| + |first| > 0 && InRange(ts, now)
    requires |padding| <= MAX_CHUNK && |RequestBody(addr, padding, first)| <= MAX_CHUNK
    requires cut <= |Chunks(a, a.derive(psk, salt), 2, chunks)|
    ensures ServerRecovers(a, psk, now, RequestHead(a, psk, salt, ts, addr, padding, first)
                                        + Chunks(a, a.derive(psk, salt), 2, chunks)[..cut])
         == Some(Body(addr, first + WholePayload(chunks, cut)))
    ensures AtSeam(chunks, cut) <==>
            ServerEnds(a, psk, now, RequestHead(a, psk, salt, ts, addr, padding, first)
                                    + Chunks(a, a.derive(psk, salt), 2, chunks)[..cut])
  {
    CutUnnoticedExactly(a, a.derive(psk, salt), 2, chunks, cut);
    RequestOpens(a, psk, salt, ts, now, addr, padding, first, Chunks(a, a.derive(psk, salt), 2, chunks)[..cut]);
    TailRecovers(a, a.derive(psk, salt), chunks, cut);
  }

  /** A request cut inside its first message yields nothing. */
  lemma RequestCutInHead(a: Aead, psk: seq<byte>, salt: seq<byte>, ts: uint64, now: int,
      addr: SocketAddress, padding: seq<byte>, first: seq<byte>, cut: nat)
    requires Lawful(a) && |salt| == |psk|
    requires |RequestBody(addr, padding, first)| <= MAX_CHUNK
    requires cut < |RequestHead(a, psk, salt, ts, addr, padding, first)|
    ensures ServerRecovers(a, psk, now, RequestHead(a, psk, salt, ts, addr, padding, first)[..cut]) == None
  {
    FirstCut(a, psk, salt, CLIENT_STREAM, [], ts, RequestBody(addr, padding, first), now, cut);
  }

  lemma {:induction false} FlattenPrefix(chunks: seq<seq<byte>>, n: nat)
    requires n <= |chunks|
    ensures Flatten(chunks[..n]) <= Flatten(chunks)
    ensures Flatten(chunks) == Flatten(chunks[..n]) + Flatten(chunks[n..])
  {
    FlattenAppend(chunks[..n], chunks[n..]);
    assert chunks[..n] + chunks[n..] == chunks;
  }

  // ------------------------------------------------------------------
  // The response

  /** The whole first message of a server. */
  function ResponseHead(a: Aead, psk: seq<byte>, serverSalt: seq<byte>, ts: uint64,
                        clientSalt: seq<byte>, first: seq<byte>): (wire: seq<byte>)
  {
    SealFirst(a, psk, serverSalt, SERVER_STREAM, ts, clientSalt, first)
  }

  /** The layout of a response: a salt; type 1, the time, the request's salt and the
      payload's length, sealed under nonce 0; and the payload, sealed under nonce 1. */
  lemma ResponseLayout(a: Aead, psk: seq<byte>, serverSalt: seq<byte>, time: seq<byte>, clientSalt: seq<byte>,
                       first: seq<byte>, l1: byte, l0: byte)
    requires |time| == 8 && |first| == 256 * l1 + l0
    ensures ResponseHead(a, psk, serverSalt, U64(time), clientSalt, first)
         == serverSalt + (a.seal(a.derive(psk, serverSalt), [0, 0, 0, 0, 0, 0, 0, 0, 0, 0, 0, 0],
                                 [1] + time + clientSalt + [l1, l0])
                          + a.seal(a.derive(psk, serverSalt), [1, 0, 0, 0, 0, 0, 0, 0, 0, 0, 0, 0], first))
  {
    BigEndianPair(l1, l0, []);
    U64Bytes(time);
    FirstNonces();
  }

  /** Every byte a client that sent `clientSalt` can ever deliver from `wire`. */
  function ClientRecovers(a: Aead, psk: seq<byte>, clientSalt: seq<byte>, now: int, wire: seq<byte>)
    : (r: Option<seq<byte>>)
  {
    match OpenFirst(a, psk, SERVER_STREAM, clientSalt, now, wire)
    case None => None
    case Some(o) => Some(o.head + Recover(a, o.key, 2, o.rest))
  }

  /** Reading that stream to its end looks like a clean end to the client - as it does
      when the wire holds nothing behind a fixed-length header that is fine. */
  predicate ClientEnds(a: Aead, psk: seq<byte>, clientSalt: seq<byte>, now: int, wire: seq<byte>)
  {
    var bodyStart := |psk| + FIXED_HEADER + |clientSalt| + TAG;
    |wire| >= bodyStart && BlockEnds(a, psk, SERVER_STREAM, clientSalt, now, wire[..bodyStart], wire[bodyStart..])
  }

  predicate BlockEnds(a: Aead, psk: seq<byte>, kind: byte, echoedSalt: seq<byte>, now: int, block: seq<byte>,
                      rest: seq<byte>)
    requires |psk| <= |block|
  {
    match OpenBlock(a, psk, kind, echoedSalt, now, block, rest)
    case Some(o) => EndsCleanly(a, o.key, 2, o.rest)
    case None => rest == [] && FixedAt(a, psk, kind, echoedSalt, now, block).Some?
  }

  lemma ClientEndsSplit(a: Aead, psk: seq<byte>, clientSalt: seq<byte>, now: int, block: seq<byte>, rest: seq<byte>)
    requires |block| == |psk| + FIXED_HEADER + |clientSalt| + TAG
    ensures ClientEnds(a, psk, clientSalt, now, block + rest)
       <==> BlockEnds(a, psk, SERVER_STREAM, clientSalt, now, block, rest)
  {
    SplitAt(block, rest);
  }

  /** End to end, response direction. */
  lemma {:induction false} ResponseEndToEnd(a: Aead, psk: seq<byte>, serverSalt: seq<byte>, clientSalt: seq<byte>,
      ts: uint64, now: int, first: seq<byte>, chunks: seq<seq<byte>>, cut: nat)
    requires Lawful(a) && |serverSalt| == |psk| && |first| <= MAX_CHUNK && ChunkSized(chunks) && InRange(ts, now)
    requires cut <= |Chunks(a, a.derive(psk, serverSalt), 2, chunks)|
    ensures ClientRecovers(a, psk, clientSalt, now, ResponseHead(a, psk, serverSalt, ts, clientSalt, first)
                                                    + Chunks(a, a.derive(psk, serverSalt), 2, chunks)[..cut])
         == Some(first + WholePayload(chunks, cut))
    ensures AtSeam(chunks, cut) <==>
            ClientEnds(a, psk, clientSalt, now, ResponseHead(a, psk, serverSalt, ts, clientSalt, first)
                                                + Chunks(a, a.derive(psk, serverSalt), 2, chunks)[..cut])
  {
    CutUnnoticedExactly(a, a.derive(psk, serverSalt), 2, chunks, cut);
    FirstWhole(a, psk, serverSalt, SERVER_STREAM, clientSalt, ts, first, now,
               Chunks(a, a.derive(psk, serverSalt), 2, chunks)[..cut]);
    TailRecovers(a, a.derive(psk, serverSalt), chunks, cut);
  }

  /** A response cut inside its first message yields nothing. */
  lemma ResponseCutInHead(a: Aead, psk: seq<byte>, serverSalt: seq<byte>, clientSalt: seq<byte>,
      ts: uint64, now: int, first: seq<byte>, cut: nat)
    requires Lawful(a) && |serverSalt| == |psk| && |first| <= MAX_CHUNK
    requires cut < |ResponseHead(a, psk, serverSalt, ts, clientSalt, first)|
    ensures var head := ResponseHead(a, psk, serverSalt, ts, clientSalt, first);
            ClientRecovers(a, psk, clientSalt, now, head[..cut]) == None
  {
    FirstCut(a, psk, serverSalt, SERVER_STREAM, clientSalt, ts, first, now, cut);
  }
}
