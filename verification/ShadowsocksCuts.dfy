/** Whole Shadowsocks wires that end early: what the peer recovers from a wire cut at
    any byte, and where the cut goes unnoticed. */
module ShadowsocksCuts {
  import opened Bytes
  import opened SocksAddress
  import opened SaltPool
  import opened ShadowsocksWire
  import opened ShadowsocksHeaders

  // ------------------------------------------------------------------
  // The request

  function RequestWire(a: Aead, psk: seq<byte>, salt: seq<byte>, ts: uint64, addr: SocketAddress,
                       padding: seq<byte>, first: seq<byte>, chunks: seq<seq<byte>>): (wire: seq<byte>)
  {
    RequestHead(a, psk, salt, ts, addr, padding, first) + Chunks(a, a.derive(psk, salt), 2, chunks)
  }

  lemma RequestHeadSized(a: Aead, psk: seq<byte>, salt: seq<byte>, ts: uint64, addr: SocketAddress,
                         padding: seq<byte>, first: seq<byte>)
    requires Lawful(a)
    ensures |RequestHead(a, psk, salt, ts, addr, padding, first)| > |salt| + FIXED_HEADER + TAG
    ensures RequestHead(a, psk, salt, ts, addr, padding, first)[..|salt|] == salt
  {
    var v := RequestBody(addr, padding, first);
    var header, k := FixedHeader(CLIENT_STREAM, ts, [], ToU16(|v|)), a.derive(psk, salt);
    assert SealLaw(a, k, Nonce(0), header) && SealLaw(a, k, Nonce(1), v);
  }

  /** What the server gets out of a wire, and whether its end looks clean. */
  ghost predicate ServerGets(a: Aead, psk: seq<byte>, now: int, wire: seq<byte>, got: Option<Body>, ends: bool)
  {
    ServerRecovers(a, psk, now, wire) == got && ServerEnds(a, psk, now, wire) == ends
  }

  lemma {:induction false} RequestInside(a: Aead, psk: seq<byte>, salt: seq<byte>, ts: uint64, now: int,
                                         addr: SocketAddress, padding: seq<byte>, first: seq<byte>,
                                         chunks: seq<seq<byte>>, cut: nat)
    requires Lawful(a) && |salt| == |psk| && |RequestBody(addr, padding, first)| <= MAX_CHUNK
    requires cut < |RequestHead(a, psk, salt, ts, addr, padding, first)|
    ensures var wire := RequestWire(a, psk, salt, ts, addr, padding, first, chunks);
            cut < |wire| && ServerGets(a, psk, now, wire[..cut], None, false)
  {
    var head := RequestHead(a, psk, salt, ts, addr, padding, first);
    TakeInside(head, Chunks(a, a.derive(psk, salt), 2, chunks), cut);
    RequestCutInHead(a, psk, salt, ts, now, addr, padding, first, cut);
  }

  lemma {:induction false} RequestTail(a: Aead, psk: seq<byte>, salt: seq<byte>, ts: uint64, now: int,
                                       addr: SocketAddress, padding: seq<byte>, first: seq<byte>,
                                       chunks: seq<seq<byte>>, cut: nat)
    requires Lawful(a) && |salt| == |psk| && ChunkSized(chunks) && Representable(addr) && InRange(ts, now)
    requires |padding| + |first| > 0 && |padding| <= MAX_CHUNK && |RequestBody(addr, padding, first)| <= MAX_CHUNK
    requires cut <= |Chunks(a, a.derive(psk, salt), 2, chunks)|
    ensures var head, tail := RequestHead(a, psk, salt, ts, addr, padding, first),
                              Chunks(a, a.derive(psk, salt), 2, chunks);
            ServerGets(a, psk, now, head + tail[..cut],
                       Some(Body(addr, first + WholePayload(chunks, cut))), AtSeam(chunks, cut))
  {
    RequestEndToEnd(a, psk, salt, ts, now, addr, padding, first, chunks, cut);
  }

  lemma {:induction false} RequestBehind(a: Aead, psk: seq<byte>, salt: seq<byte>, ts: uint64, now: int,
                                         addr: SocketAddress, padding: seq<byte>, first: seq<byte>,
                                         chunks: seq<seq<byte>>, cut: nat)
    requires Lawful(a) && |salt| == |psk| && ChunkSized(chunks) && Representable(addr) && InRange(ts, now)
    requires |padding| + |first| > 0 && |padding| <= MAX_CHUNK && |RequestBody(addr, padding, first)| <= MAX_CHUNK
    requires |RequestHead(a, psk, salt, ts, addr, padding, first)| <= cut
    requires cut <= |RequestWire(a, psk, salt, ts, addr, padding, first, chunks)|
    ensures var wire := RequestWire(a, psk, salt, ts, addr, padding, first, chunks);
            var behind := cut - |RequestHead(a, psk, salt, ts, addr, padding, first)|;
            ServerGets(a, psk, now, wire[..cut],
                       Some(Body(addr, first + WholePayload(chunks, behind))), AtSeam(chunks, behind))
  {
    var head, tail := RequestHead(a, psk, salt, ts, addr, padding, first), Chunks(a, a.derive(psk, salt), 2, chunks);
    var behind := cut - |head|;
    assert (head + tail)[..cut] == head + tail[..behind] by {
      TakeBehind(head, tail, cut);
    }
    RequestTail(a, psk, salt, ts, now, addr, padding, first, chunks, behind);
  }

  /** The request direction, cut at any byte: nothing inside the first message; behind it,
      the address and the payload of every whole chunk, and a clean end exactly at a seam. */
  lemma {:induction false} RequestCutExactly(a: Aead, psk: seq<byte>, salt: seq<byte>, ts: uint64, now: int,
                                             addr: SocketAddress, padding: seq<byte>, first: seq<byte>,
                                             chunks: seq<seq<byte>>, cut: nat)
    requires Lawful(a) && |salt| == |psk| && ChunkSized(chunks) && Representable(addr) && InRange(ts, now)
    requires |padding| + |first| > 0 && |padding| <= MAX_CHUNK && |RequestBody(addr, padding, first)| <= MAX_CHUNK
    requires cut <= |RequestWire(a, psk, salt, ts, addr, padding, first, chunks)|
    ensures var wire := RequestWire(a, psk, salt, ts, addr, padding, first, chunks);
            var head := |RequestHead(a, psk, salt, ts, addr, padding, first)|;
            ServerGets(a, psk, now, wire[..cut],
                       RequestGot(head, addr, first, chunks, cut), RequestSeam(head, chunks, cut))
  {
    if cut < |RequestHead(a, psk, salt, ts, addr, padding, first)| {
      RequestInside(a, psk, salt, ts, now, addr, padding, first, chunks, cut);
    } else {
      RequestBehind(a, psk, salt, ts, now, addr, padding, first, chunks, cut);
    }
  }

  /** What the first `cut` bytes of a request, whose head takes `head` bytes, hold for the server. */
  function RequestGot(head: nat, addr: SocketAddress, first: seq<byte>, chunks: seq<seq<byte>>, cut: nat)
    : (got: Option<Body>)
  {
    if cut < head then None else Some(Body(addr, first + WholePayload(chunks, cut - head)))
  }

  /** Where a request wire may be cut unnoticed. */
  predicate RequestSeam(head: nat, chunks: seq<seq<byte>>, cut: nat)
  {
    cut >= head && AtSeam(chunks, cut - head)
  }

  // ------------------------------------------------------------------
  // The response

  function ResponseWire(a: Aead, psk: seq<byte>, serverSalt: seq<byte>, ts: uint64, clientSalt: seq<byte>,
                        first: seq<byte>, chunks: seq<seq<byte>>): (wire: seq<byte>)
  {
    ResponseHead(a, psk, serverSalt, ts, clientSalt, first) + Chunks(a, a.derive(psk, serverSalt), 2, chunks)
  }

  /** How long the salt and the sealed fixed-length header of a response are. */
  function ResponseFixedSize(psk: seq<byte>, clientSalt: seq<byte>): (n: nat)
  {
    |psk| + FIXED_HEADER + |clientSalt| + TAG
  }

  /** Where a response wire may be cut unnoticed: right behind the fixed-length header,
      whose salt and header take `fixed` bytes, or at a seam behind the first message. */
  predicate ResponseSeam(fixed: nat, first: nat, chunks: seq<seq<byte>>, cut: nat)
  {
    var head := fixed + first + TAG;
    cut == fixed || (cut >= head && AtSeam(chunks, cut - head))
  }

  /** Cut inside its first message, a response looks ended exactly right behind the
      fixed-length header. */
  lemma HeadCutExactly(a: Aead, psk: seq<byte>, serverSalt: seq<byte>, clientSalt: seq<byte>, ts: uint64, now: int,
                       first: seq<byte>, cut: nat)
    requires Lawful(a) && |serverSalt| == |psk| && |first| <= MAX_CHUNK && InRange(ts, now)
    requires cut < |ResponseHead(a, psk, serverSalt, ts, clientSalt, first)|
    ensures var head, fixed := ResponseHead(a, psk, serverSalt, ts, clientSalt, first),
                               |psk| + FIXED_HEADER + |clientSalt| + TAG;
            ClientEnds(a, psk, clientSalt, now, head[..cut]) <==> cut == fixed
  {
    var k := a.derive(psk, serverSalt);
    var header := FixedHeader(SERVER_STREAM, ts, clientSalt, |first|);
    var h, b := a.seal(k, Nonce(0), header), a.seal(k, Nonce(1), first);
    assert SealLaw(a, k, Nonce(0), header);
    var fixed := |serverSalt + h|;
    Assoc(serverSalt, h, b);
    if cut >= fixed {
      TakeBehind(serverSalt + h, b, cut);
      ClientEndsSplit(a, psk, clientSalt, now, serverSalt + h, b[..cut - fixed]);
      OpenFirstSplit(a, psk, SERVER_STREAM, clientSalt, now, serverSalt + h, b[..cut - fixed]);
      FirstCut(a, psk, serverSalt, SERVER_STREAM, clientSalt, ts, first, now, cut);
      FixedRoundTrip(a, psk, serverSalt, SERVER_STREAM, clientSalt, ts, |first|, now);
    }
  }

  lemma ResponseHeadSized(a: Aead, psk: seq<byte>, serverSalt: seq<byte>, ts: uint64, clientSalt: seq<byte>,
                          first: seq<byte>)
    requires Lawful(a)
    ensures |ResponseHead(a, psk, serverSalt, ts, clientSalt, first)|
         == |serverSalt| + FIXED_HEADER + |clientSalt| + TAG + |first| + TAG
  {
    var header, k := FixedHeader(SERVER_STREAM, ts, clientSalt, ToU16(|first|)), a.derive(psk, serverSalt);
    assert SealLaw(a, k, Nonce(0), header) && SealLaw(a, k, Nonce(1), first);
  }

  /** What the client gets out of a wire, and whether its end looks clean. */
  ghost predicate ClientGets(a: Aead, psk: seq<byte>, clientSalt: seq<byte>, now: int, wire: seq<byte>,
                             got: Option<seq<byte>>, ends: bool)
  {
    ClientRecovers(a, psk, clientSalt, now, wire) == got && ClientEnds(a, psk, clientSalt, now, wire) == ends
  }

  lemma ResponseInside(a: Aead, psk: seq<byte>, serverSalt: seq<byte>, clientSalt: seq<byte>, ts: uint64, now: int,
                       first: seq<byte>, cut: nat)
    requires Lawful(a) && |serverSalt| == |psk| && |first| <= MAX_CHUNK && InRange(ts, now)
    requires cut < |ResponseHead(a, psk, serverSalt, ts, clientSalt, first)|
    ensures var head := ResponseHead(a, psk, serverSalt, ts, clientSalt, first);
            ClientGets(a, psk, clientSalt, now, head[..cut], None, cut == ResponseFixedSize(psk, clientSalt))
  {
    ResponseCutInHead(a, psk, serverSalt, clientSalt, ts, now, first, cut);
    HeadCutExactly(a, psk, serverSalt, clientSalt, ts, now, first, cut);
  }

  lemma {:induction false} ResponseBehind(a: Aead, psk: seq<byte>, serverSalt: seq<byte>, clientSalt: seq<byte>,
                                          ts: uint64, now: int, first: seq<byte>, chunks: seq<seq<byte>>, cut: nat)
    requires Lawful(a) && |serverSalt| == |psk| && |first| <= MAX_CHUNK && ChunkSized(chunks) && InRange(ts, now)
    requires cut <= |Chunks(a, a.derive(psk, serverSalt), 2, chunks)|
    ensures var head, tail := ResponseHead(a, psk, serverSalt, ts, clientSalt, first),
                              Chunks(a, a.derive(psk, serverSalt), 2, chunks);
            ClientGets(a, psk, clientSalt, now, head + tail[..cut],
                       Some(first + WholePayload(chunks, cut)), AtSeam(chunks, cut))
  {
    ResponseEndToEnd(a, psk, serverSalt, clientSalt, ts, now, first, chunks, cut);
  }

  /** The response direction, cut at any byte: nothing inside the first message; behind it
      the payload of every whole chunk; and a clean end exactly right behind the fixed-length
      header and at the seams behind the first message. */
  lemma {:induction false} ResponseCutExactly(a: Aead, psk: seq<byte>, serverSalt: seq<byte>, clientSalt: seq<byte>,
                                              ts: uint64, now: int, first: seq<byte>, chunks: seq<seq<byte>>, cut: nat)
    requires Lawful(a) && |serverSalt| == |psk| && |first| <= MAX_CHUNK && ChunkSized(chunks) && InRange(ts, now)
    requires cut <= |ResponseWire(a, psk, serverSalt, ts, clientSalt, first, chunks)|
    ensures var wire, fixed := ResponseWire(a, psk, serverSalt, ts, clientSalt, first, chunks),
                               ResponseFixedSize(psk, clientSalt);
            ClientGets(a, psk, clientSalt, now, wire[..cut],
                       ResponseGot(fixed, first, chunks, cut), ResponseSeam(fixed, |first|, chunks, cut))
  {
    var head, tail := ResponseHead(a, psk, serverSalt, ts, clientSalt, first),
                      Chunks(a, a.derive(psk, serverSalt), 2, chunks);
    ResponseHeadSized(a, psk, serverSalt, ts, clientSalt, first);
    if cut < |head| {
      TakeInside(head, tail, cut);
      ResponseInside(a, psk, serverSalt, clientSalt, ts, now, first, cut);
    } else {
      TakeBehind(head, tail, cut);
      ResponseBehind(a, psk, serverSalt, clientSalt, ts, now, first, chunks, cut - |head|);
    }
  }

  /** What the first `cut` bytes of a response hold for the client. */
  function ResponseGot(fixed: nat, first: seq<byte>, chunks: seq<seq<byte>>, cut: nat): (got: Option<seq<byte>>)
  {
    var head := fixed + |first| + TAG;
    if cut < head then None else Some(first + WholePayload(chunks, cut - head))
  }
}
