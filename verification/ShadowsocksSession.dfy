/** Whole runs of two Shadowsocks ends over one connection: any list of writes on
    one side, a wire that may be cut anywhere, and any mix of reads and writes-to on
    the other. The methods of Conn are used through their contracts only. */
module ShadowsocksSession {
  import opened Bytes
  import opened Streams
  import opened SocksAddress
  import opened SaltPool
  import opened ShadowsocksWire
  import opened ShadowsocksHeaders
  import opened ShadowsocksCuts
  import opened ShadowsocksConn

  lemma {:induction false} StreamGrows(a: Aead, k: Key, message: seq<byte>, first: seq<byte>,
                                       chunks: seq<seq<byte>>, more: seq<seq<byte>>)
    requires ChunkSized(chunks) && ChunkSized(more)
    ensures ChunkSized(chunks + more)
    ensures message + Chunks(a, k, 2, chunks) + Chunks(a, k, 2 + 2 * |chunks|, more)
         == message + Chunks(a, k, 2, chunks + more)
    ensures first + Flatten(chunks) + Flatten(more) == first + Flatten(chunks + more)
  {
    ChunksAppend(a, k, 2, 2 + 2 * |chunks|, chunks, more);
    Assoc(message, Chunks(a, k, 2, chunks), Chunks(a, k, 2 + 2 * |chunks|, more));
    FlattenAppend(chunks, more);
    Assoc(first, Flatten(chunks), Flatten(more));
  }

  lemma FlattenNext(pieces: seq<seq<byte>>, i: nat)
    requires i < |pieces|
    ensures Flatten(pieces[..i + 1]) == Flatten(pieces[..i]) + pieces[i]
  {
    FlattenSnoc(pieces[..i], pieces[i]);
    assert pieces[..i] + [pieces[i]] == pieces[..i + 1];
  }

  lemma FlattenEnds(pieces: seq<seq<byte>>)
    requires pieces != []
    ensures Flatten(pieces[..1]) == pieces[0] && Flatten(pieces[..|pieces|]) == Flatten(pieces)
  {
    FlattenNext(pieces, 0);
    assert Flatten(pieces[..0]) + pieces[0] == pieces[0];
    assert pieces[..|pieces|] == pieces;
  }

  /** The stream sent so far carries `written`. */
  ghost predicate Carries(c: Conn, message: seq<byte>, f: First, chunks: seq<seq<byte>>, now: uint64,
                          written: seq<byte>)
    reads c, c.output
  {
    && c.CanWrite() && c.hasWriteFirstPayload && c.IsFirstMessage(message, f, now) && ChunkSized(chunks)
    && c.writerKey == Some(c.aead.derive(c.psk, f.salt)) && c.seals == 2 + 2 * |chunks|
    && c.output.got == message + Chunks(c.aead, c.aead.derive(c.psk, f.salt), 2, chunks)
    && f.payload + Flatten(chunks) == written
  }

  method WriteMore(c: Conn, p: seq<byte>, now: uint64, ghost message: seq<byte>, ghost f: First,
                   ghost chunks: seq<seq<byte>>, ghost written: seq<byte>)
    returns (ok: bool, ghost all: seq<seq<byte>>)
    requires c.Valid() && Carries(c, message, f, chunks, now, written)
    modifies c`hasWriteFirstPayload, c`writerKey, c`nonceWriter, c`seals, c.nonceWriter, c.output, c.random
    ensures c.Valid() && (c.nonceWriter == old(c.nonceWriter) || fresh(c.nonceWriter))
    ensures ok ==> Carries(c, message, f, all, now, written + p)
    ensures (ok || c.output.failed) && old(c.random.at) <= c.random.at
  {
    ghost var f', message', more;
    var n, crashed;
    n, ok, crashed, f', message', more := c.Write(p, now);
    if ok {
      assert Flatten(more) == p by {
        assert p[0..] == p && [] + Flatten(more) == Flatten(more);
        AllSplit([], more, p);
      }
    }
    StreamGrows(c.aead, c.aead.derive(c.psk, f.salt), message, f.payload, chunks, more);
    all := chunks + more;
  }

  /** The first write, which leaves in the first message and chunks behind it. */
  method WriteFirst(c: Conn, p: seq<byte>, now: uint64)
    returns (ok: bool, ghost f: First, ghost message: seq<byte>, ghost chunks: seq<seq<byte>>)
    requires c.Valid() && c.CanWrite() && !c.hasWriteFirstPayload && c.output.got == []
    modifies c`hasWriteFirstPayload, c`writerKey, c`nonceWriter, c`seals, c.nonceWriter, c.output, c.random
    ensures c.Valid() && (c.nonceWriter == old(c.nonceWriter) || fresh(c.nonceWriter))
    ensures ok ==> Carries(c, message, f, chunks, now, p)
    ensures ok ==> f == c.Fresh(old(c.random.at), old(c.random.drawn), f.payload)
    ensures (ok || c.output.failed) && old(c.random.at) <= c.random.at
  {
    var n, crashed;
    n, ok, crashed, f, message, chunks := c.Write(p, now);
    if ok {
      assert f.payload + Flatten(chunks) == p by {
        AllSplit(f.payload, chunks, p);
      }
      assert [] + c.output.got == c.output.got;
    }
  }

  /** Writes `writes` one after the other; what leaves is one stream that carries
      them, however they were cut into first payload and chunks. */
  method WriteAll(c: Conn, writes: seq<seq<byte>>, now: uint64)
    returns (ok: bool, ghost f: First, ghost message: seq<byte>, ghost chunks: seq<seq<byte>>)
    requires c.Valid() && c.CanWrite() && !c.hasWriteFirstPayload && writes != []
    requires c.output.got == []
    modifies c`hasWriteFirstPayload, c`writerKey, c`nonceWriter, c`seals, c.nonceWriter, c.output, c.random
    ensures c.Valid() && (c.nonceWriter == old(c.nonceWriter) || fresh(c.nonceWriter))
    ensures ok ==> Carries(c, message, f, chunks, now, Flatten(writes))
    ensures ok ==> f == c.Fresh(old(c.random.at), old(c.random.drawn), f.payload)
    ensures (ok || c.output.failed) && old(c.random.at) <= c.random.at
  {
    ok, f, message, chunks := WriteFirst(c, writes[0], now);
    var i := 1;
    FlattenEnds(writes);
    while i < |writes| && ok
      invariant 1 <= i <= |writes| && c.Valid()
      invariant c.nonceWriter == old(c.nonceWriter) || fresh(c.nonceWriter)
      invariant ok ==> Carries(c, message, f, chunks, now, Flatten(writes[..i]))
      invariant ok ==> f == c.Fresh(old(c.random.at), old(c.random.drawn), f.payload)
      invariant (ok || c.output.failed) && old(c.random.at) <= c.random.at
    {
      ok, chunks := WriteMore(c, writes[i], now, message, f, chunks, Flatten(writes[..i]));
      FlattenNext(writes, i);
      i := i + 1;
    }
  }

  /** A caller's next move: a Read with a buffer of the given size, or a WriteTo. */
  datatype Move = ReadInto(cap: nat) | Drain

  /** What came of a move: the bytes handed on, to the sink or to the caller's buffer,
      and those a failing sink lost behind them. */
  datatype Piece = Piece(bs: seq<byte>, drained: bool, lost: seq<byte>)

  /** Everything handed on, ... */
  function Given(log: seq<Piece>): (bs: seq<byte>)
  {
    if |log| == 0 then [] else Given(log[..|log| - 1]) + log[|log| - 1].bs
  }

  /** ... the part of it that went to the sink, ... */
  function Drained(log: seq<Piece>): (bs: seq<byte>)
  {
    if |log| == 0 then []
    else Drained(log[..|log| - 1]) + if log[|log| - 1].drained then log[|log| - 1].bs else []
  }

  /** ... and everything that came through, with what was lost in its place. */
  function Through(log: seq<Piece>): (bs: seq<byte>)
  {
    if |log| == 0 then [] else Through(log[..|log| - 1]) + (log[|log| - 1].bs + log[|log| - 1].lost)
  }

  lemma {:induction false} Logged(log: seq<Piece>, p: Piece)
    ensures Given(log + [p]) == Given(log) + p.bs && Through(log + [p]) == Through(log) + (p.bs + p.lost)
    ensures Drained(log + [p]) == Drained(log) + if p.drained then p.bs else []
    ensures Given(log) == Through(log) && p.lost == [] ==> Given(log + [p]) == Through(log + [p])
  {
    assert (log + [p])[..|log|] == log;
    assert p.bs + [] == p.bs;
  }

  /** One move. It fails for good only where the stream ends. */
  method MakeMove(c: Conn, move: Move, w: Writer, now: int)
    returns (bs: seq<byte>, status: ReadStatus, live: bool, ghost lost: seq<byte>)
    requires c.Valid() && c.CanRead()
    modifies c`hasReadFirstPayload, c`readerKey, c`nonceReader, c`readerBuf, c`opens, c.nonceReader, c.input, w
    ensures c.Valid() && (c.nonceReader == old(c.nonceReader) || fresh(c.nonceReader))
    ensures w.failed || (lost == [] && !old(w.failed))
    ensures w.got == old(w.got) + if move.Drain? then bs else []
    ensures move.ReadInto? ==> lost == [] && (live && move.cap > 0 ==> c.Left() < old(c.Left()))
    ensures move.Drain? && live ==> w.failed
    ensures IsPrefix(bs + lost, old(c.Stream(now)))
    ensures live ==> c.OnItStill(old(c.Stream(now)), old(c.WillEnd(now)), bs + lost, now)
    ensures !live ==> lost == [] && Ended(bs, old(c.Stream(now)), old(c.WillEnd(now)), status)
  {
    match move
    case ReadInto(cap) =>
      var crashed;
      bs, status, crashed := c.Read(cap, now);
      live, lost := status == Fine, [];
      assert bs + [] == bs && w.got + [] == w.got;
    case Drain =>
      var before := |w.got|;
      var n, ok, sinkOk, crashed;
      n, ok, sinkOk, crashed, lost := c.WriteTo(w, now);
      bs, status, live := w.got[before..], End(ok), !sinkOk;
      assert bs + [] == bs;
  }

  lemma PrependTwice(a: seq<byte>, b: seq<byte>, s: Option<seq<byte>>)
    ensures Prepend(a, Prepend(b, s)) == Prepend(a + b, s)
  {
    match s {
      case None => assert b == [] ==> a + b == a;
      case Some(t) => Assoc(a, b, t);
    }
  }

  lemma EndedBehind(given: seq<byte>, bs: seq<byte>, s: Option<seq<byte>>, ends: bool, status: ReadStatus)
    requires Ended(bs, s, ends, status) && (given == [] || s.Some?)
    ensures Ended(given + bs, Prepend(given, s), ends, status)
  {
    assert given == [] ==> given + bs == bs;
  }

  /** Makes the moves in order until the stream ends; a sink that fails does not end it.
      What came through is a prefix of the stream there was at the start, and what is
      still pending is the rest of it; at the end it is all of it. Nothing is lost
      unless the sink has failed. */
  method ReadAll(c: Conn, moves: seq<Move>, w: Writer, now: int)
    returns (delivered: seq<byte>, status: ReadStatus, live: bool, ghost log: seq<Piece>)
    requires c.Valid() && c.CanRead()
    modifies c`hasReadFirstPayload, c`readerKey, c`nonceReader, c`readerBuf, c`opens, c.nonceReader, c.input, w
    ensures c.Valid() && (c.nonceReader == old(c.nonceReader) || fresh(c.nonceReader))
    ensures delivered == Given(log) && w.got == old(w.got) + Drained(log) && (w.failed || Given(log) == Through(log))
    ensures IsPrefix(Through(log), old(c.Stream(now)))
    ensures live ==> c.OnItStill(old(c.Stream(now)), old(c.WillEnd(now)), Through(log), now)
    ensures !live ==> Ended(Through(log), old(c.Stream(now)), old(c.WillEnd(now)), status)
  {
    ghost var whole, ends := c.Stream(now), c.WillEnd(now);
    delivered, status, live, log := [], Fine, true, [];
    PrependNone(whole);
    assert w.got + [] == w.got;
    var i := 0;
    while i < |moves| && live
      invariant 0 <= i <= |moves| && c.Valid()
      invariant c.nonceReader == old(c.nonceReader) || fresh(c.nonceReader)
      invariant delivered == Given(log) && w.got == old(w.got) + Drained(log)
      invariant w.failed || Given(log) == Through(log)
      invariant IsPrefix(Through(log), whole)
      invariant live ==> c.OnItStill(whole, ends, Through(log), now)
      invariant !live ==> Ended(Through(log), whole, ends, status)
    {
      var bs;
      bs, status, live, log := MoveOn(c, moves[i], w, now, whole, ends, old(w.got), log);
      delivered, i := delivered + bs, i + 1;
    }
  }

  /** The next move of a run. */
  method MoveOn(c: Conn, move: Move, w: Writer, now: int, ghost whole: Option<seq<byte>>,
                ghost ends: bool, ghost got: seq<byte>, ghost log: seq<Piece>)
    returns (bs: seq<byte>, status: ReadStatus, live: bool, ghost log': seq<Piece>)
    requires c.Valid() && c.OnItStill(whole, ends, Through(log), now) && IsPrefix(Through(log), whole)
    requires w.got == got + Drained(log) && (w.failed || Given(log) == Through(log))
    modifies c`hasReadFirstPayload, c`readerKey, c`nonceReader, c`readerBuf, c`opens, c.nonceReader, c.input, w
    ensures c.Valid() && (c.nonceReader == old(c.nonceReader) || fresh(c.nonceReader))
    ensures Given(log') == Given(log) + bs && w.got == got + Drained(log')
    ensures (w.failed || Given(log') == Through(log')) && IsPrefix(Through(log'), whole)
    ensures live ==> c.OnItStill(whole, ends, Through(log'), now)
    ensures !live ==> Ended(Through(log'), whole, ends, status)
  {
    ghost var lost;
    bs, status, live, lost := MoveFrom(c, move, w, now, whole, ends, Through(log));
    ghost var p := Piece(bs, move.Drain?, lost);
    log' := log + [p];
    Logged(log, p);
    Assoc(got, Drained(log), if p.drained then bs else []);
  }

  /** A move behind the bytes `given`. */
  method MoveFrom(c: Conn, move: Move, w: Writer, now: int, ghost whole: Option<seq<byte>>,
                  ghost ends: bool, ghost given: seq<byte>)
    returns (bs: seq<byte>, status: ReadStatus, live: bool, ghost lost: seq<byte>)
    requires c.Valid() && c.OnItStill(whole, ends, given, now) && IsPrefix(given, whole)
    modifies c`hasReadFirstPayload, c`readerKey, c`nonceReader, c`readerBuf, c`opens, c.nonceReader, c.input, w
    ensures c.Valid() && (c.nonceReader == old(c.nonceReader) || fresh(c.nonceReader))
    ensures w.failed || (lost == [] && !old(w.failed))
    ensures w.got == old(w.got) + if move.Drain? then bs else []
    ensures IsPrefix(given + (bs + lost), whole)
    ensures live ==> c.OnItStill(whole, ends, given + (bs + lost), now)
    ensures !live ==> Ended(given + (bs + lost), whole, ends, status)
  {
    ghost var before := c.Stream(now);
    bs, status, live, lost := MakeMove(c, move, w, now);
    PrefixExtends(given, bs + lost, before, whole);
    if live {
      PrependTwice(given, bs + lost, c.Stream(now));
    } else {
      assert bs + [] == bs;
      EndedBehind(given, bs, before, ends, status);
    }
  }

  /** Reads with a buffer of `cap` bytes until the stream ends, which it does after
      finitely many reads. */
  method ReadToEnd(c: Conn, cap: nat, now: int) returns (delivered: seq<byte>, status: ReadStatus)
    requires c.Valid() && c.CanRead() && cap > 0
    modifies c`hasReadFirstPayload, c`readerKey, c`nonceReader, c`readerBuf, c`opens, c.nonceReader, c.input
    ensures c.Valid() && (c.nonceReader == old(c.nonceReader) || fresh(c.nonceReader))
    ensures IsPrefix(delivered, old(c.Stream(now)))
    ensures Ended(delivered, old(c.Stream(now)), old(c.WillEnd(now)), status)
  {
    ghost var whole, ends := c.Stream(now), c.WillEnd(now);
    delivered, status := [], Fine;
    PrependNone(whole);
    while status == Fine
      invariant c.Valid() && (c.nonceReader == old(c.nonceReader) || fresh(c.nonceReader))
      invariant IsPrefix(delivered, whole)
      invariant status == Fine ==> c.OnItStill(whole, ends, delivered, now)
      invariant status != Fine ==> Ended(delivered, whole, ends, status)
      decreases status == Fine, c.Left()
    {
      ghost var before := c.Stream(now);
      var bs, crashed;
      bs, status, crashed := c.Read(cap, now);
      PrefixExtends(delivered, bs, before, whole);
      if status == Fine {
        PrependTwice(delivered, bs, c.Stream(now));
      } else {
        EndedBehind(delivered, bs, before, ends, status);
      }
      delivered := delivered + bs;
    }
  }

  /** Makes the moves and then reads to the end with a buffer of `cap` bytes. */
  method ReadEverything(c: Conn, moves: seq<Move>, w: Writer, cap: nat, now: int)
    returns (delivered: seq<byte>, status: ReadStatus, ghost log: seq<Piece>)
    requires c.Valid() && c.CanRead() && cap > 0
    modifies c`hasReadFirstPayload, c`readerKey, c`nonceReader, c`readerBuf, c`opens, c.nonceReader, c.input, w
    ensures c.Valid() && (c.nonceReader == old(c.nonceReader) || fresh(c.nonceReader))
    ensures delivered == Given(log) && w.got == old(w.got) + Drained(log) && (w.failed || Given(log) == Through(log))
    ensures IsPrefix(Through(log), old(c.Stream(now)))
    ensures Ended(Through(log), old(c.Stream(now)), old(c.WillEnd(now)), status)
  {
    ghost var whole, ends := c.Stream(now), c.WillEnd(now);
    var live;
    delivered, status, live, log := ReadAll(c, moves, w, now);
    if live {
      var more;
      more, status, log := ReadOn(c, cap, now, whole, ends, log);
      delivered := delivered + more;
    }
  }

  /** Reads to the end in the middle of a run. */
  method ReadOn(c: Conn, cap: nat, now: int, ghost whole: Option<seq<byte>>, ghost ends: bool,
                ghost log: seq<Piece>)
    returns (more: seq<byte>, status: ReadStatus, ghost log': seq<Piece>)
    requires c.Valid() && c.OnItStill(whole, ends, Through(log), now) && IsPrefix(Through(log), whole)
    requires cap > 0
    modifies c`hasReadFirstPayload, c`readerKey, c`nonceReader, c`readerBuf, c`opens, c.nonceReader, c.input
    ensures c.Valid() && (c.nonceReader == old(c.nonceReader) || fresh(c.nonceReader))
    ensures Given(log') == Given(log) + more && Drained(log') == Drained(log)
    ensures (Given(log) == Through(log) ==> Given(log') == Through(log')) && IsPrefix(Through(log'), whole)
    ensures Ended(Through(log'), whole, ends, status)
  {
    ghost var before := c.Stream(now);
    more, status := ReadToEnd(c, cap, now);
    PrefixExtends(Through(log), more, before, whole);
    EndedBehind(Through(log), more, before, ends, status);
    log' := log + [Piece(more, false, [])];
    Logged(log, Piece(more, false, []));
    assert more + [] == more && Drained(log) + [] == Drained(log);
  }

  // ------------------------------------------------------------------
  // The request direction

  /** The server's side of a run, for any input, which holds `got` and ends cleanly if
      `ends` says so. A connection is served exactly when its first message comes in one
      read, its salt is new and it opens; what comes through is then what the input holds,
      in order and to its end. */
  method Serve(server: Conn, pool: Pool<seq<byte>>, clock: nat, seen: nat, moves: seq<Move>, w: Writer, cap: nat,
               ghost got: Option<Body>, ghost ends: bool)
    returns (served: bool, delivered: seq<byte>, status: ReadStatus, ghost log: seq<Piece>)
    requires server.Valid() && !server.isClient && server.readerBuf == [] && cap > 0
    requires ServerGets(server.aead, server.psk, seen / SECOND, server.input.data, got, ends)
    modifies server`hasReadFirstPayload, server`readerKey, server`nonceReader, server`readerBuf, server`opens,
             server`clientSalt, server`accessAddr, server.nonceReader, server.input, pool, w
    ensures server.Valid() && (server.nonceReader == old(server.nonceReader) || fresh(server.nonceReader))
    ensures var wire := old(server.input.data);
            && (served <==> && old(server.input.BringsAtOnce(server.FirstBlock())) && got.Some?
                            && Accepts(old(pool.Contents()), wire[..|server.psk|], clock))
            && (served ==>
                  && server.accessAddr == Some(got.value.addr) && server.clientSalt == wire[..|server.psk|]
                  && Through(log) == got.value.payload
                  && (status == AtEof <==> !server.input.breaks && ends))
    ensures served ==>
      delivered == Given(log) && w.got == old(w.got) + Drained(log) && (w.failed || delivered == Through(log))
  {
    delivered, status, log := [], Fine, [];
    served := server.ReadClientFirstPayload(pool, clock, seen);
    if served {
      delivered, status, log := ReadEverything(server, moves, w, cap, seen / SECOND);
    }
  }

  /** The two ends share no nonce. */
  ghost predicate Apart(c: Conn, d: Conn)
    reads c, d
  {
    && c.nonceWriter != d.nonceWriter && c.nonceWriter != d.nonceReader
    && c.nonceReader != d.nonceWriter && c.nonceReader != d.nonceReader
  }

  /** How a wire reaches a reader: `cut` bytes of it, `first` of them with the first read,
      and the end along with the last bytes if `atOnce`. */
  datatype Arrival = Arrival(keep: nat, first: nat, atOnce: bool)

  /** `arrival` is one that a reader with `idle` empty reads left can live with. */
  predicate Possible(arrival: Arrival, idle: nat)
  {
    arrival.first > 0 || idle > 0
  }

  function Kept(arrival: Arrival, sent: nat): (cut: nat)
  {
    Min(arrival.keep, sent)
  }

  method Transmit(wire: seq<byte>, input: Reader, arrival: Arrival)
    requires input.Valid() && Possible(arrival, input.idle)
    modifies input`data, input`buffered, input`burst, input`ends
    ensures input.Valid() && input.data == wire[..Kept(arrival, |wire|)]
    ensures input.burst == Min(arrival.first, |input.data|)
    ensures input.ends == (arrival.atOnce || (input.data == [] && input.idle == 0))
  {
    input.Arrive(wire[..Kept(arrival, |wire|)], arrival.first, arrival.atOnce);
  }

  /** The client's side of a run: its writes go out as one request wire, which arrives
      whole or cut. `head` is the size of its first message. */
  method SendRequest(client: Conn, addr: SocketAddress, writes: seq<seq<byte>>, sentAt: uint64, now: int,
                     input: Reader, arrival: Arrival)
    returns (sent: bool, ghost f: First, ghost chunks: seq<seq<byte>>, ghost head: nat)
    requires Representable(addr) && writes != [] && InRange(sentAt, now)
    requires client.Valid() && client.isClient && |client.clientSalt| == |client.psk|
    requires client.accessAddr == Some(addr) && !client.hasWriteFirstPayload && client.output.got == []
    requires input.Valid() && input != client.input && Possible(arrival, input.idle)
    modifies client`hasWriteFirstPayload, client`writerKey, client`nonceWriter, client`seals, client.nonceWriter,
             client.output, client.random, input`data, input`buffered, input`burst, input`ends
    ensures client.Valid() && (client.nonceWriter == old(client.nonceWriter) || fresh(client.nonceWriter))
    ensures input.Valid() && (sent || client.output.failed) && old(client.random.at) <= client.random.at
    ensures sent ==> IsRequest(client, addr, now, input, f, chunks, head, writes, arrival)
    ensures sent ==> f == client.Fresh(old(client.random.at), old(client.random.drawn), f.payload)
    ensures sent ==> client.SealsUnder(client.clientSalt)
  {
    EncodedSize(addr);
    ghost var message;
    head := 0;
    sent, f, message, chunks := WriteAll(client, writes, sentAt);
    if !sent {
      return;
    }
    head := |message|;
    Transmit(client.output.got, input, arrival);
    RequestArrives(client.aead, client.psk, client.clientSalt, sentAt, now, addr, f, chunks,
                   Kept(arrival, |client.output.got|));
  }

  /** What the run of a client leaves for its server. */
  ghost predicate IsRequest(client: Conn, addr: SocketAddress, now: int, input: Reader, f: First,
                            chunks: seq<seq<byte>>, head: nat, writes: seq<seq<byte>>, arrival: Arrival)
    reads client, client.output, input
  {
    var cut := |input.data|;
    && f.payload + Flatten(chunks) == Flatten(writes) && |client.output.got| == head + ChunksSize(chunks)
    && head > |client.psk| + FIXED_HEADER + TAG && cut == Kept(arrival, |client.output.got|)
    && input.burst == Min(arrival.first, cut) && (cut >= head ==> input.data[..|client.psk|] == client.clientSalt)
    && ServerGets(client.aead, client.psk, now, input.data,
                  RequestGot(head, addr, f.payload, chunks, cut), RequestSeam(head, chunks, cut))
  }

  lemma {:induction false} RequestArrives(a: Aead, psk: seq<byte>, salt: seq<byte>, ts: uint64, now: int,
                                          addr: SocketAddress, f: First, chunks: seq<seq<byte>>, cut: nat)
    requires Lawful(a) && |salt| == |psk| && ChunkSized(chunks) && Representable(addr) && InRange(ts, now)
    requires |f.padding| + |f.payload| > 0 && |f.padding| <= MAX_PADDING
    requires |RequestBody(addr, f.padding, f.payload)| <= MAX_CHUNK
    requires cut <= |RequestWire(a, psk, salt, ts, addr, f.padding, f.payload, chunks)|
    ensures var head := |RequestHead(a, psk, salt, ts, addr, f.padding, f.payload)|;
            var wire := RequestWire(a, psk, salt, ts, addr, f.padding, f.payload, chunks);
            && |wire| == head + ChunksSize(chunks) && head > |psk| + FIXED_HEADER + TAG
            && (cut >= head ==> wire[..cut][..|psk|] == salt)
            && ServerGets(a, psk, now, wire[..cut],
                          RequestGot(head, addr, f.payload, chunks, cut), RequestSeam(head, chunks, cut))
  {
    RequestHeadSized(a, psk, salt, ts, addr, f.padding, f.payload);
    ChunksSized(a, a.derive(psk, salt), 2, chunks);
    RequestCutExactly(a, psk, salt, ts, now, addr, f.padding, f.payload, chunks, cut);
    SaltIsFirst(RequestHead(a, psk, salt, ts, addr, f.padding, f.payload), Chunks(a, a.derive(psk, salt), 2, chunks),
                |psk|, cut);
  }

  lemma SaltIsFirst(head: seq<byte>, tail: seq<byte>, n: nat, cut: nat)
    requires n <= |head|
    ensures |head| <= cut <= |head + tail| ==> (head + tail)[..cut][..n] == head[..n]
  {
  }

  /** A whole request run. Whatever the client writes, however its wire is fragmented and
      wherever it is cut, and however the server's caller mixes the two read paths: the
      connection is served exactly if the whole first message arrives, its header in one
      read, with a salt that is new to the pool. The server then has the client's address,
      the payload of exactly the chunks that arrived whole comes through, and the end looks
      clean exactly at a seam. Of an uncut wire everything comes through. */
  method RequestRun(addr: SocketAddress, writes: seq<seq<byte>>, sentAt: uint64, pool: Pool<seq<byte>>, clock: nat,
                    seen: nat, input: Reader, arrival: Arrival, moves: seq<Move>, w: Writer, cap: nat,
                    client: Conn, server: Conn)
    returns (sent: bool, served: bool, delivered: seq<byte>, status: ReadStatus, ghost log: seq<Piece>,
             ghost f: First, ghost chunks: seq<seq<byte>>, ghost head: nat)
    requires Representable(addr) && writes != [] && InRange(sentAt, seen / SECOND)
    requires client.Valid() && client.isClient && |client.clientSalt| == |client.psk|
    requires client.accessAddr == Some(addr) && !client.hasWriteFirstPayload && client.output.got == []
    requires server.Valid() && !server.isClient && server.readerBuf == []
    requires server.aead == client.aead && server.psk == client.psk
    requires server.input == input && input != client.input && Possible(arrival, input.idle) && cap > 0
    requires client != server && server.output != client.output && w != client.output
    requires Apart(client, server)
    modifies client`hasWriteFirstPayload, client`writerKey, client`nonceWriter, client`seals, client.nonceWriter,
             client.output, client.random, server`hasReadFirstPayload, server`readerKey, server`nonceReader,
             server`readerBuf, server`opens, server`clientSalt, server`accessAddr, server.nonceReader, input, pool, w
    ensures client.Valid() && server.Valid() && (sent || client.output.failed)
    ensures Apart(client, server) && old(client.random.at) <= client.random.at
    ensures sent ==>
      && f.payload + Flatten(chunks) == Flatten(writes) && |client.output.got| == head + ChunksSize(chunks)
      && f == client.Fresh(old(client.random.at), old(client.random.drawn), f.payload)
      && client.SealsUnder(client.clientSalt)
    ensures var cut := Kept(arrival, |client.output.got|);
            && (served <==> && sent && cut >= head && Accepts(old(pool.Contents()), client.clientSalt, clock)
                            && arrival.first >= |client.psk| + FIXED_HEADER + TAG)
            && (served ==>
                  && server.accessAddr == Some(addr) && server.clientSalt == client.clientSalt
                  && AllThatArrived(Through(log), status, input.breaks, f.payload, chunks, cut - head, Flatten(writes)))
    ensures served ==>
      delivered == Given(log) && w.got == old(w.got) + Drained(log) && (w.failed || delivered == Through(log))
  {
    sent, served, delivered, status, log, f, chunks, head :=
      RequestExchange(addr, writes, sentAt, pool, clock, seen, input, arrival, moves, w, cap, client, server);
    if served {
      ghost var cut := Kept(arrival, |client.output.got|);
      GotAllThatArrived(head, addr, f.payload, chunks, cut, Body(server.accessAddr.value, Through(log)), status,
                        input.breaks);
    }
  }

  lemma {:induction false} GotAllThatArrived(head: nat, addr: SocketAddress, first: seq<byte>, chunks: seq<seq<byte>>,
                                             cut: nat, b: Body, status: ReadStatus, breaks: bool)
    requires RequestGot(head, addr, first, chunks, cut) == Some(b)
    requires status == AtEof <==> !breaks && RequestSeam(head, chunks, cut)
    ensures cut >= head && b.addr == addr
    ensures AllThatArrived(b.payload, status, breaks, first, chunks, cut - head, first + Flatten(chunks))
  {
    Arrived(b.payload, status, breaks, first, chunks, cut - head);
  }

  /** The same in terms of what the wire holds. */
  method RequestExchange(addr: SocketAddress, writes: seq<seq<byte>>, sentAt: uint64, pool: Pool<seq<byte>>, clock: nat,
                         seen: nat, input: Reader, arrival: Arrival, moves: seq<Move>, w: Writer, cap: nat,
                         client: Conn, server: Conn)
    returns (sent: bool, served: bool, delivered: seq<byte>, status: ReadStatus, ghost log: seq<Piece>,
             ghost f: First, ghost chunks: seq<seq<byte>>, ghost head: nat)
    requires Representable(addr) && writes != [] && InRange(sentAt, seen / SECOND)
    requires client.Valid() && client.isClient && |client.clientSalt| == |client.psk|
    requires client.accessAddr == Some(addr) && !client.hasWriteFirstPayload && client.output.got == []
    requires server.Valid() && !server.isClient && server.readerBuf == []
    requires server.aead == client.aead && server.psk == client.psk
    requires server.input == input && input != client.input && Possible(arrival, input.idle) && cap > 0
    requires client != server && server.output != client.output && w != client.output
    requires Apart(client, server)
    modifies client`hasWriteFirstPayload, client`writerKey, client`nonceWriter, client`seals, client.nonceWriter,
             client.output, client.random, server`hasReadFirstPayload, server`readerKey, server`nonceReader,
             server`readerBuf, server`opens, server`clientSalt, server`accessAddr, server.nonceReader, input, pool, w
    ensures client.Valid() && server.Valid() && (sent || client.output.failed)
    ensures Apart(client, server) && old(client.random.at) <= client.random.at
    ensures sent ==>
      && f.payload + Flatten(chunks) == Flatten(writes) && |client.output.got| == head + ChunksSize(chunks)
      && f == client.Fresh(old(client.random.at), old(client.random.drawn), f.payload)
      && client.SealsUnder(client.clientSalt)
    ensures var cut := Kept(arrival, |client.output.got|);
            && (served <==> && sent && cut >= head && Accepts(old(pool.Contents()), client.clientSalt, clock)
                            && arrival.first >= |client.psk| + FIXED_HEADER + TAG)
            && (served ==>
                  && server.accessAddr.Some? && server.clientSalt == client.clientSalt
                  && RequestGot(head, addr, f.payload, chunks, cut)
                     == Some(Body(server.accessAddr.value, Through(log)))
                  && (status == AtEof <==> !input.breaks && RequestSeam(head, chunks, cut)))
    ensures served ==>
      delivered == Given(log) && w.got == old(w.got) + Drained(log) && (w.failed || delivered == Through(log))
  {
    served, delivered, status, log := false, [], Fine, [];
    sent, f, chunks, head := SendRequest(client, addr, writes, sentAt, seen / SECOND, input, arrival);
    if sent {
      served, delivered, status, log :=
        ServeRequest(server, pool, clock, seen, moves, w, cap, client, addr, f, chunks, head, arrival.first);
    }
  }

  /** The server's side, for an input that is a request wire; the client stays as it is. */
  method ServeRequest(server: Conn, pool: Pool<seq<byte>>, clock: nat, seen: nat, moves: seq<Move>, w: Writer,
                      cap: nat, ghost client: Conn, ghost addr: SocketAddress, ghost f: First,
                      ghost chunks: seq<seq<byte>>, ghost head: nat, ghost first: nat)
    returns (served: bool, delivered: seq<byte>, status: ReadStatus, ghost log: seq<Piece>)
    requires server.Valid() && !server.isClient && server.readerBuf == [] && cap > 0
    requires client.Valid() && client != server && client.input != server.input && Apart(client, server)
    requires var cut := |server.input.data|;
             && head > |server.psk| + FIXED_HEADER + TAG && server.input.burst == Min(first, cut)
             && (cut >= head ==> server.input.data[..|server.psk|] == client.clientSalt)
             && ServerGets(server.aead, server.psk, seen / SECOND, server.input.data,
                           RequestGot(head, addr, f.payload, chunks, cut), RequestSeam(head, chunks, cut))
    modifies server`hasReadFirstPayload, server`readerKey, server`nonceReader, server`readerBuf, server`opens,
             server`clientSalt, server`accessAddr, server.nonceReader, server.input, pool, w
    ensures server.Valid() && client.Valid() && Apart(client, server)
    ensures var cut := |old(server.input.data)|;
            && (served <==> && cut >= head && Accepts(old(pool.Contents()), client.clientSalt, clock)
                            && first >= |server.psk| + FIXED_HEADER + TAG)
            && (served ==>
                  && server.accessAddr.Some? && server.clientSalt == client.clientSalt
                  && RequestGot(head, addr, f.payload, chunks, cut)
                     == Some(Body(server.accessAddr.value, Through(log)))
                  && (status == AtEof <==> !server.input.breaks && RequestSeam(head, chunks, cut)))
    ensures served ==>
      delivered == Given(log) && w.got == old(w.got) + Drained(log) && (w.failed || delivered == Through(log))
  {
    ghost var cut := |server.input.data|;
    ghost var got, ends := RequestGot(head, addr, f.payload, chunks, cut), RequestSeam(head, chunks, cut);
    assert got.Some? <==> cut >= head;
    served, delivered, status, log := Serve(server, pool, clock, seen, moves, w, cap, got, ends);
  }

  /** Of a stream that carries `written` in a first payload and chunks, of which `behind`
      bytes of wire arrived: the payload of exactly the whole chunks came through, and the
      end looked clean exactly at a seam; if nothing was cut, everything came through. */
  ghost predicate AllThatArrived(through: seq<byte>, status: ReadStatus, breaks: bool, first: seq<byte>,
                                 chunks: seq<seq<byte>>, behind: nat, written: seq<byte>)
  {
    && through == first + WholePayload(chunks, behind) && through <= written
    && (status == AtEof <==> !breaks && AtSeam(chunks, behind))
    && (behind == ChunksSize(chunks) ==> through == written && (status == AtEof <==> !breaks))
  }

  lemma {:induction false} Arrived(through: seq<byte>, status: ReadStatus, breaks: bool, first: seq<byte>,
                                   chunks: seq<seq<byte>>, behind: nat)
    requires through == first + WholePayload(chunks, behind)
    requires status == AtEof <==> !breaks && AtSeam(chunks, behind)
    ensures AllThatArrived(through, status, breaks, first, chunks, behind, first + Flatten(chunks))
  {
    WholeIsPrefix(chunks, behind);
    WholeSize(chunks);
  }

  // ------------------------------------------------------------------
  // The response direction

  /** The server's side of a response run: its writes go out as one response wire, which
      arrives whole or cut. */
  method SendResponse(server: Conn, writes: seq<seq<byte>>, sentAt: uint64, now: int, input: Reader, arrival: Arrival)
    returns (sent: bool, ghost f: First, ghost chunks: seq<seq<byte>>)
    requires writes != [] && InRange(sentAt, now)
    requires server.Valid() && !server.isClient && |server.clientSalt| == |server.psk|
    requires !server.hasWriteFirstPayload && server.output.got == []
    requires input.Valid() && input != server.input && Possible(arrival, input.idle)
    modifies server`hasWriteFirstPayload, server`writerKey, server`nonceWriter, server`seals, server.nonceWriter,
             server.output, server.random, input`data, input`buffered, input`burst, input`ends
    ensures server.Valid() && (server.nonceWriter == old(server.nonceWriter) || fresh(server.nonceWriter))
    ensures input.Valid() && (sent || server.output.failed)
    ensures sent ==> IsResponse(server, now, input, f, chunks, writes, arrival)
    ensures sent ==> f.salt == old(server.random.Next(|server.psk|)) && server.SealsUnder(f.salt)
  {
    ghost var message;
    sent, f, message, chunks := WriteAll(server, writes, sentAt);
    if !sent {
      return;
    }
    Transmit(server.output.got, input, arrival);
    ResponseArrives(server.aead, server.psk, f.salt, server.clientSalt, sentAt, now, f.payload, chunks,
                    Kept(arrival, |server.output.got|));
  }

  /** What the run of a server leaves for its client. */
  ghost predicate IsResponse(server: Conn, now: int, input: Reader, f: First, chunks: seq<seq<byte>>,
                             writes: seq<seq<byte>>, arrival: Arrival)
    reads server, server.output, input
  {
    var cut, fixed := |input.data|, ResponseFixedSize(server.psk, server.clientSalt);
    && f.payload + Flatten(chunks) == Flatten(writes)
    && |server.output.got| == fixed + |f.payload| + TAG + ChunksSize(chunks)
    && cut == Kept(arrival, |server.output.got|) && input.burst == Min(arrival.first, cut)
    && input.ends == (arrival.atOnce || (cut == 0 && input.idle == 0))
    && ClientGets(server.aead, server.psk, server.clientSalt, now, input.data,
                  ResponseGot(fixed, f.payload, chunks, cut), ResponseSeam(fixed, |f.payload|, chunks, cut))
  }

  lemma {:induction false} ResponseArrives(a: Aead, psk: seq<byte>, serverSalt: seq<byte>, clientSalt: seq<byte>,
                                           ts: uint64, now: int, first: seq<byte>, chunks: seq<seq<byte>>, cut: nat)
    requires Lawful(a) && |serverSalt| == |psk| && |first| <= MAX_CHUNK && ChunkSized(chunks) && InRange(ts, now)
    requires cut <= |ResponseWire(a, psk, serverSalt, ts, clientSalt, first, chunks)|
    ensures var fixed := ResponseFixedSize(psk, clientSalt);
            var wire := ResponseWire(a, psk, serverSalt, ts, clientSalt, first, chunks);
            && |wire| == fixed + |first| + TAG + ChunksSize(chunks)
            && ClientGets(a, psk, clientSalt, now, wire[..cut],
                          ResponseGot(fixed, first, chunks, cut), ResponseSeam(fixed, |first|, chunks, cut))
  {
    ResponseHeadSized(a, psk, serverSalt, ts, clientSalt, first);
    ChunksSized(a, a.derive(psk, serverSalt), 2, chunks);
    ResponseCutExactly(a, psk, serverSalt, clientSalt, ts, now, first, chunks, cut);
  }

  /** What a client reads of a response of which `cut` bytes arrive, `first` of them at
      once, the end along with them or not. If the first message arrives whole, its header
      at once: what arrived. Otherwise nothing - and then the end looks clean exactly if
      the wire stops right behind the fixed-length header, or the end comes along with
      less than that header. */
  ghost predicate ResponseOutcome(through: seq<byte>, status: ReadStatus, breaks: bool, fixed: nat, f: First,
                                  chunks: seq<seq<byte>>, cut: nat, first: nat, atOnce: bool)
  {
    var head := fixed + |f.payload| + TAG;
    if cut >= head && first >= fixed
    then AllThatArrived(through, status, breaks, f.payload, chunks, cut - head, f.payload + Flatten(chunks))
    else
      && through == []
      && (status == AtEof <==> !breaks && ((cut == fixed && first >= fixed) || (cut < fixed && first >= cut && atOnce)))
  }

  /** The client's side, for an input that is a response wire. */
  method ReadResponse(client: Conn, moves: seq<Move>, w: Writer, cap: nat, now: int, ghost f: First,
                      ghost chunks: seq<seq<byte>>, ghost first: nat)
    returns (delivered: seq<byte>, status: ReadStatus, ghost log: seq<Piece>)
    requires client.Valid() && client.FirstDue() && client.CanRead() && cap > 0
    requires var cut, fixed := |client.input.data|, ResponseFixedSize(client.psk, client.clientSalt);
             && client.input.burst == Min(first, cut)
             && ClientGets(client.aead, client.psk, client.clientSalt, now, client.input.data,
                           ResponseGot(fixed, f.payload, chunks, cut), ResponseSeam(fixed, |f.payload|, chunks, cut))
    modifies client`hasReadFirstPayload, client`readerKey, client`nonceReader, client`readerBuf, client`opens,
             client.nonceReader, client.input, w
    ensures client.Valid()
    ensures delivered == Given(log) && w.got == old(w.got) + Drained(log) && (w.failed || delivered == Through(log))
    ensures ResponseOutcome(Through(log), status, client.input.breaks,
                            ResponseFixedSize(client.psk, client.clientSalt), f, chunks,
                            |old(client.input.data)|, first, old(client.input.ends))
  {
    ghost var cut, fixed, atOnce := |client.input.data|, client.FirstBlock(), client.input.ends;
    ghost var s, ends := client.Stream(now), client.WillEnd(now);
    FirstHolds(client, now, ResponseGot(fixed, f.payload, chunks, cut), ResponseSeam(fixed, |f.payload|, chunks, cut),
               first);
    delivered, status, log := ReadEverything(client, moves, w, cap, now);
    ReadOut(Through(log), status, client.input.breaks, s, ends, fixed, f, chunks, cut, first, atOnce);
  }

  /** What a client about to read its first response has before it. */
  lemma FirstHolds(client: Conn, now: int, got: Option<seq<byte>>, seam: bool, first: nat)
    requires client.Valid() && client.FirstDue() && client.CanRead()
    requires client.input.burst == Min(first, |client.input.data|)
    requires ClientGets(client.aead, client.psk, client.clientSalt, now, client.input.data, got, seam)
    ensures var cut, fixed, atOnce := |client.input.data|, client.FirstBlock(), client.input.ends;
            var brings := first >= fixed && cut >= fixed && !(cut == fixed && atOnce);
            && client.Stream(now) == (if brings then got else None)
            && (client.WillEnd(now) <==> !client.input.breaks && if brings then seam
                                                                  else atOnce && first >= cut && cut <= fixed)
  {
  }

  lemma {:induction false} ReadOut(through: seq<byte>, status: ReadStatus, breaks: bool, s: Option<seq<byte>>,
                                   ends: bool, fixed: nat, f: First, chunks: seq<seq<byte>>, cut: nat, first: nat,
                                   atOnce: bool)
    requires Ended(through, s, ends, status)
    requires var brings := first >= fixed && cut >= fixed && !(cut == fixed && atOnce);
             && s == (if brings then ResponseGot(fixed, f.payload, chunks, cut) else None)
             && (ends <==> !breaks && if brings then ResponseSeam(fixed, |f.payload|, chunks, cut)
                                      else atOnce && first >= cut && cut <= fixed)
    ensures ResponseOutcome(through, status, breaks, fixed, f, chunks, cut, first, atOnce)
  {
    var head := fixed + |f.payload| + TAG;
    if cut >= head && first >= fixed {
      Arrived(through, status, breaks, f.payload, chunks, cut - head);
    }
  }

  /** A whole response run, with whatever the wire, its fragmentation and the client's
      reading do; see ResponseOutcome. */
  method ResponseRun(writes: seq<seq<byte>>, sentAt: uint64, now: int, input: Reader, arrival: Arrival,
                     moves: seq<Move>, w: Writer, cap: nat, server: Conn, client: Conn)
    returns (sent: bool, delivered: seq<byte>, status: ReadStatus, ghost log: seq<Piece>, ghost f: First,
             ghost chunks: seq<seq<byte>>)
    requires writes != [] && InRange(sentAt, now)
    requires server.Valid() && !server.isClient && |server.clientSalt| == |server.psk|
    requires !server.hasWriteFirstPayload && server.output.got == []
    requires client.Valid() && client.FirstDue() && client.readerBuf == []
    requires client.aead == server.aead && client.psk == server.psk && client.clientSalt == server.clientSalt
    requires client.input == input && input != server.input && Possible(arrival, input.idle) && cap > 0
    requires client != server && client.output != server.output && w != server.output
    requires Apart(client, server)
    modifies server`hasWriteFirstPayload, server`writerKey, server`nonceWriter, server`seals, server.nonceWriter,
             server.output, server.random, client`hasReadFirstPayload, client`readerKey, client`nonceReader,
             client`readerBuf, client`opens, client.nonceReader, input, w
    ensures sent || server.output.failed
    ensures sent ==>
      && f.salt == old(server.random.Next(|server.psk|)) && server.SealsUnder(f.salt)
      && f.payload + Flatten(chunks) == Flatten(writes)
      && |server.output.got| == ResponseFixedSize(server.psk, server.clientSalt) + |f.payload| + TAG
                                + ChunksSize(chunks)
    ensures sent ==>
      delivered == Given(log) && w.got == old(w.got) + Drained(log) && (w.failed || delivered == Through(log))
    ensures sent ==>
      var cut := Kept(arrival, |server.output.got|);
      ResponseOutcome(Through(log), status, input.breaks, ResponseFixedSize(server.psk, server.clientSalt), f, chunks,
                      cut, arrival.first, arrival.atOnce || (cut == 0 && old(input.idle) == 0))
  {
    delivered, status, log := [], Fine, [];
    sent, f, chunks := SendResponse(server, writes, sentAt, now, input, arrival);
    if sent {
      delivered, status, log := ReadResponse(client, moves, w, cap, now, f, chunks, arrival.first);
    }
  }

  // ------------------------------------------------------------------
  // Both directions

  /** A client that has written nothing, and the server of its connection. */
  ghost predicate CanAsk(client: Conn, server: Conn, addr: SocketAddress)
    reads client, client.nonceWriter, client.nonceReader, client.input, client.output,
          server, server.nonceWriter, server.nonceReader, server.input
  {
    && client.Valid() && client.isClient && |client.clientSalt| == |client.psk|
    && client.accessAddr == Some(addr) && !client.hasWriteFirstPayload && client.output.got == []
    && server.Valid() && !server.isClient && server.readerBuf == []
    && server.aead == client.aead && server.psk == client.psk
    && client != server && client.input != server.input && client.output != server.output && Apart(client, server)
  }

  /** Nothing has gone from the server to the client. */
  ghost predicate Unanswered(server: Conn, client: Conn)
    reads server, server.output, client
  {
    client.FirstDue() && client.readerBuf == [] && !server.hasWriteFirstPayload && server.output.got == []
  }

  /** The two ends agree on everything a first response needs. */
  ghost predicate CanAnswer(server: Conn, client: Conn)
    reads server, server.nonceWriter, server.nonceReader, server.input, server.output,
          client, client.nonceWriter, client.nonceReader, client.input
  {
    && server.Valid() && !server.isClient && |server.clientSalt| == |server.psk|
    && client.Valid() && client.aead == server.aead && client.psk == server.psk
    && client.clientSalt == server.clientSalt
    && client != server && client.input != server.input && client.output != server.output
    && Apart(client, server) && Unanswered(server, client)
  }

  /** A client's question, as the server reads it. */
  method AskRun(addr: SocketAddress, asks: seq<seq<byte>>, askedAt: uint64, pool: Pool<seq<byte>>, clock: nat,
                seen: nat, there: Reader, to: Arrival, w: Writer, cap: nat, client: Conn, server: Conn)
    returns (sent: bool, served: bool, asked: seq<byte>, ghost head: nat)
    requires Representable(addr) && asks != [] && cap > 0 && InRange(askedAt, seen / SECOND)
    requires CanAsk(client, server, addr) && server.input == there && Possible(to, there.idle)
    requires w != client.output && w != server.output
    modifies client`hasWriteFirstPayload, client`writerKey, client`nonceWriter, client`seals, client.nonceWriter,
             client.output, client.random, server`hasReadFirstPayload, server`readerKey, server`nonceReader,
             server`readerBuf, server`opens, server`clientSalt, server`accessAddr, server.nonceReader, there, pool, w
    ensures sent || client.output.failed
    ensures (sent ==> client.SealsUnder(client.clientSalt)) && old(client.random.at) <= client.random.at
    ensures served <==> && sent && Kept(to, |client.output.got|) >= head
                        && Accepts(old(pool.Contents()), client.clientSalt, clock)
                        && to.first >= |client.psk| + FIXED_HEADER + TAG
    ensures served ==>
      server.accessAddr == Some(addr) && (old(Unanswered(server, client)) ==> CanAnswer(server, client))
    ensures served && !w.failed ==> asked <= Flatten(asks)
    ensures served && |client.output.got| <= to.keep && !w.failed ==> asked == Flatten(asks)
  {
    var status;
    ghost var log, f, chunks;
    sent, served, asked, status, log, f, chunks, head :=
      RequestRun(addr, asks, askedAt, pool, clock, seen, there, to, [Drain], w, cap, client, server);
  }

  /** The server's answer to a client it has served, as the client reads it. */
  method AnswerRun(answers: seq<seq<byte>>, answeredAt: uint64, now: int, back: Reader, fro: Arrival, v: Writer,
                   cap: nat, server: Conn, client: Conn)
    returns (answered: bool, answer: seq<byte>, ghost salt: seq<byte>)
    requires answers != [] && cap > 0 && InRange(answeredAt, now) && CanAnswer(server, client)
    requires client.input == back && Possible(fro, back.idle) && v != server.output
    modifies server`hasWriteFirstPayload, server`writerKey, server`nonceWriter, server`seals, server.nonceWriter,
             server.output, server.random, client`hasReadFirstPayload, client`readerKey, client`nonceReader,
             client`readerBuf, client`opens, client.nonceReader, back, v
    ensures answered || server.output.failed
    ensures answered ==> salt == old(server.random.Next(|server.psk|)) && server.SealsUnder(salt)
    ensures answered && !v.failed ==> answer <= Flatten(answers)
    ensures
      var uncut := |server.output.got| <= fro.keep && fro.first >= ResponseFixedSize(client.psk, client.clientSalt);
      answered && uncut && !v.failed ==> answer == Flatten(answers)
  {
    var status;
    ghost var log, f, chunks;
    answered, answer, status, log, f, chunks :=
      ResponseRun(answers, answeredAt, now, back, fro, [Drain], v, cap, server, client);
    salt := f.salt;
  }

  /** One connection, both ways: the request run leaves the two ends in the state that
      the response run needs, so what each direction guarantees holds for a session in
      which the server answers the client it has served. */
  method TwoWayRun(addr: SocketAddress, asks: seq<seq<byte>>, answers: seq<seq<byte>>, askedAt: uint64,
                   answeredAt: uint64, pool: Pool<seq<byte>>, clock: nat, seen: nat, now: int, there: Reader,
                   back: Reader, to: Arrival, fro: Arrival, w: Writer, v: Writer, cap: nat, client: Conn, server: Conn)
    returns (sent: bool, served: bool, answered: bool, asked: seq<byte>, answer: seq<byte>, ghost head: nat,
             ghost salt: seq<byte>, ghost from: nat)
    requires Representable(addr) && asks != [] && answers != [] && cap > 0
    requires InRange(askedAt, seen / SECOND) && InRange(answeredAt, now)
    requires CanAsk(client, server, addr) && Unanswered(server, client)
    requires client.input == back && server.input == there
    requires Possible(to, there.idle) && Possible(fro, back.idle)
    requires w != client.output && w != server.output && v != client.output && v != server.output && v != w
    modifies client, client.nonceWriter, client.nonceReader, client.output, client.random, server, server.nonceWriter,
             server.nonceReader, server.output, server.random, there, back, pool, w, v
    ensures (sent || client.output.failed) && (answered ==> served) && (served && !answered ==> server.output.failed)
    ensures served <==> && sent && Kept(to, |client.output.got|) >= head
                        && Accepts(old(pool.Contents()), old(client.clientSalt), clock)
                        && to.first >= |client.psk| + FIXED_HEADER + TAG
    ensures served ==> server.accessAddr == Some(addr)
    ensures served && !w.failed ==> asked <= Flatten(asks)
    ensures served && |client.output.got| <= to.keep && !w.failed ==> asked == Flatten(asks)
    ensures answered && !v.failed ==> answer <= Flatten(answers)
    ensures
      var uncut := |server.output.got| <= fro.keep && fro.first >= ResponseFixedSize(client.psk, client.clientSalt);
      answered && uncut && !v.failed ==> answer == Flatten(answers)
    ensures answered ==>
      && client.SealsUnder(old(client.clientSalt)) && server.SealsUnder(salt)
      && old(server.random.at) <= from && salt == server.random.Piece(from, |server.psk|)
  {
    answered, answer, salt, from := false, [], [], 0;
    sent, served, asked, head := AskRun(addr, asks, askedAt, pool, clock, seen, there, to, w, cap, client, server);
    if served {
      from := server.random.at;
      ghost var wire, lost := client.output.got, w.failed;
      answered, answer, salt := AnswerRun(answers, answeredAt, now, back, fro, v, cap, server, client);
      assert client.output.got == wire && w.failed == lost;
    }
  }
}
