/** The Trojan carrier: the client's header, the server's detection of it, and the
    two ways a connection goes on from there. */
module Trojan {
  import opened Bytes
  import opened Streams
  import opened SocksAddress
  import PreloadConn

  const CR: byte := 13
  const LF: byte := 10
  const CONNECT: byte := 1

  function Crlf(): (bs: seq<byte>)
  {
    [CR, LF]
  }

  ghost predicate CrlfAt(bs: seq<byte>, k: int)
  {
    0 <= k && k + 1 < |bs| && bs[k] == CR && bs[k + 1] == LF
  }

  ghost predicate HasCrlf(bs: seq<byte>)
  {
    exists k :: CrlfAt(bs, k)
  }

  // ------------------------------------------------------------------
  // The wire

  function Header(hash: seq<byte>, addr: SocketAddress): (bs: seq<byte>)
  {
    hash + Crlf() + [CONNECT] + EncodeAddress(addr) + Crlf()
  }

  datatype Request = Request(addr: SocketAddress, payload: seq<byte>)

  /** What the server reads behind a token of `tokenLen` bytes. The two bytes behind
      the address are skipped whatever they are. */
  function ParseRequest(tokenLen: nat, bs: seq<byte>): (r: Option<Request>)
  {
    if |bs| < tokenLen + 1 || bs[tokenLen] != CONNECT then None
    else
      match ParseAddress(bs[tokenLen + 1..])
      case Malformed => None
      case Address(addr, rest) => if |rest| < 2 then None else Some(Request(addr, rest[2..]))
  }

  lemma RequestRoundTrip(hash: seq<byte>, addr: SocketAddress, payload: seq<byte>)
    ensures ParseRequest(|hash| + 2, Header(hash, addr) + payload) == Some(Request(addr, payload))
       <==> Representable(addr)
  {
    var bs, tail := Header(hash, addr) + payload, Crlf() + payload;
    HeaderParts(hash, addr, payload);
    DecodeEncode(addr, tail);
    assert tail[2..] == payload;
    if ParseAddress(EncodeAddress(addr) + tail).Address? {
      EncodeDecode(EncodeAddress(addr) + tail);
    }
  }

  /** The header is the hash, CRLF, command 1, the address and CRLF. */
  lemma HeaderLayout(hash: seq<byte>, addr: SocketAddress)
    ensures Header(hash, addr) == hash + [13, 10, 1] + EncodeAddress(addr) + [13, 10]
  {
    Assoc(hash, [13, 10], [1]);
  }

  /** What parses behind a token is command 1, an address, any two bytes and the payload,
      and nothing else does. */
  lemma ParsesExactly(tokenLen: nat, bs: seq<byte>, addr: SocketAddress, payload: seq<byte>)
    requires tokenLen <= |bs|
    ensures ParseRequest(tokenLen, bs) == Some(Request(addr, payload))
       <==> Representable(addr) && exists two: seq<byte> ::
              |two| == 2 && bs[tokenLen..] == [1] + (EncodeAddress(addr) + (two + payload))
  {
    var tail := bs[tokenLen..];
    if ParseRequest(tokenLen, bs) == Some(Request(addr, payload)) {
      EncodeDecode(bs[tokenLen + 1..]);
      var rest := ParseAddress(bs[tokenLen + 1..]).rest;
      assert rest == rest[..2] + payload && tail == [1] + bs[tokenLen + 1..];
    }
    if two: seq<byte> :| Representable(addr) && |two| == 2
                         && tail == [1] + (EncodeAddress(addr) + (two + payload)) {
      SplitAt([1], EncodeAddress(addr) + (two + payload));
      assert bs[tokenLen + 1..] == tail[1..];
      DecodeEncode(addr, two + payload);
    }
  }

  lemma HeaderParts(hash: seq<byte>, addr: SocketAddress, payload: seq<byte>)
    ensures var bs, n := Header(hash, addr) + payload, |hash| + 2;
            |bs| > n && bs[n] == CONNECT && bs[n + 1..] == EncodeAddress(addr) + (Crlf() + payload)
  {
    var front, rest := hash + Crlf() + [CONNECT], EncodeAddress(addr) + (Crlf() + payload);
    assert Header(hash, addr) + payload == front + rest;
    SplitAt(front, rest);
  }

  /** A request that is served consists of token, command, address, any two bytes and
      the payload; it is the documented header exactly when the two are CRLF. */
  lemma HeaderUpToTwoBytes(hash: seq<byte>, bs: seq<byte>)
    requires hash + Crlf() <= bs && ParseRequest(|hash| + 2, bs).Some?
    ensures var q, front := ParseRequest(|hash| + 2, bs).value, hash + Crlf() + [CONNECT];
            var at := |front + EncodeAddress(q.addr)|;
            && Representable(q.addr) && at + 2 <= |bs|
            && bs == front + EncodeAddress(q.addr) + bs[at..at + 2] + q.payload
            && (bs == Header(hash, q.addr) + q.payload <==> bs[at..at + 2] == Crlf())
  {
    var q, rest := ParseRequest(|hash| + 2, bs).value, ParseAddress(bs[|hash| + 3..]).rest;
    var front := hash + Crlf() + [CONNECT];
    EncodeDecode(bs[|hash| + 3..]);
    TokenAndCommand(hash, bs);
    Assoc(front, EncodeAddress(q.addr), rest);
    TwoBytes(front + EncodeAddress(q.addr), rest, bs, Crlf());
  }

  lemma TokenAndCommand(hash: seq<byte>, bs: seq<byte>)
    requires hash + Crlf() <= bs && |bs| > |hash| + 2 && bs[|hash| + 2] == CONNECT
    ensures bs == hash + Crlf() + [CONNECT] + bs[|hash| + 3..]
  {
    assert bs[..|hash| + 2] == hash + Crlf();
  }

  lemma TwoBytes(front: seq<byte>, rest: seq<byte>, bs: seq<byte>, two: seq<byte>)
    requires |rest| >= 2 && bs == front + rest && |two| == 2
    ensures bs[|front|..|front| + 2] == rest[..2] && bs == front + rest[..2] + rest[2..]
    ensures bs == front + two + rest[2..] <==> rest[..2] == two
  {
    if bs == front + two + rest[2..] {
      assert rest[0] == bs[|front|] == two[0] && rest[1] == bs[|front| + 1] == two[1];
    }
  }

  // ------------------------------------------------------------------
  // The client

  class Client {
    const conn: Writer
    const addr: SocketAddress
    const hash: seq<byte>
    var hasWriteFirstPayload: bool

    constructor (conn: Writer, addr: SocketAddress, hash: seq<byte>)
      ensures this.conn == conn && this.addr == addr && this.hash == hash && !hasWriteFirstPayload
    {
      this.conn, this.addr, this.hash, hasWriteFirstPayload := conn, addr, hash, false;
    }

    /** The header that is still due. */
    ghost function Due(): seq<byte>
      reads this
    {
      if hasWriteFirstPayload then [] else Header(hash, addr)
    }

    method WriteClientFirstPayload(payload: seq<byte>) returns (n: nat, ok: bool)
      modifies conn
      ensures n <= |payload| && (ok ==> n == |payload|)
      ensures conn.got <= old(conn.got) + (Header(hash, addr) + payload)
      ensures |conn.got| == |old(conn.got)| + |Header(hash, addr)| + n || (n == 0 && !ok)
      ensures ok ==> conn.got == old(conn.got) + (Header(hash, addr) + payload)
      ensures conn.failed == (old(conn.failed) || !ok)
    {
      EncodedSize(addr);
      var headerSize := |hash| + 2 + (1 + AddressSize(addr)) + 2;
      var count;
      count, ok := conn.Write(Header(hash, addr) + payload);
      n := if count > headerSize then count - headerSize else 0;
    }

    method Write(p: seq<byte>) returns (n: nat, ok: bool)
      modifies this`hasWriteFirstPayload, conn
      ensures n <= |p| && hasWriteFirstPayload
      ensures ok ==> n == |p| && conn.got == old(conn.got) + (old(Due()) + p)
      ensures conn.failed == (old(conn.failed) || !ok)
    {
      if !hasWriteFirstPayload {
        hasWriteFirstPayload := true;
        n, ok := WriteClientFirstPayload(p);
        return;
      }
      n, ok := conn.Write(p);
      assert [] + p == p;
    }

    /** ReadFrom: waits for the first payload bytes or the end, sends them with the
        header, and copies the rest. */
    method ReadFrom(r: Reader) returns (n: nat, ok: bool)
      requires r.Valid()
      modifies this`hasWriteFirstPayload, conn, r
      ensures r.Valid() && hasWriteFirstPayload
      ensures ok ==> n == |old(r.data)| && conn.got == old(conn.got) + (old(Due()) + old(r.data))
      ensures ok || r.breaks || conn.failed
    {
      ghost var all := r.data;
      var first := [];
      if !hasWriteFirstPayload {
        hasWriteFirstPayload := true;
        var status := Fine;
        while |first| == 0 && status == Fine
          invariant r.Valid() && hasWriteFirstPayload && first + r.data == all && conn.got == old(conn.got)
          invariant status == Fine || (status == r.End() && r.data == [])
          decreases |r.data|, r.idle, status == Fine
        {
          first, status := r.Read(4096);
        }
        if status == Broken {
          return |first|, false;
        }
        n, ok := WriteClientFirstPayload(first);
        if !ok {
          return |first|, false;
        }
        Assoc(old(conn.got), Header(hash, addr) + first, r.data);
        Assoc(Header(hash, addr), first, r.data);
      }
      assert first == [] ==> [] + all == all;
      n, ok := PreloadConn.Copy(r, conn);
      n := n + |first|;
    }
  }

  // ------------------------------------------------------------------
  // The server

  /** How many bytes detection waits for: up to the length of the token, the end of
      the stream or the end of its first CRLF, whichever comes first. */
  ghost predicate StopsAt(data: seq<byte>, tokenLen: nat, asked: nat)
  {
    && asked <= tokenLen && asked <= |data| + 1 && (forall k :: CrlfAt(data, k) ==> asked <= k + 2)
    && (asked == tokenLen || asked == |data| + 1 || CrlfAt(data, asked - 2))
  }

  /** HasPasswordHash peeks byte by byte and gives up at the first CRLF it meets
      before the place where the token's own CRLF must stand. For every hash: it
      finds the token exactly when the stream starts with it and the hash has no
      CRLF of its own. It waits for no byte behind the first CRLF, and for every
      byte up to there. */
  method HasPasswordHash(r: Reader, hash: seq<byte>) returns (found: bool, status: ReadStatus)
    requires r.Valid() && r.peeked == 0
    modifies r`buffered, r`peeked
    ensures r.Valid() && (status == Fine || status == Broken)
    ensures status == Fine ==> (found <==> hash + Crlf() <= r.data && !HasCrlf(hash))
    ensures status == Broken ==> r.breaks && |r.data| < |hash| + 2
    ensures StopsAt(r.data, |hash| + 2, r.peeked)
  {
    var n := |hash|;
    var wasCR := false;
    var i := 0;
    while i < n + 2
      invariant 0 <= i <= n + 2 && r.Valid() && i <= |r.data| && r.peeked == i
      invariant i == 0 ==> !wasCR
      invariant 0 < i <= n + 1 ==> (wasCR <==> r.data[i - 1] == CR)
      invariant forall k :: CrlfAt(r.data, k) ==> i <= k + 1
      invariant i < n + 2
    {
      var header, s := r.Peek(i + 1);
      if s != Fine {
        return false, if s == AtEof then Fine else Broken;
      }
      if i <= n {
        if wasCR && header[i] == LF {
          assert CrlfAt(r.data, i - 1);
          TokenHasNoEarlyCrlf(hash, r.data, i - 1);
          return false, Fine;
        }
        wasCR := header[i] == CR;
      }
      if i == n + 1 {
        found := wasCR && header[i] == LF && header[..n] == hash;
        TokenAt(hash, r.data);
        return found, Fine;
      }
      i := i + 1;
    }
  }

  lemma TokenHasNoEarlyCrlf(hash: seq<byte>, data: seq<byte>, k: nat)
    requires CrlfAt(data, k) && k < |hash|
    ensures hash + Crlf() <= data ==> HasCrlf(hash)
  {
    if hash + Crlf() <= data {
      var token := hash + Crlf();
      assert token[k] == data[k] && token[k + 1] == data[k + 1];
      assert CrlfAt(hash, k);
    }
  }

  lemma TokenAt(hash: seq<byte>, data: seq<byte>)
    requires |hash| + 2 <= |data| && forall k :: CrlfAt(data, k) ==> |hash| <= k
    ensures data[..|hash|] == hash && data[|hash|] == CR && data[|hash| + 1] == LF
       <==> hash + Crlf() <= data && !HasCrlf(hash)
  {
    var token := hash + Crlf();
    if data[..|hash|] == hash && data[|hash|] == CR && data[|hash| + 1] == LF {
      assert data[..|hash| + 2] == token;
      forall k | CrlfAt(hash, k)
        ensures CrlfAt(data, k)
      {
        assert data[k] == data[..|hash|][k] && data[k + 1] == data[..|hash|][k + 1];
      }
    }
    if token <= data {
      assert data[..|hash| + 2] == token;
    }
  }

  /** `m` is the first byte that cannot occur in the token. */
  ghost predicate FirstImpossible(token: seq<byte>, data: seq<byte>, m: nat)
  {
    m < |token| && m < |data| && data[..m] == token[..m] && data[m] != token[m]
  }

  /** Detection stops at the first impossible byte exactly when that byte is the last
      of the token or the LF of the stream's first CRLF. */
  lemma StopsAtImpossibleExactly(hash: seq<byte>, data: seq<byte>, asked: nat, m: nat)
    requires StopsAt(data, |hash| + 2, asked) && FirstImpossible(hash + Crlf(), data, m)
    ensures asked == m + 1 <==> !HasCrlf(data[..m]) && (m == |hash| + 1 || CrlfAt(data, m - 1))
  {
    if CrlfAt(data, asked - 2) && asked <= m {
      assert CrlfAt(data[..m], asked - 2);
    }
    if k :| CrlfAt(data[..m], k) {
      assert CrlfAt(data, k);
    }
  }

  /** "GET / HTTP/1.1" and CRLF. */
  const GET_LINE: seq<byte> := [71, 69, 84, 32, 47, 32, 72, 84, 84, 80, 47, 49, 46, 49, CR, LF]

  /** So the first line of a web request is waited for in full, although no password
      hash starts like it: hashes are written in 56 hexadecimal digits. */
  lemma WholeRequestLineIsAwaited(hash: seq<byte>, rest: seq<byte>, asked: nat)
    requires |hash| == 56 && hash[0] != GET_LINE[0] && StopsAt(GET_LINE + rest, |hash| + 2, asked)
    ensures FirstImpossible(hash + Crlf(), GET_LINE + rest, 0) && asked == |GET_LINE|
  {
    var data := GET_LINE + rest;
    assert forall i :: 0 <= i < |GET_LINE| ==> data[i] == GET_LINE[i];
    assert CrlfAt(data, 14);
  }

  /** How a connection goes on: to the fallback site, or to a target; either way
      with a connection that starts with the bytes nobody has consumed. */
  datatype Outcome =
    | Fallback(conn: PreloadConn.Conn)
    | Forward(addr: SocketAddress, conn: PreloadConn.Conn)
    | Refused

  /** The buffered bytes are put back in front of the connection. */
  method PutBack(r: Reader) returns (c: PreloadConn.Conn)
    requires r.Valid()
    ensures fresh(c) && fresh(c.conn) && c.Valid() && c.Stream() == r.data
  {
    var conn := new Reader(r.data[r.buffered..], r.breaks, r.idle);
    c := new PreloadConn.Conn(r.data[..r.buffered], conn);
    assert r.data[..r.buffered] + r.data[r.buffered..] == r.data;
  }

  /** ServeAuthenticated: skips the token, reads command, address and CRLF, and
      forwards exactly what follows. */
  method ServeAuthenticated(r: Reader, hash: seq<byte>) returns (out: Outcome)
    requires r.Valid() && |hash| + 2 <= |r.data|
    modifies r
    ensures out.Refused? <==> ParseRequest(|hash| + 2, old(r.data)) == None
    ensures !out.Fallback?
    ensures out.Forward? ==> out.conn.Valid() && fresh(out.conn) && fresh(out.conn.conn)
                             && ParseRequest(|hash| + 2, old(r.data)) == Some(Request(out.addr, out.conn.Stream()))
  {
    ghost var all, n := r.data, |hash| + 2;
    var bs, s := r.ReadFull(|hash| + 2);
    bs, s := r.ReadFull(1);
    if s != Fine || bs[0] != CONNECT {
      return Refused;
    }
    assert r.data == all[n + 1..];
    var plain := new PreloadConn.Conn([], r);
    assert plain.Stream() == r.data;
    var addr := ReadAddress(plain);
    if addr == None {
      return Refused;
    }
    assert plain.Stream() == r.data;
    bs, s := r.ReadFull(2);
    if s != Fine {
      return Refused;
    }
    var c := PutBack(r);
    out := Forward(addr.value, c);
  }

  /** serve: a stream that does not start with the token reaches the fallback
      unchanged from its first byte; one that does yields its address and payload. */
  method Serve(r: Reader, hash: seq<byte>) returns (out: Outcome)
    requires r.Valid() && r.buffered == 0 && r.peeked == 0 && !HasCrlf(hash)
    modifies r
    ensures out.Fallback? ==> !(hash + Crlf() <= old(r.data)) && out.conn.Valid() && out.conn.Stream() == old(r.data)
    ensures out.Forward? ==> hash + Crlf() <= old(r.data) && out.conn.Valid()
                             && ParseRequest(|hash| + 2, old(r.data)) == Some(Request(out.addr, out.conn.Stream()))
    ensures hash + Crlf() <= old(r.data) ==> (out.Forward? <==> ParseRequest(|hash| + 2, old(r.data)).Some?)
    ensures !(hash + Crlf() <= old(r.data)) && out.Refused? ==> r.breaks
  {
    var found, status := HasPasswordHash(r, hash);
    if status != Fine {
      return Refused;
    }
    if !found {
      var c := PutBack(r);
      return Fallback(c);
    }
    out := ServeAuthenticated(r, hash);
  }

  /** From client to server: the server forwards to the client's address exactly the
      bytes the client was given to write. */
  method TrojanRun(hash: seq<byte>, addr: SocketAddress, writes: seq<seq<byte>>, breaks: bool, idle: nat, w: Writer)
    returns (sent: bool, out: Outcome)
    requires !HasCrlf(hash) && Representable(addr) && writes != [] && w.got == []
    modifies w
    ensures sent || w.failed
    ensures sent ==> out.Forward? && out.addr == addr && out.conn.Valid() && out.conn.Stream() == Flatten(writes)
  {
    var client := new Client(w, addr, hash);
    sent := WriteAll(client, writes);
    var r := new Reader(w.got, breaks, idle);
    if sent {
      RequestRoundTrip(hash, addr, Flatten(writes));
      HeaderStartsWithToken(hash, addr, Flatten(writes));
    }
    out := Serve(r, hash);
  }

  /** The client's side of a run. */
  method WriteAll(client: Client, writes: seq<seq<byte>>) returns (sent: bool)
    requires !client.hasWriteFirstPayload && writes != [] && client.conn.got == []
    modifies client`hasWriteFirstPayload, client.conn
    ensures sent || client.conn.failed
    ensures sent ==> client.conn.got == Header(client.hash, client.addr) + Flatten(writes)
  {
    ghost var header := Header(client.hash, client.addr);
    sent := true;
    var i := 0;
    assert [] + header == header + [];
    while i < |writes| && sent
      invariant 0 <= i <= |writes| && client.hasWriteFirstPayload == (i > 0)
      invariant sent ==> client.conn.got + client.Due() == header + Flatten(writes[..i])
      invariant sent || client.conn.failed
    {
      var n;
      ghost var got, due := client.conn.got, client.Due();
      n, sent := client.Write(writes[i]);
      NextWrite(got, due, header, writes, i);
      i := i + 1;
    }
    assert writes[..|writes|] == writes;
    assert client.conn.got + [] == client.conn.got;
  }

  lemma NextWrite(got: seq<byte>, due: seq<byte>, header: seq<byte>, writes: seq<seq<byte>>, i: nat)
    requires i < |writes|
    ensures got + due == header + Flatten(writes[..i]) ==>
      got + (due + writes[i]) + [] == header + Flatten(writes[..i + 1])
  {
    FlattenSnoc(writes[..i], writes[i]);
    assert writes[..i] + [writes[i]] == writes[..i + 1];
    Assoc(header, Flatten(writes[..i]), writes[i]);
    Assoc(got, due, writes[i]);
  }

  lemma HeaderStartsWithToken(hash: seq<byte>, addr: SocketAddress, payload: seq<byte>)
    ensures hash + Crlf() <= Header(hash, addr) + payload
  {
    assert Header(hash, addr) + payload == hash + Crlf() + ([CONNECT] + EncodeAddress(addr) + Crlf() + payload);
  }
}
