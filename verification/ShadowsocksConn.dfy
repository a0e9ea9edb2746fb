/** The Shadowsocks 2022 stream connection: its write path, which seals in place at
    computed offsets of recycled buffers, and its two read paths, which share one
    leftover buffer. Each is proved against the functions on byte strings. */
module ShadowsocksConn {
  import opened Bytes
  import opened Streams
  import opened Buffers
  import opened SocksAddress
  import opened SaltPool
  import opened ShadowsocksWire
  import opened ShadowsocksHeaders

  /** The connection took a prefix of `message`, and all of it unless it failed. */
  ghost predicate Wrote(before: seq<byte>, after: seq<byte>, message: seq<byte>, ok: bool)
  {
    after <= before + message && (ok ==> after == before + message)
  }

  /** Writes a fixed-length header field by field. */
  method FillFixed(buf: array<byte>, lo: nat, kind: byte, ts: uint64, echoedSalt: seq<byte>, len: uint16)
    requires lo + FIXED_HEADER + |echoedSalt| <= buf.Length
    modifies buf
    ensures buf[lo..lo + FIXED_HEADER + |echoedSalt|] == FixedHeader(kind, ts, echoedSalt, len)
    ensures forall i :: 0 <= i < lo || lo + FIXED_HEADER + |echoedSalt| <= i < buf.Length ==> buf[i] == old(buf[i])
  {
    var at := Append(buf, lo, lo, [kind]);
    at := Append(buf, lo, at, PutU64(ts));
    at := Append(buf, lo, at, echoedSalt);
    at := Append(buf, lo, at, PutU16(len));
  }

  /** Writes the variable-length request header field by field. */
  method FillBody(buf: array<byte>, lo: nat, addr: SocketAddress, padding: seq<byte>, payload: seq<byte>)
    requires lo + AddressSize(addr) + LEN_FIELD + |padding| + |payload| <= buf.Length
    modifies buf
    ensures |RequestBody(addr, padding, payload)| == AddressSize(addr) + LEN_FIELD + |padding| + |payload|
    ensures buf[lo..lo + |RequestBody(addr, padding, payload)|] == RequestBody(addr, padding, payload)
    ensures forall i :: 0 <= i < lo || lo + |RequestBody(addr, padding, payload)| <= i < buf.Length ==>
                          buf[i] == old(buf[i])
  {
    EncodedSize(addr);
    var at := Append(buf, lo, lo, EncodeAddress(addr));
    assert buf[lo..at] == EncodeAddress(addr);
    at := Append(buf, lo, at, PutU16(ToU16(|padding|)));
    at := Append(buf, lo, at, padding);
    assert buf[lo..at] == EncodeAddress(addr) + PutU16(ToU16(|padding|)) + padding;
    at := Append(buf, lo, at, payload);
  }

  /** The address leaves room for the padding in a first chunk; a name would have to
      be 64 thousand bytes long not to. */
  predicate LeavesRoom(addr: SocketAddress)
  {
    AddressSize(addr) + LEN_FIELD + MAX_PADDING <= MAX_CHUNK
  }

  /** `chunks` is a split of what was taken from `before`, leaving `after`. */
  ghost predicate Splits(chunks: seq<seq<byte>>, before: seq<byte>, after: seq<byte>)
  {
    && Flatten(chunks) + after == before
    && forall i :: 0 <= i < |chunks| ==> 0 < |chunks[i]| <= MAX_CHUNK
  }

  /** A split that leaves nothing carries everything, behind what came before. */
  lemma {:induction false} AllSplit(first: seq<byte>, chunks: seq<seq<byte>>, data: seq<byte>)
    requires first <= data && Splits(chunks, data[|first|..], [])
    ensures first + Flatten(chunks) == data && ChunkSized(chunks)
  {
    assert Flatten(chunks) + [] == Flatten(chunks);
  }

  lemma {:induction false} NoChunks(message: seq<byte>, a: Aead, k: Key, data: seq<byte>)
    ensures message + Chunks(a, k, 2, []) == message && Splits([], data, data)
  {
    assert [] + data == data;
  }

  /** The bytes `data` are on their way from a source that has `left` still to give:
      cut into `chunks`, sealed from counter `n` on, and sent behind `start`. */
  ghost predicate Underway(a: Aead, k: Key, n: nat, chunks: seq<seq<byte>>, data: seq<byte>, left: seq<byte>,
                           start: seq<byte>, got: seq<byte>, ok: bool)
  {
    Splits(chunks, data, left) && Wrote(start, got, Chunks(a, k, n, chunks), ok)
  }

  ghost function Grown(chunks: seq<seq<byte>>, bs: seq<byte>): seq<seq<byte>>
  {
    if bs == [] then chunks else chunks + [bs]
  }

  /** One turn of the loop extends the encoded stream and the payload alike. */
  lemma {:induction false} ChunkSent(a: Aead, k: Key, n: nat, chunks: seq<seq<byte>>, bs: seq<byte>, data: seq<byte>,
                                     left: seq<byte>, start: seq<byte>, got: seq<byte>, got': seq<byte>, ok: bool)
    requires Underway(a, k, n, chunks, data, bs + left, start, got, true) && |bs| <= MAX_CHUNK
    requires if bs == [] then got' == got else Wrote(got, got', Chunk(a, k, n + 2 * |chunks|, bs), ok)
    ensures Underway(a, k, n, Grown(chunks, bs), data, left, start, got', ok)
    ensures |Flatten(Grown(chunks, bs))| == |Flatten(chunks)| + |bs|
    ensures |Grown(chunks, bs)| == |chunks| + if bs == [] then 0 else 1
  {
    if bs == [] {
      assert bs + left == left;
    } else {
      ChunksSnoc(a, k, n, chunks, bs);
      FlattenSnoc(chunks, bs);
      Assoc(Flatten(chunks), bs, left);
      Assoc(start, Chunks(a, k, n, chunks), Chunk(a, k, n + 2 * |chunks|, bs));
    }
  }

  /** One operation on, the nonce encodes the next number. */
  method Advance(nonce: array<byte>, ghost n: nat)
    requires nonce[..] == Nonce(n)
    modifies nonce
    ensures nonce[..] == Nonce(n + 1)
  {
    IncNonce(nonce);
    SuccessorOfPutLE(n, NONCE_SIZE);
  }

  /** What a first message carried besides the fixed parts. */
  datatype First = First(salt: seq<byte>, padding: seq<byte>, payload: seq<byte>)

  class Conn {
    const aead: Aead
    const psk: seq<byte>
    const isClient: bool
    const input: Reader
    const output: Writer
    const random: Entropy

    var accessAddr: Option<SocketAddress>
    var clientSalt: seq<byte>
    var writerKey: Option<Key>
    var nonceWriter: array<byte>
    var readerKey: Option<Key>
    var nonceReader: array<byte>
    var readerBuf: seq<byte>
    var hasWriteFirstPayload: bool
    var hasReadFirstPayload: bool

    /** Chunks sealed under the writer's subkey, and opened under the reader's. */
    ghost var seals: nat
    ghost var opens: nat

    /** The nonces count the chunks. */
    ghost predicate Valid()
      reads this, nonceWriter, nonceReader, input
    {
      && Lawful(aead) && input.Valid()
      && nonceWriter != nonceReader
      && (writerKey.Some? ==> nonceWriter[..] == Nonce(seals))
      && (if readerKey.Some? then nonceReader[..] == Nonce(opens) else readerBuf == [])
    }

    constructor Client(input: Reader, output: Writer, random: Entropy, addr: SocketAddress, psk: seq<byte>,
                       salt: seq<byte>, aead: Aead)
      requires Lawful(aead) && input.Valid()
      ensures Valid() && isClient && this.input == input && this.output == output && this.random == random
      ensures this.psk == psk && this.aead == aead && clientSalt == salt && accessAddr == Some(addr)
      ensures !hasWriteFirstPayload && !hasReadFirstPayload && readerBuf == []
      ensures fresh(nonceWriter) && fresh(nonceReader)
    {
      this.input, this.output, this.random, this.psk, this.aead, isClient := input, output, random, psk, aead, true;
      accessAddr, clientSalt, readerBuf := Some(addr), salt, [];
      writerKey, readerKey, hasWriteFirstPayload, hasReadFirstPayload := None, None, false, false;
      nonceWriter, nonceReader := new byte[0], new byte[0];
    }

    constructor Server(input: Reader, output: Writer, random: Entropy, psk: seq<byte>, aead: Aead)
      requires Lawful(aead) && input.Valid()
      ensures Valid() && !isClient && this.input == input && this.output == output && this.random == random
      ensures this.psk == psk && this.aead == aead && accessAddr == None
      ensures !hasWriteFirstPayload && !hasReadFirstPayload && readerBuf == []
      ensures fresh(nonceWriter) && fresh(nonceReader)
    {
      this.input, this.output, this.random, this.psk, this.aead, isClient := input, output, random, psk, aead, false;
      accessAddr, clientSalt, readerBuf := None, [], [];
      writerKey, readerKey, hasWriteFirstPayload, hasReadFirstPayload := None, None, false, false;
      nonceWriter, nonceReader := new byte[0], new byte[0];
    }

    // ----------------------------------------------------------------
    // Sealing

    method SetAeadWriter(key: Key)
      requires Valid()
      modifies this`writerKey, this`nonceWriter, this`seals
      ensures Valid() && writerKey == Some(key) && seals == 0 && fresh(nonceWriter)
    {
      writerKey, seals := Some(key), 0;
      nonceWriter := new byte[NONCE_SIZE](_ => 0);
      PutLEZero(NONCE_SIZE);
      assert nonceWriter[..] == Zeros(NONCE_SIZE);
    }

    /** Seals buf[lo..hi] where it lies. The tag needs room behind it: the caller's
        slice must have the capacity, or the sealed bytes would land elsewhere. */
    method EncryptInPlace(buf: array<byte>, lo: nat, hi: nat)
      requires Valid() && writerKey.Some?
      requires lo <= hi && hi + TAG <= buf.Length && buf != nonceWriter && buf != nonceReader
      modifies buf, nonceWriter, this`seals
      ensures Valid() && seals == old(seals) + 1
      ensures buf[lo..hi + TAG] == aead.seal(writerKey.value, Nonce(old(seals)), old(buf[lo..hi]))
      ensures forall i :: 0 <= i < lo || hi + TAG <= i < buf.Length ==> buf[i] == old(buf[i])
    {
      assert SealLaw(aead, writerKey.value, nonceWriter[..], buf[lo..hi]);
      Put(buf, lo, aead.seal(writerKey.value, nonceWriter[..], buf[lo..hi]));
      Advance(nonceWriter, seals);
      seals := seals + 1;
    }

    /** Seals buf[lo..mid], then buf[mid + TAG..hi], each where it lies: the tag of
        the first fills the gap, so the second plaintext is still intact. */
    method EncryptPairInPlace(buf: array<byte>, lo: nat, mid: nat, hi: nat)
      requires Valid() && writerKey.Some?
      requires lo <= mid && mid + TAG <= hi && hi + TAG <= buf.Length && buf != nonceWriter && buf != nonceReader
      modifies buf, nonceWriter, this`seals
      ensures Valid() && seals == old(seals) + 2
      ensures buf[..lo] == old(buf[..lo])
      ensures buf[lo..hi + TAG]
           == aead.seal(writerKey.value, Nonce(old(seals)), old(buf[lo..mid]))
            + aead.seal(writerKey.value, Nonce(old(seals) + 1), old(buf[mid + TAG..hi]))
    {
      ghost var second := buf[mid + TAG..hi];
      EncryptInPlace(buf, lo, mid);
      assert buf[mid + TAG..hi] == second;
      ghost var firstSealed := buf[lo..mid + TAG];
      EncryptInPlace(buf, mid + TAG, hi);
      assert buf[lo..mid + TAG] == firstSealed;
      assert buf[lo..hi + TAG] == buf[lo..mid + TAG] + buf[mid + TAG..hi + TAG];
    }

    // ----------------------------------------------------------------
    // Writing

    /** Seals a laid-out first message in place and sends the whole buffer. */
    method SealAndSendFirst(buf: array<byte>, salt: seq<byte>, fixedLen: nat, ghost fixed: seq<byte>,
                            ghost v: seq<byte>)
      returns (ok: bool)
      requires Valid() && buf != nonceReader
      requires fixedLen == |fixed| && buf.Length == |salt| + fixedLen + TAG + |v| + TAG
      requires buf[..|salt|] == salt && buf[|salt|..|salt| + fixedLen] == fixed
      requires buf[|salt| + fixedLen + TAG..buf.Length - TAG] == v
      modifies this`writerKey, this`nonceWriter, this`seals, output, buf
      ensures Valid() && writerKey == Some(aead.derive(psk, salt)) && seals == 2 && fresh(nonceWriter)
      ensures var k := aead.derive(psk, salt);
              Wrote(old(output.got), output.got, salt + (aead.seal(k, Nonce(0), fixed) + aead.seal(k, Nonce(1), v)), ok)
      ensures ok || output.failed
    {
      SetAeadWriter(aead.derive(psk, salt));
      SealLaidOut(buf, |salt|, |salt| + fixedLen, fixed, v);
      ok := Send(buf[..]);
    }

    method Send(message: seq<byte>) returns (ok: bool)
      modifies output
      ensures Wrote(old(output.got), output.got, message, ok) && (ok || output.failed)
    {
      var n;
      n, ok := output.Write(message);
    }

    /** Seals both parts of a first message behind its salt, buf[..lo]. */
    method SealLaidOut(buf: array<byte>, lo: nat, mid: nat, ghost fixed: seq<byte>, ghost v: seq<byte>)
      requires Valid() && writerKey.Some? && buf != nonceReader && buf != nonceWriter
      requires lo <= mid && mid + TAG <= buf.Length - TAG
      requires buf[lo..mid] == fixed && buf[mid + TAG..buf.Length - TAG] == v
      modifies buf, nonceWriter, this`seals
      ensures Valid() && seals == old(seals) + 2
      ensures buf[..] == old(buf[..lo]) + (aead.seal(writerKey.value, Nonce(old(seals)), fixed)
                                           + aead.seal(writerKey.value, Nonce(old(seals) + 1), v))
    {
      EncryptPairInPlace(buf, lo, mid, buf.Length - TAG);
      assert buf[..] == buf[..lo] + buf[lo..buf.Length - TAG + TAG];
    }

    /** The first request. What leaves is exactly the sealed header: every byte
        of the recycled buffer was overwritten, and neither seal touched the
        plaintext of the other. Its length field wraps only for an address that
        leaves no room for the padding. */
    method WriteClientFirstPayload(payload: seq<byte>, now: uint64) returns (ok: bool, ghost padding: seq<byte>)
      requires Valid() && accessAddr.Some? && |clientSalt| == |psk|
      requires AddressSize(accessAddr.value) + LEN_FIELD + |payload| <= MAX_CHUNK
      modifies this`writerKey, this`nonceWriter, this`seals, output, random
      ensures Valid() && writerKey == Some(aead.derive(psk, clientSalt)) && seals == 2 && fresh(nonceWriter)
      ensures padding == if payload == [] then old(random.Next(random.NextBelow(900) + 1)) else []
      ensures random.at == old(random.at) + |padding|
      ensures |RequestBody(accessAddr.value, padding, payload)|
           == AddressSize(accessAddr.value) + LEN_FIELD + |padding| + |payload|
      ensures Wrote(old(output.got), output.got,
                    RequestHead(aead, psk, clientSalt, now, accessAddr.value, padding, payload), ok)
      ensures ok || output.failed
    {
      var paddingLen := PickPadding(payload);
      var bodyLen := AddressSize(accessAddr.value) + LEN_FIELD + paddingLen + |payload|;
      var bodyStart := |psk| + FIXED_HEADER + TAG;
      var buf := new byte[bodyStart + bodyLen + TAG];
      padding := FillRequest(buf, paddingLen, payload, now);
      assert padding == if payload == [] then old(random.Next(random.NextBelow(900) + 1)) else [];
      ghost var body := RequestBody(accessAddr.value, padding, payload);
      ok := SealAndSendFirst(buf, clientSalt, FIXED_HEADER, FixedHeader(CLIENT_STREAM, now, [], ToU16(|body|)), body);
    }

    /** A request without payload is padded. */
    method PickPadding(payload: seq<byte>) returns (len: nat)
      modifies random`drawn
      ensures len == if payload == [] then old(random.NextBelow(900)) + 1 else 0
    {
      len := 0;
      if |payload| <= 0 {
        len := random.Below(MAX_PADDING);
        len := len + 1;
      }
    }

    /** Lays out the plaintext of the first request in `buf`, leaving a gap for the
        tag of the fixed-length header. */
    method FillRequest(buf: array<byte>, paddingLen: nat, payload: seq<byte>, now: uint64) returns (padding: seq<byte>)
      requires accessAddr.Some? && |clientSalt| == |psk|
      requires var bodyLen := AddressSize(accessAddr.value) + LEN_FIELD + paddingLen + |payload|;
               buf.Length == |psk| + FIXED_HEADER + TAG + bodyLen + TAG
      modifies buf, random`at
      ensures padding == old(random.Next(paddingLen)) && random.at == old(random.at) + paddingLen
      ensures buf[..|psk|] == clientSalt
      ensures var body := RequestBody(accessAddr.value, padding, payload);
              && |body| == AddressSize(accessAddr.value) + LEN_FIELD + paddingLen + |payload|
              && buf[|psk|..|psk| + FIXED_HEADER] == FixedHeader(CLIENT_STREAM, now, [], ToU16(|body|))
              && buf[|psk| + FIXED_HEADER + TAG..buf.Length - TAG] == body
    {
      padding := random.Bytes(paddingLen);
      FillHeaders(buf, padding, payload, now);
      ghost var fixed, body := buf[|psk|..|psk| + FIXED_HEADER], buf[|psk| + FIXED_HEADER + TAG..buf.Length - TAG];
      Put(buf, 0, clientSalt);
      assert buf[|psk|..|psk| + FIXED_HEADER] == fixed;
      assert buf[|psk| + FIXED_HEADER + TAG..buf.Length - TAG] == body;
    }

    /** The two headers of the first request. */
    method FillHeaders(buf: array<byte>, padding: seq<byte>, payload: seq<byte>, now: uint64)
      requires accessAddr.Some?
      requires buf.Length == |psk| + FIXED_HEADER + TAG
                             + AddressSize(accessAddr.value) + LEN_FIELD + |padding| + |payload| + TAG
      modifies buf
      ensures var body := RequestBody(accessAddr.value, padding, payload);
              && |body| == AddressSize(accessAddr.value) + LEN_FIELD + |padding| + |payload|
              && buf[|psk|..|psk| + FIXED_HEADER] == FixedHeader(CLIENT_STREAM, now, [], ToU16(|body|))
              && buf[|psk| + FIXED_HEADER + TAG..buf.Length - TAG] == body
    {
      var bodyStart := |psk| + FIXED_HEADER + TAG;
      FillFixed(buf, |psk|, CLIENT_STREAM, now, [], ToU16(buf.Length - TAG - bodyStart));
      ghost var fixed := buf[|psk|..|psk| + FIXED_HEADER];
      FillBody(buf, bodyStart, accessAddr.value, padding, payload);
      assert buf[|psk|..|psk| + FIXED_HEADER] == fixed;
    }

    /** The first response, under a fresh salt and echoing the client's. */
    method WriteServerFirstPayload(payload: seq<byte>, now: uint64) returns (ok: bool, ghost serverSalt: seq<byte>)
      requires Valid() && |clientSalt| == |psk| && |payload| <= MAX_CHUNK
      modifies this`writerKey, this`nonceWriter, this`seals, output, random
      ensures Valid() && serverSalt == old(random.Next(|psk|)) && fresh(nonceWriter)
      ensures random.at == old(random.at) + |psk|
      ensures writerKey == Some(aead.derive(psk, serverSalt)) && seals == 2
      ensures Wrote(old(output.got), output.got,
                    ResponseHead(aead, psk, serverSalt, now, clientSalt, payload), ok)
      ensures ok || output.failed
    {
      var fixedLen := FIXED_HEADER + |psk|;
      var buf := new byte[|psk| + fixedLen + TAG + |payload| + TAG];
      var salt := FillResponse(buf, payload, now);
      serverSalt := salt;
      ghost var fixed := FixedHeader(SERVER_STREAM, now, clientSalt, ToU16(|payload|));
      ok := SealAndSendFirst(buf, salt, fixedLen, fixed, payload);
    }

    /** Lays out the plaintext of the first response in `buf`, behind a fresh salt and
        with a gap for the tag of the fixed-length header. */
    method FillResponse(buf: array<byte>, payload: seq<byte>, now: uint64) returns (salt: seq<byte>)
      requires |clientSalt| == |psk|
      requires buf.Length == |psk| + FIXED_HEADER + |psk| + TAG + |payload| + TAG
      modifies buf, random`at
      ensures salt == old(random.Next(|psk|)) && random.at == old(random.at) + |psk| && buf[..|psk|] == salt
      ensures buf[|psk|..|psk| + FIXED_HEADER + |psk|] == FixedHeader(SERVER_STREAM, now, clientSalt, ToU16(|payload|))
      ensures buf[|psk| + FIXED_HEADER + |psk| + TAG..buf.Length - TAG] == payload
    {
      var fixedEnd := |psk| + FIXED_HEADER + |psk|;
      salt := random.Bytes(|psk|);
      Put(buf, 0, salt);
      FillFixed(buf, |psk|, SERVER_STREAM, now, clientSalt, ToU16(|payload|));
      assert buf[..|psk|] == salt;
      ghost var fixed := buf[|psk|..fixedEnd];
      Put(buf, fixedEnd + TAG, payload);
      assert buf[..|psk|] == salt && buf[|psk|..fixedEnd] == fixed;
    }

    /** The chunk loop of ReadFrom: what leaves is the chunk encoding of some
        split of the source into non-empty pieces, cut short only by a failing
        connection. */
    method SendChunks(r: Reader) returns (n: nat, ok: bool, ghost chunks: seq<seq<byte>>)
      requires Valid() && r.Valid() && writerKey.Some?
      modifies nonceWriter, this`seals, output, r
      ensures Valid() && r.Valid() && seals == old(seals) + 2 * |chunks|
      ensures Splits(chunks, old(r.data), r.data) && n == |Flatten(chunks)|
      ensures (ok ==> r.data == [] && !r.breaks) && (ok || r.breaks || output.failed)
      ensures Wrote(old(output.got), output.got, Chunks(aead, writerKey.value, old(seals), chunks), ok)
    {
      var buf := new byte[LEN_FIELD + TAG + MAX_CHUNK + TAG];
      n, chunks := 0, [];
      ghost var key, first, data, start := writerKey.value, seals, r.data, output.got;
      var more := true;
      ok := true;
      while more
        invariant Valid() && r.Valid() && fresh(buf)
        invariant seals == first + 2 * |chunks|
        invariant Underway(aead, key, first, chunks, data, r.data, start, output.got, ok)
        invariant n == |Flatten(chunks)|
        invariant if more then ok else ok ==> r.data == [] && !r.breaks
        invariant ok || r.breaks || output.failed
        decreases |r.data|, r.idle, more
      {
        ghost var got := output.got;
        var bs, status, sent := ReadAndSendChunk(buf, r);
        n := n + |bs|;
        ChunkSent(aead, key, first, chunks, bs, data, r.data, start, got, output.got, sent);
        chunks := Grown(chunks, bs);
        more := sent && status == Fine;
        ok := sent && (status == Fine || status == AtEof);
      }
    }

    /** One turn of the chunk loop: the bytes go out even when the source ends with them. */
    method ReadAndSendChunk(buf: array<byte>, r: Reader) returns (bs: seq<byte>, status: ReadStatus, sent: bool)
      requires Valid() && r.Valid() && writerKey.Some?
      requires buf.Length == LEN_FIELD + TAG + MAX_CHUNK + TAG && buf != nonceWriter && buf != nonceReader
      modifies buf, nonceWriter, this`seals, output, r
      ensures Valid() && r.Valid() && |bs| == Min(65535, old(r.burst)) && bs + r.data == old(r.data)
      ensures status == Fine || (status == r.End() && r.data == [])
      ensures r.idle <= old(r.idle)
      ensures bs == [] && status == Fine ==> r.idle < old(r.idle)
      ensures bs == [] ==> sent && seals == old(seals) && output.got == old(output.got)
      ensures sent || output.failed
      ensures bs != [] ==> seals == old(seals) + 2
      ensures bs != [] ==> Wrote(old(output.got), output.got, Chunk(aead, writerKey.value, old(seals), bs), sent)
    {
      sent := true;
      bs, status := r.Read(MAX_CHUNK);
      if |bs| > 0 {
        sent := SealAndSendChunk(buf, bs);
      }
    }

    /** One length-and-payload chunk through the recycled buffer. */
    method SealAndSendChunk(buf: array<byte>, bs: seq<byte>) returns (ok: bool)
      requires Valid() && writerKey.Some? && |bs| <= MAX_CHUNK
      requires buf.Length == LEN_FIELD + TAG + MAX_CHUNK + TAG && buf != nonceWriter && buf != nonceReader
      modifies buf, nonceWriter, this`seals, output
      ensures Valid() && seals == old(seals) + 2
      ensures Wrote(old(output.got), output.got, Chunk(aead, writerKey.value, old(seals), bs), ok)
      ensures ok || output.failed
    {
      var payloadStart := LEN_FIELD + TAG;
      Put(buf, payloadStart, bs);
      ghost var plain := buf[payloadStart..payloadStart + |bs|];
      Put(buf, 0, PutU16(ToU16(|bs|)));
      assert buf[payloadStart..payloadStart + |bs|] == plain;
      EncryptPairInPlace(buf, 0, LEN_FIELD, payloadStart + |bs|);
      assert buf[..payloadStart + |bs| + TAG] == buf[0..payloadStart + |bs| + TAG];
      ok := Send(buf[..payloadStart + |bs| + TAG]);
    }

    /** Writing has a cipher, or is about to get one with a first message that fits. */
    ghost predicate CanWrite()
      reads this
    {
      CanStart() && if hasWriteFirstPayload then writerKey.Some? else FirstRoom() >= 0
    }

    /** The end knows what it needs for a first message. */
    ghost predicate CanStart()
      reads this
    {
      |clientSalt| == |psk| && (isClient ==> accessAddr.Some?)
    }

    /** How much payload fits into the first message: its length field must not wrap. */
    function FirstRoom(): (n: int)
      requires isClient ==> accessAddr.Some?
      reads this
    {
      if isClient then MAX_CHUNK - AddressSize(accessAddr.value) - LEN_FIELD else MAX_CHUNK
    }

    /** As much as a length field of 16 bits leaves behind address and padding length. */
    lemma FirstRoomExactly()
      requires isClient ==> accessAddr.Some?
      ensures FirstRoom() == 65535 - if isClient then |EncodeAddress(accessAddr.value)| + 2 else 0
    {
      if isClient {
        EncodedSize(accessAddr.value);
      }
    }

    /** Writing `data` crashes: it dereferences a missing cipher, after a first message
        whose source could not be read, or slices a buffer at a negative length, for an
        address that does not even fit into a chunk. */
    ghost predicate WriteCrashes(data: seq<byte>)
      requires CanStart()
      reads this
    {
      if hasWriteFirstPayload then writerKey == None && data != [] else FirstRoom() < 0
    }

    /** Chunks are sealed under the subkey of this salt. */
    ghost predicate SealsUnder(salt: seq<byte>)
      reads this`writerKey
    {
      writerKey == Some(aead.derive(psk, salt))
    }

    /** That is: for want of a cipher with a byte to seal, or for a first message whose
        address and padding length exceed 65535 bytes. */
    lemma WriteCrashesExactly(data: seq<byte>)
      requires CanStart()
      ensures WriteCrashes(data) <==>
              if hasWriteFirstPayload then writerKey.None? && |data| > 0
              else isClient && |EncodeAddress(accessAddr.value)| + 2 > 65535
    {
      FirstRoomExactly();
    }

    /** `message` is a first message of this end carrying `f`. */
    ghost predicate IsFirstMessage(message: seq<byte>, f: First, now: uint64)
      reads this`accessAddr, this`clientSalt
    {
      if isClient then
        && accessAddr.Some? && f.salt == clientSalt && |f.padding| + |f.payload| > 0
        && |f.padding| <= MAX_PADDING
        && (LeavesRoom(accessAddr.value) ==> |RequestBody(accessAddr.value, f.padding, f.payload)| <= MAX_CHUNK)
        && message == RequestHead(aead, psk, f.salt, now, accessAddr.value, f.padding, f.payload)
      else
        && |f.salt| == |psk| && |f.payload| <= MAX_CHUNK
        && message == ResponseHead(aead, psk, f.salt, now, clientSalt, f.payload)
    }

    /** What a first message with this payload draws, from where the generator stands: a
        server its salt, and a client the padding of a request without payload. */
    ghost function Fresh(at: nat, drawn: nat, payload: seq<byte>): (f: First)
      reads this`clientSalt
      ensures f.payload == payload
    {
      if !isClient then First(random.Piece(at, |psk|), [], payload)
      else First(clientSalt, if payload == [] then random.Piece(at, random.numbers(drawn) % 900 + 1) else [], payload)
    }

    /** The first-payload block of ReadFrom: one read of the source fills the first message. */
    method SendFirst(r: Reader, now: uint64) returns (n: nat, ok: bool, ghost f: First, ghost message: seq<byte>)
      requires Valid() && r.Valid() && CanWrite() && !hasWriteFirstPayload
      modifies this`hasWriteFirstPayload, this`writerKey, this`nonceWriter, this`seals, output, random, r
      ensures Valid() && r.Valid() && hasWriteFirstPayload && n == |f.payload|
      ensures f.payload <= old(r.data) && r.data == old(r.data)[|f.payload|..]
      ensures old(random.at) <= random.at
      ensures n == Min(65535 - (if isClient then |EncodeAddress(accessAddr.value)| + 2 else 0), old(r.burst))
      ensures nonceWriter == old(nonceWriter) || fresh(nonceWriter)
      ensures ok ==> writerKey == Some(aead.derive(psk, f.salt)) && seals == 2 && fresh(nonceWriter)
      ensures ok || output.got != old(output.got) ==>
        && IsFirstMessage(message, f, now) && f == Fresh(old(random.at), old(random.drawn), f.payload)
        && Wrote(old(output.got), output.got, message, ok)
      ensures ok || r.breaks || output.failed
    {
      var payload, status := ReadFirst(r);
      hasWriteFirstPayload := true;
      n, f, message := |payload|, First([], [], payload), [];
      if status == Broken {
        return n, false, f, message;
      }
      ok, f, message := WriteFirstPayload(payload, now);
    }

    /** One read, of as much as a first message holds. */
    method ReadFirst(r: Reader) returns (payload: seq<byte>, status: ReadStatus)
      requires r.Valid() && CanWrite() && !hasWriteFirstPayload
      modifies r
      ensures r.Valid() && payload <= old(r.data) && r.data == old(r.data)[|payload|..]
      ensures |payload| == Min(65535 - (if isClient then |EncodeAddress(accessAddr.value)| + 2 else 0), old(r.burst))
      ensures |payload| <= FirstRoom() && (status == Broken ==> r.breaks)
    {
      FirstRoomExactly();
      payload, status := r.Read(FirstRoom());
    }

    /** The first message of either end. */
    method WriteFirstPayload(payload: seq<byte>, now: uint64)
      returns (ok: bool, ghost f: First, ghost message: seq<byte>)
      requires Valid() && CanStart() && |payload| <= FirstRoom()
      modifies this`writerKey, this`nonceWriter, this`seals, output, random
      ensures Valid() && fresh(nonceWriter) && old(random.at) <= random.at
      ensures f == Fresh(old(random.at), old(random.drawn), payload)
      ensures writerKey == Some(aead.derive(psk, f.salt)) && seals == 2 && IsFirstMessage(message, f, now)
      ensures Wrote(old(output.got), output.got, message, ok) && (ok || output.failed)
    {
      if isClient {
        ghost var padding;
        ok, padding := WriteClientFirstPayload(payload, now);
        f := First(clientSalt, padding, payload);
        message := RequestHead(aead, psk, clientSalt, now, accessAddr.value, padding, payload);
      } else {
        ghost var serverSalt;
        ok, serverSalt := WriteServerFirstPayload(payload, now);
        f := First(serverSalt, [], payload);
        message := ResponseHead(aead, psk, serverSalt, now, clientSalt, payload);
      }
    }

    /** ReadFrom: the stream that leaves is the first message, if it is still due,
        and then chunks; together they carry the source, in order, and all of it
        unless reading or sending failed. */
    method ReadFrom(r: Reader, now: uint64)
      returns (n: nat, ok: bool, crashed: bool, ghost f: First, ghost message: seq<byte>, ghost chunks: seq<seq<byte>>)
      requires Valid() && r.Valid() && CanStart()
      modifies this`hasWriteFirstPayload, this`writerKey, this`nonceWriter, this`seals, nonceWriter, output, random, r
      ensures Valid() && r.Valid() && ChunkSized(chunks) && old(random.at) <= random.at
      ensures crashed <==> old(WriteCrashes(r.data))
      ensures !crashed ==> n + |r.data| == |old(r.data)| && (ok || r.breaks || output.failed)
      ensures nonceWriter == old(nonceWriter) || fresh(nonceWriter)
      ensures ok ==> !crashed && r.data == [] && hasWriteFirstPayload && (old(CanWrite()) ==> CanWrite())
      ensures !old(CanWrite()) ==> output.got == old(output.got)
      ensures old(CanWrite() && hasWriteFirstPayload) ==>
        && writerKey == old(writerKey) && seals == old(seals) + 2 * |chunks|
        && Splits(chunks, old(r.data), r.data)
        && Wrote(old(output.got), output.got, Chunks(aead, writerKey.value, old(seals), chunks), ok)
      ensures ok && !old(hasWriteFirstPayload) ==>
        writerKey == Some(aead.derive(psk, f.salt)) && seals == 2 + 2 * |chunks|
      ensures !old(hasWriteFirstPayload) && (ok || output.got != old(output.got)) ==>
        && IsFirstMessage(message, f, now) && f == Fresh(old(random.at), old(random.drawn), f.payload)
        && f.payload <= old(r.data) && Splits(chunks, old(r.data)[|f.payload|..], r.data)
        && Wrote(old(output.got), output.got, message + Chunks(aead, aead.derive(psk, f.salt), 2, chunks), ok)
    {
      n, ok, crashed, f, message, chunks := 0, false, false, First([], [], []), [], [];
      if !hasWriteFirstPayload {
        if FirstRoom() < 0 {
          hasWriteFirstPayload, crashed := true, true;
          return;
        }
        n, ok, f, message, chunks := ReadFromStart(r, now);
        return;
      }
      if writerKey == None {
        ok, crashed := ReadFromWithoutCipher(r);
        return;
      }
      n, ok, chunks := SendChunks(r);
    }

    /** The chunk loop without a cipher: the first byte that is read crashes it. */
    method ReadFromWithoutCipher(r: Reader) returns (ok: bool, crashed: bool)
      requires r.Valid()
      modifies r
      ensures r.Valid() && (crashed <==> old(r.data) != [])
      ensures !crashed ==> r.data == [] && (ok <==> !r.breaks)
      ensures crashed ==> !ok
    {
      var status := Fine;
      ok, crashed := false, false;
      while status == Fine && !crashed
        invariant r.Valid() && (crashed ==> old(r.data) != []) && (!crashed ==> r.data == old(r.data))
        invariant status == Fine || crashed || (status == r.End() && r.data == [])
        decreases r.idle, status == Fine, !crashed
      {
        var bs;
        bs, status := r.Read(MAX_CHUNK);
        crashed := |bs| > 0;
      }
      ok := !crashed && status == AtEof;
    }

    /** ReadFrom with the first message still due. */
    method ReadFromStart(r: Reader, now: uint64)
      returns (n: nat, ok: bool, ghost f: First, ghost message: seq<byte>, ghost chunks: seq<seq<byte>>)
      requires Valid() && r.Valid() && CanWrite() && !hasWriteFirstPayload
      modifies this`hasWriteFirstPayload, this`writerKey, this`nonceWriter, this`seals, output, random, r
      ensures Valid() && r.Valid() && n + |r.data| == |old(r.data)| && ChunkSized(chunks)
      ensures (nonceWriter == old(nonceWriter) || fresh(nonceWriter)) && (ok || r.breaks || output.failed)
      ensures old(random.at) <= random.at
      ensures ok ==> CanWrite() && hasWriteFirstPayload && r.data == []
      ensures ok ==> writerKey == Some(aead.derive(psk, f.salt)) && seals == 2 + 2 * |chunks|
      ensures ok || output.got != old(output.got) ==>
        && IsFirstMessage(message, f, now) && f == Fresh(old(random.at), old(random.drawn), f.payload)
        && f.payload <= old(r.data) && Splits(chunks, old(r.data)[|f.payload|..], r.data)
        && Wrote(old(output.got), output.got, message + Chunks(aead, aead.derive(psk, f.salt), 2, chunks), ok)
    {
      chunks := [];
      n, ok, f, message := SendFirst(r, now);
      if !ok {
        assert message + Chunks(aead, aead.derive(psk, f.salt), 2, []) == message && Splits([], r.data, r.data) by {
          NoChunks(message, aead, aead.derive(psk, f.salt), r.data);
        }
        return;
      }
      var count;
      count, ok, chunks := SendBehind(r, old(output.got), message, aead.derive(psk, f.salt));
      n := n + count;
    }

    /** The chunks behind a first message. */
    method SendBehind(r: Reader, ghost start: seq<byte>, ghost message: seq<byte>, ghost k: Key)
      returns (n: nat, ok: bool, ghost chunks: seq<seq<byte>>)
      requires Valid() && r.Valid() && writerKey == Some(k) && seals == 2 && output.got == start + message
      modifies nonceWriter, this`seals, output, r
      ensures Valid() && r.Valid() && seals == 2 + 2 * |chunks|
      ensures Splits(chunks, old(r.data), r.data) && n + |r.data| == |old(r.data)|
      ensures (ok ==> r.data == []) && (ok || r.breaks || output.failed)
      ensures Wrote(start, output.got, message + Chunks(aead, k, 2, chunks), ok)
    {
      n, ok, chunks := SendChunks(r);
      Assoc(start, message, Chunks(aead, k, 2, chunks));
    }

    /** Write is ReadFrom over the given bytes. */
    method Write(p: seq<byte>, now: uint64)
      returns (n: nat, ok: bool, crashed: bool, ghost f: First, ghost message: seq<byte>, ghost chunks: seq<seq<byte>>)
      requires Valid() && CanStart()
      modifies this`hasWriteFirstPayload, this`writerKey, this`nonceWriter, this`seals, nonceWriter, output, random
      ensures Valid() && (nonceWriter == old(nonceWriter) || fresh(nonceWriter)) && ChunkSized(chunks)
      ensures (crashed <==> old(WriteCrashes(p))) && (ok || crashed || output.failed) && old(random.at) <= random.at
      ensures !old(CanWrite()) ==> output.got == old(output.got)
      ensures (ok ==> n == |p| && hasWriteFirstPayload) && (ok && old(CanWrite()) ==> CanWrite())
      ensures ok && old(CanWrite() && hasWriteFirstPayload) ==>
        && writerKey == old(writerKey) && seals == old(seals) + 2 * |chunks| && Splits(chunks, p, [])
        && Wrote(old(output.got), output.got, Chunks(aead, writerKey.value, old(seals), chunks), true)
      ensures ok && !old(hasWriteFirstPayload) ==>
        && writerKey == Some(aead.derive(psk, f.salt)) && seals == 2 + 2 * |chunks|
        && IsFirstMessage(message, f, now) && f == Fresh(old(random.at), old(random.drawn), f.payload)
        && f.payload <= p && Splits(chunks, p[|f.payload|..], [])
        && Wrote(old(output.got), output.got, message + Chunks(aead, aead.derive(psk, f.salt), 2, chunks), true)
    {
      var r := new Reader(p, false, 0);
      n, ok, crashed, f, message, chunks := ReadFrom(r, now);
    }

    // ----------------------------------------------------------------
    // Opening

    method SetAeadReader(key: Key)
      requires Valid()
      modifies this`readerKey, this`nonceReader, this`opens
      ensures Valid() && readerKey == Some(key) && opens == 0 && fresh(nonceReader)
    {
      readerKey, opens := Some(key), 0;
      nonceReader := new byte[NONCE_SIZE](_ => 0);
      PutLEZero(NONCE_SIZE);
      assert nonceReader[..] == Zeros(NONCE_SIZE);
    }

    /** Opens the whole buffer where it lies; the nonce advances only on success. */
    method DecryptInPlace(buf: array<byte>) returns (ok: bool)
      requires Valid() && readerKey.Some? && buf != nonceReader && buf != nonceWriter
      modifies buf, nonceReader, this`opens
      ensures Valid()
      ensures var plain := aead.open(readerKey.value, Nonce(old(opens)), old(buf[..]));
              && ok == plain.Some?
              && (ok ==> buf.Length >= TAG && buf[..buf.Length - TAG] == plain.value && opens == old(opens) + 1)
              && (!ok ==> opens == old(opens))
    {
      assert OpenLaw(aead, readerKey.value, nonceReader[..], buf[..]);
      var plain := aead.open(readerKey.value, nonceReader[..], buf[..]);
      if plain == None {
        return false;
      }
      Put(buf, 0, plain.value);
      assert buf[..buf.Length - TAG] == buf[0..0 + |plain.value|];
      Advance(nonceReader, opens);
      opens := opens + 1;
      ok := true;
    }

    /** Reads `len + TAG` bytes and opens them: succeeds exactly when the stream
        holds a whole chunk that opens, and then consumes exactly that chunk. */
    method ReadChunk(len: nat) returns (payload: seq<byte>, status: ReadStatus)
      requires Valid() && readerKey.Some?
      modifies this`opens, nonceReader, input
      ensures Valid()
      ensures var p := PayloadAt(aead, readerKey.value, old(opens), len, old(input.data));
              && (status == Fine <==> p.Some?)
              && (status == Fine ==> payload == p.value && |payload| == len && opens == old(opens) + 1
                                     && input.data == old(input.data)[len + TAG..])
      ensures status == AtEof <==> old(input.data) == [] && !input.breaks
    {
      payload := [];
      var bs;
      bs, status := input.ReadFull(len + TAG);
      if status != Fine {
        return;
      }
      var buf := new byte[len + TAG];
      Put(buf, 0, bs);
      assert buf[..] == bs;
      var ok := DecryptInPlace(buf);
      if !ok {
        return [], Broken;
      }
      payload := buf[..len];
    }

    // ----------------------------------------------------------------
    // Reading

    /** Every byte that reading can still deliver: the leftover, then what the wire holds. */
    ghost function Pending(): (bs: seq<byte>)
      requires readerKey.Some?
      reads this, input
    {
      readerBuf + Recover(aead, readerKey.value, opens, input.data)
    }

    /** copyReadPayload: what does not fit the caller's buffer is left over. The
        leftover buffer must be empty, or bytes would be overwritten. */
    method CopyReadPayload(cap: nat, payload: seq<byte>) returns (bs: seq<byte>)
      requires readerBuf == []
      modifies this`readerBuf
      ensures bs + readerBuf == payload && |bs| <= cap
      ensures (|bs| == cap || readerBuf == []) && (cap == 0 ==> readerBuf == payload)
    {
      var n := Min(cap, |payload|);
      bs := payload[..n];
      if n < |payload| {
        readerBuf := payload[n..];
      }
    }

    /** Hands an opened payload to the caller's buffer or straight to `w`. What a
        failing sink does not take of it is lost. */
    method Deliver(cap: nat, w: Writer?, payload: seq<byte>)
      returns (bs: seq<byte>, sinkOk: bool, ghost lost: seq<byte>)
      requires readerBuf == []
      modifies this`readerBuf, w
      ensures bs + lost + readerBuf == payload
      ensures w == null ==> sinkOk && |bs| <= cap
      ensures w != null ==> w.got == old(w.got) + bs && readerBuf == []
      ensures w != null ==> w.failed == (old(w.failed) || !sinkOk)
      ensures sinkOk ==> lost == []
    {
      if w != null {
        var n;
        n, sinkOk := w.Write(payload);
        bs, lost := payload[..n], payload[n..];
      } else {
        bs := CopyReadPayload(cap, payload);
        sinkOk, lost := true, [];
      }
    }

    /** Delivers from a payload that was just opened; the stream stands behind it. */
    method HandOn(cap: nat, w: Writer?, payload: seq<byte>)
      returns (bs: seq<byte>, status: ReadStatus, sinkOk: bool, ghost lost: seq<byte>)
      requires Valid() && readerKey.Some? && readerBuf == []
      modifies this`readerBuf, w
      ensures Valid() && (w == null ==> sinkOk && |bs| <= cap)
      ensures w != null ==> w.got == old(w.got) + bs && w.failed == (old(w.failed) || !sinkOk)
      ensures status == if sinkOk then Fine else Broken
      ensures if sinkOk then lost == [] else readerBuf == [] && bs + lost == payload
      ensures |readerBuf| <= |payload|
      ensures bs + lost + Pending() == payload + Recover(aead, readerKey.value, opens, input.data)
    {
      ghost var rest := Recover(aead, readerKey.value, opens, input.data);
      bs, sinkOk, lost := Deliver(cap, w, payload);
      Assoc(bs + lost, readerBuf, rest);
      assert readerBuf == [] ==> bs + lost + readerBuf == bs + lost;
      status := if sinkOk then Fine else Broken;
    }

    /** Reading to the end will look like a clean end of the stream. */
    ghost predicate EndsWell()
      requires readerKey.Some?
      reads this, input
    {
      !input.breaks && EndsCleanly(aead, readerKey.value, opens, input.data)
    }

    /** The payload of the next chunk on the wire, if it is whole and opens. */
    ghost function NextChunk(): (p: Option<seq<byte>>)
      requires readerKey.Some?
      reads this, input
    {
      ChunkAt(aead, readerKey.value, opens, input.data)
    }

    /** What bounds the number of reads still to come. */
    ghost function Left(): nat
      reads this, input
    {
      |readerBuf| + |input.data|
    }

    /** The steady part of readOrWriteTo: leftover first, otherwise the next chunk.
        However reads and writes-to are mixed, what is delivered, what a failing sink
        lost and what is still pending add up to what was pending before. Bytes are
        lost only out of a fresh chunk, and are exactly those the sink did not take.
        Otherwise an error means that nothing is pending, and tells how the stream ends. */
    method NextBytes(cap: nat, w: Writer?)
      returns (bs: seq<byte>, status: ReadStatus, sinkOk: bool, ghost lost: seq<byte>)
      requires Valid() && readerKey.Some?
      modifies this`readerBuf, this`opens, nonceReader, input, w
      ensures Valid() && (w == null ==> sinkOk && |bs| <= cap)
      ensures w != null ==> w.got == old(w.got) + bs && w.failed == (old(w.failed) || !sinkOk)
      ensures !sinkOk ==> status == Broken && (old(readerBuf) == [] ==> old(NextChunk()) == Some(bs + lost))
      ensures lost != [] ==> !sinkOk && old(readerBuf) == []
      ensures status == Fine || !sinkOk ==> bs + lost + Pending() == old(Pending()) && EndsWell() == old(EndsWell())
      ensures status == Fine && (cap > 0 || w != null) ==> Left() < old(Left())
      ensures status != Fine && sinkOk ==> bs == [] && old(Pending()) == [] && (status == AtEof <==> old(EndsWell()))
    {
      if |readerBuf| != 0 {
        bs, sinkOk := FromLeftover(cap, w);
        assert bs + [] == bs;
        return bs, if sinkOk then Fine else Broken, sinkOk, [];
      }
      assert Pending() == Recover(aead, readerKey.value, opens, input.data);
      bs, status, sinkOk, lost := FromWire(cap, w);
    }

    /** Delivers from the leftover buffer and keeps what was not taken. */
    method FromLeftover(cap: nat, w: Writer?) returns (bs: seq<byte>, ok: bool)
      requires Valid() && readerKey.Some?
      modifies this`readerBuf, w
      ensures bs + readerBuf == old(readerBuf) && bs + Pending() == old(Pending())
      ensures w == null ==> ok && |bs| == Min(cap, |old(readerBuf)|)
      ensures w != null ==> w.got == old(w.got) + bs && (ok ==> readerBuf == [])
      ensures w != null ==> w.failed == (old(w.failed) || !ok)
    {
      ok := true;
      var n;
      if w != null {
        n, ok := w.Write(readerBuf);
      } else {
        n := Min(cap, |readerBuf|);
      }
      bs, readerBuf := readerBuf[..n], readerBuf[n..];
      Assoc(bs, readerBuf, Recover(aead, readerKey.value, opens, input.data));
    }

    /** Opens a chunk and delivers from it; what does not fit becomes the leftover. */
    method FromWire(cap: nat, w: Writer?)
      returns (bs: seq<byte>, status: ReadStatus, sinkOk: bool, ghost lost: seq<byte>)
      requires Valid() && readerKey.Some? && readerBuf == []
      modifies this`readerBuf, this`opens, nonceReader, input, w
      ensures Valid() && (w == null ==> sinkOk && |bs| <= cap)
      ensures w != null ==> w.got == old(w.got) + bs && w.failed == (old(w.failed) || !sinkOk)
      ensures !sinkOk ==> status == Broken && old(NextChunk()) == Some(bs + lost)
      ensures sinkOk ==> lost == [] && (status == Fine <==> old(NextChunk()).Some?)
      ensures var before := old(Recover(aead, readerKey.value, opens, input.data));
              if status == Fine || !sinkOk
              then bs + lost + Pending() == before && EndsWell() == old(EndsWell()) && Left() < old(Left())
              else bs == [] && before == [] && (status == AtEof <==> old(EndsWell()))
    {
      var payload;
      payload, status := OpenNext();
      if status != Fine {
        return [], status, true, [];
      }
      bs, status, sinkOk, lost := HandOn(cap, w, payload);
    }

    /** Opens the next length chunk and the payload chunk it announces. A wire that
        ends right behind a length chunk is indistinguishable from a clean end. */
    method OpenNext() returns (payload: seq<byte>, status: ReadStatus)
      requires Valid() && readerKey.Some?
      modifies this`opens, nonceReader, input
      ensures Valid()
      ensures status == Fine <==> old(NextChunk()).Some?
      ensures status == Fine ==> old(NextChunk()) == Some(payload) && |payload| + |input.data| < |old(input.data)|
      ensures var before := old(Recover(aead, readerKey.value, opens, input.data));
              if status == Fine
              then && before == payload + Recover(aead, readerKey.value, opens, input.data)
                   && EndsWell() == old(EndsWell())
              else before == [] && (status == AtEof <==> old(EndsWell()))
    {
      ghost var wire, start := input.data, opens;
      payload, status := ReadChunk(LEN_FIELD);
      if status != Fine {
        return [], status;
      }
      var len := U16(payload);
      assert LengthAt(aead, readerKey.value, start, wire) == Some(len);
      assert input.data == wire[LEN_FIELD + TAG..];
      payload, status := ReadChunk(len);
    }

    /** Installs the subkey of `block`'s salt, opens the fixed-length header behind
        it in place and checks it. */
    method OpenFixed(block: seq<byte>, kind: byte, echoedSalt: seq<byte>, now: int) returns (len: Option<nat>)
      requires Valid() && |block| == |psk| + FIXED_HEADER + |echoedSalt| + TAG
      modifies this`readerKey, this`nonceReader, this`opens
      ensures Valid() && readerKey == Some(aead.derive(psk, block[..|psk|])) && fresh(nonceReader)
      ensures len == FixedAt(aead, psk, kind, echoedSalt, now, block)
      ensures len.Some? ==> opens == 1
    {
      SetAeadReader(aead.derive(psk, block[..|psk|]));
      var buf := new byte[|block| - |psk|];
      Put(buf, 0, block[|psk|..]);
      assert buf[..] == block[|psk|..];
      var ok := DecryptInPlace(buf);
      if !ok {
        return None;
      }
      len := HeaderLength(kind, echoedSalt, now, buf[..buf.Length - TAG]);
    }

    /** Opens the rest of a first message whose salt and header are in `block`. */
    method OpenFirstMessage(block: seq<byte>, kind: byte, echoedSalt: seq<byte>, now: int)
      returns (body: seq<byte>, status: ReadStatus)
      requires Valid() && |block| == |psk| + FIXED_HEADER + |echoedSalt| + TAG
      modifies this`readerKey, this`nonceReader, this`opens, input
      ensures Valid() && readerKey.Some? && fresh(nonceReader)
      ensures var first := OpenBlock(aead, psk, kind, echoedSalt, now, block, old(input.data));
              if status == Fine
              then && first == Some(Opened(readerKey.value, body, input.data)) && opens == 2
                   && |body| + |input.data| <= |old(input.data)|
              else first == None
      ensures status != Fine ==>
        (status == AtEof <==> && FixedAt(aead, psk, kind, echoedSalt, now, block).Some?
                              && old(input.data) == [] && !input.breaks)
    {
      var len := OpenFixed(block, kind, echoedSalt, now);
      if len == None {
        return [], Broken;
      }
      body, status := ReadChunk(len.value);
    }

    /** The salt and fixed-length header that must come in a single read call. */
    function FirstBlock(): (n: nat)
      reads this
    {
      |psk| + FIXED_HEADER + (if isClient then |psk| else 0) + TAG
    }

    /** What a first response holds for this end: nothing, unless its salt and header
        come in the single read call the format allows. */
    ghost function FirstStream(now: int): (s: Option<seq<byte>>)
      reads this, input
    {
      if input.BringsAtOnce(FirstBlock()) then ClientRecovers(aead, psk, clientSalt, now, input.data) else None
    }

    /** Reading it to its end looks like a clean end: the read call that should bring the
        header brings the end instead, or the wire ends where that goes unnoticed. */
    ghost predicate FirstEnds(now: int)
      reads this, input
    {
      !input.breaks &&
      if input.BringsAtOnce(FirstBlock()) then ClientEnds(aead, psk, clientSalt, now, input.data)
      else input.BringsEnd(FirstBlock())
    }

    /** The first response: taken exactly if it comes and opens; then reading goes on
        behind it. Otherwise the error tells whether the stream seemed to have ended. */
    method ReadServerFirstPayload(cap: nat, w: Writer?, now: int)
      returns (bs: seq<byte>, status: ReadStatus, sinkOk: bool, ghost lost: seq<byte>)
      requires Valid() && isClient && |clientSalt| == |psk| && readerBuf == []
      modifies this`hasReadFirstPayload, this`readerKey, this`nonceReader, this`readerBuf, this`opens, input, w
      ensures Valid() && hasReadFirstPayload && (nonceReader == old(nonceReader) || fresh(nonceReader))
      ensures w == null ==> sinkOk && |bs| <= cap
      ensures w != null ==> w.got == old(w.got) + bs && w.failed == (old(w.failed) || !sinkOk)
      ensures (!sinkOk ==> status == Broken && readerBuf == []) && (sinkOk ==> lost == [])
      ensures if status == Fine || !sinkOk
              then && readerKey.Some? && old(FirstStream(now)) == Some(bs + lost + Pending()) && Left() < old(Left())
                   && EndsWell() == old(FirstEnds(now))
              else bs == [] && old(FirstStream(now)) == None && (status == AtEof <==> old(FirstEnds(now)))
    {
      hasReadFirstPayload := true;
      var payload;
      payload, status := OpenResponse(now);
      if status != Fine {
        return [], status, true, [];
      }
      bs, status, sinkOk, lost := HandOn(cap, w, payload);
    }

    /** Reads and opens the first response. */
    method OpenResponse(now: int) returns (payload: seq<byte>, status: ReadStatus)
      requires Valid() && isClient && |clientSalt| == |psk|
      modifies this`readerKey, this`nonceReader, this`opens, input
      ensures Valid() && (nonceReader == old(nonceReader) || fresh(nonceReader))
      ensures if status == Fine
              then && readerKey.Some? && |payload| + |input.data| < |old(input.data)|
                   && old(FirstStream(now)) == Some(payload + Recover(aead, readerKey.value, opens, input.data))
                   && EndsWell() == old(FirstEnds(now))
              else old(FirstStream(now)) == None && (status == AtEof <==> old(FirstEnds(now)))
    {
      ghost var wire := input.data;
      var block;
      block, status := input.ReadOnceExpectFull(FirstBlock());
      if status != Fine {
        return [], status;
      }
      assert wire == block + input.data;
      OpenFirstSplit(aead, psk, SERVER_STREAM, clientSalt, now, block, input.data);
      ClientEndsSplit(aead, psk, clientSalt, now, block, input.data);
      payload, status := OpenFirstMessage(block, SERVER_STREAM, clientSalt, now);
    }

    /** The first request as the server takes it: exactly when it comes in one read,
        its salt is new to the pool and it opens, its address is known, its payload
        is left over for reading and the wire stands behind it. The clock is read twice:
        at `clock` for the pool and at `seen` for the timestamp. */
    method ReadClientFirstPayload(pool: Pool<seq<byte>>, clock: nat, seen: nat) returns (ok: bool)
      requires Valid() && !isClient && readerBuf == []
      modifies this`hasReadFirstPayload, this`readerKey, this`nonceReader, this`readerBuf, this`opens,
               this`clientSalt, this`accessAddr, input, pool
      ensures Valid() && hasReadFirstPayload && (nonceReader == old(nonceReader) || fresh(nonceReader))
      ensures var wire, inOneRead := old(input.data), old(input.BringsAtOnce(FirstBlock()));
              && (inOneRead ==> |psk| <= |wire| && clientSalt == wire[..|psk|])
              && pool.Contents() == (if inOneRead then After(old(pool.Contents()), clientSalt, clock)
                                     else old(pool.Contents()))
              && (ok <==> && inOneRead && Accepts(old(pool.Contents()), clientSalt, clock)
                          && OpenRequest(aead, psk, seen / SECOND, wire).Some?)
              && (ok ==> && readerKey.Some? && accessAddr.Some? && opens == 2
                         && OpenRequest(aead, psk, seen / SECOND, wire)
                            == Some(Opened(readerKey.value, Body(accessAddr.value, readerBuf), input.data)))
    {
      hasReadFirstPayload := true;
      ghost var wire := input.data;
      var block;
      block, ok := AdmitClient(pool, clock);
      if !ok {
        return;
      }
      ok := TakeRequest(block, seen / SECOND, wire);
    }

    /** Reads salt and fixed header at once and checks the salt against the pool. */
    method AdmitClient(pool: Pool<seq<byte>>, clock: nat) returns (block: seq<byte>, ok: bool)
      requires Valid() && !isClient
      modifies this`clientSalt, input, pool
      ensures Valid()
      ensures var wire, inOneRead := old(input.data), old(input.BringsAtOnce(FirstBlock()));
              && (inOneRead ==> |psk| <= |wire| && clientSalt == wire[..|psk|])
              && pool.Contents() == (if inOneRead then After(old(pool.Contents()), clientSalt, clock)
                                     else old(pool.Contents()))
              && (ok <==> inOneRead && Accepts(old(pool.Contents()), clientSalt, clock))
              && (ok ==> |block| == FirstBlock() && wire == block + input.data)
    {
      var status;
      ghost var wire := input.data;
      block, status := input.ReadOnceExpectFull(FirstBlock());
      if status != Fine {
        return block, false;
      }
      clientSalt := block[..|psk|];
      assert clientSalt == wire[..|psk|];
      ok := pool.CheckAndAdd(clientSalt, clock);
    }

    /** Opens the request behind `block`, keeps its address and leaves its payload over. */
    method TakeRequest(block: seq<byte>, now: int, ghost wire: seq<byte>) returns (ok: bool)
      requires Valid() && readerBuf == [] && |block| == |psk| + FIXED_HEADER + TAG && wire == block + input.data
      modifies this`readerKey, this`nonceReader, this`readerBuf, this`opens, this`accessAddr, input
      ensures Valid() && fresh(nonceReader)
      ensures var request := OpenRequest(aead, psk, now, wire);
              if ok
              then && readerKey.Some? && accessAddr.Some? && opens == 2
                   && request == Some(Opened(readerKey.value, Body(accessAddr.value, readerBuf), input.data))
              else request == None
    {
      assert OpenRequest(aead, psk, now, wire)
          == AsRequest(OpenBlock(aead, psk, CLIENT_STREAM, [], now, block, input.data)) by {
        OpenRequestSplit(aead, psk, now, block, input.data);
      }
      ok := TakeBlock(block, now);
    }

    /** The same in terms of the block. */
    method TakeBlock(block: seq<byte>, now: int) returns (ok: bool)
      requires Valid() && readerBuf == [] && |block| == |psk| + FIXED_HEADER + TAG
      modifies this`readerKey, this`nonceReader, this`readerBuf, this`opens, this`accessAddr, input
      ensures Valid() && fresh(nonceReader)
      ensures var request := AsRequest(OpenBlock(aead, psk, CLIENT_STREAM, [], now, block, old(input.data)));
              if ok
              then && readerKey.Some? && accessAddr.Some? && opens == 2
                   && request == Some(Opened(readerKey.value, Body(accessAddr.value, readerBuf), input.data))
              else request == None
    {
      var body, status := OpenFirstMessage(block, CLIENT_STREAM, [], now);
      ok := false;
      if status == Fine {
        ok := KeepRequest(body);
      }
    }

    /** Keeps the address of a variable-length header and leaves its payload over. */
    method KeepRequest(body: seq<byte>) returns (ok: bool)
      requires readerBuf == []
      modifies this`readerBuf, this`accessAddr
      ensures ok <==> ParseBody(body).Some?
      ensures ok ==> accessAddr.Some? && ParseBody(body) == Some(Body(accessAddr.value, readerBuf))
    {
      var parsed := ParseBody(body);
      if parsed == None {
        return false;
      }
      accessAddr := Some(parsed.value.addr);
      var none := CopyReadPayload(0, parsed.value.payload);
      ok := true;
    }

    /** Reading has a cipher, or is about to get one from the first response. */
    ghost predicate CanRead()
      reads this
    {
      if FirstDue() then |clientSalt| == |psk| && readerBuf == [] else readerKey.Some?
    }

    /** The first response has not been read. */
    predicate FirstDue()
      reads this
    {
      isClient && !hasReadFirstPayload
    }

    /** The byte stream this end can still deliver, if there is one. */
    ghost function Stream(now: int): (s: Option<seq<byte>>)
      requires CanRead()
      reads this, input
    {
      if FirstDue() then FirstStream(now) else Some(Pending())
    }

    /** Reading that stream to its end will look like a clean end. */
    ghost predicate WillEnd(now: int)
      requires CanRead()
      reads this, input
    {
      if FirstDue() then FirstEnds(now) else EndsWell()
    }

    /** readOrWriteTo: one step of either read path over the same stream. */
    method ReadOrWriteTo(cap: nat, w: Writer?, now: int)
      returns (bs: seq<byte>, status: ReadStatus, sinkOk: bool, ghost lost: seq<byte>)
      requires Valid() && CanRead() && (cap > 0 || w != null)
      modifies this`hasReadFirstPayload, this`readerKey, this`nonceReader, this`readerBuf, this`opens,
               nonceReader, input, w
      ensures Valid() && (nonceReader == old(nonceReader) || fresh(nonceReader))
      ensures w == null ==> sinkOk && |bs| <= cap
      ensures w != null ==> w.got == old(w.got) + bs && w.failed == (old(w.failed) || !sinkOk)
      ensures (!sinkOk ==> status == Broken) && (lost != [] ==> !sinkOk && old(readerBuf) == [])
      ensures if status == Fine || !sinkOk then OnIt(old(Stream(now)), old(WillEnd(now)), bs + lost, now)
              else bs == [] && Ended([], old(Stream(now)), old(WillEnd(now)), status)
      ensures status == Fine ==> Left() < old(Left())
    {
      if FirstDue() {
        bs, status, sinkOk, lost := ReadServerFirstPayload(cap, w, now);
      } else {
        bs, status, sinkOk, lost := NextBytes(cap, w);
      }
    }

    /** `taken` came off the front of the stream `s`, and the rest can be read on. */
    ghost predicate OnIt(s: Option<seq<byte>>, ends: bool, taken: seq<byte>, now: int)
      reads this, input
    {
      CanRead() && Stream(now).Some? && s == Some(taken + Stream(now).value) && WillEnd(now) == ends
    }

    /** Without a cipher, reading takes the bytes of a length chunk before it needs one. */
    method ReadWithoutCipher() returns (status: ReadStatus, crashed: bool)
      requires Valid() && readerKey == None
      modifies input
      ensures Valid() && (crashed <==> |old(input.data)| >= LEN_FIELD + TAG) && (crashed <==> status == Fine)
      ensures status == AtEof <==> old(input.data) == [] && !input.breaks
    {
      var bs;
      bs, status := input.ReadFull(LEN_FIELD + TAG);
      crashed := status == Fine;
    }

    /** A read, or a write-out, that dereferences the missing cipher: a first message has
        been tried and got stuck before its salt, and more bytes have come since. */
    ghost predicate ReadCrashes()
      reads this, input
    {
      !FirstDue() && readerKey == None && |input.data| >= LEN_FIELD + TAG
    }

    /** Read with the caller's buffer of `cap` bytes; a zero-length read is a no-op. */
    method Read(cap: nat, now: int) returns (bs: seq<byte>, status: ReadStatus, crashed: bool)
      requires Valid() && (FirstDue() ==> CanRead())
      modifies this`hasReadFirstPayload, this`readerKey, this`nonceReader, this`readerBuf, this`opens,
               nonceReader, input
      ensures Valid() && (nonceReader == old(nonceReader) || fresh(nonceReader)) && |bs| <= cap
      ensures crashed <==> cap > 0 && old(ReadCrashes())
      ensures cap == 0 ==> status == Fine
      ensures !old(CanRead()) ==> bs == [] && (cap > 0 && status == Fine ==> crashed)
      ensures old(CanRead()) ==>
        if status == Fine
        then && CanRead() && WillEnd(now) == old(WillEnd(now)) && (cap > 0 ==> Left() < old(Left()))
             && old(Stream(now)) == Prepend(bs, Stream(now)) && (bs == [] || Stream(now).Some?)
        else bs == [] && Ended([], old(Stream(now)), old(WillEnd(now)), status)
    {
      crashed := false;
      if cap == 0 {
        if old(CanRead()) {
          PrependNone(Stream(now));
        }
        return [], Fine, false;
      }
      if !FirstDue() && readerKey == None {
        status, crashed := ReadWithoutCipher();
        return [], status, crashed;
      }
      var sinkOk;
      ghost var lost;
      bs, status, sinkOk, lost := ReadOrWriteTo(cap, null, now);
      assert bs + [] == bs;
    }

    /** WriteTo: writes out until an error. The sink has then got the whole stream,
        and the end of the stream is reported for what it is - or the sink has failed,
        and the stream can be read on behind what it got and what was lost in it. */
    method WriteTo(w: Writer, now: int) returns (n: nat, ok: bool, sinkOk: bool, crashed: bool, ghost lost: seq<byte>)
      requires Valid() && (FirstDue() ==> CanRead())
      modifies this`hasReadFirstPayload, this`readerKey, this`nonceReader, this`readerBuf, this`opens,
               nonceReader, input, w
      ensures Valid() && (nonceReader == old(nonceReader) || fresh(nonceReader))
      ensures old(w.got) <= w.got && n == |w.got| - |old(w.got)| && w.failed == (old(w.failed) || !sinkOk)
      ensures crashed <==> old(ReadCrashes())
      ensures !old(CanRead()) ==> n == 0 && sinkOk && (ok <==> old(input.data) == [] && !input.breaks)
      ensures old(CanRead()) ==>
        var given := w.got[|old(w.got)|..];
        && IsPrefix(given + lost, old(Stream(now)))
        && if sinkOk then lost == [] && Ended(given, old(Stream(now)), old(WillEnd(now)), End(ok))
           else !ok && OnIt(old(Stream(now)), old(WillEnd(now)), given + lost, now)
    {
      crashed := false;
      if !FirstDue() && readerKey == None {
        n, sinkOk, lost := 0, true, [];
        var status;
        status, crashed := ReadWithoutCipher();
        ok := status == AtEof;
        return;
      }
      n, ok, sinkOk, lost := WriteOut(w, now);
    }

    /** WriteTo with a cipher at hand. */
    method WriteOut(w: Writer, now: int) returns (n: nat, ok: bool, sinkOk: bool, ghost lost: seq<byte>)
      requires Valid() && CanRead()
      modifies this`hasReadFirstPayload, this`readerKey, this`nonceReader, this`readerBuf, this`opens,
               nonceReader, input, w
      ensures Valid() && (nonceReader == old(nonceReader) || fresh(nonceReader))
      ensures old(w.got) <= w.got && n == |w.got| - |old(w.got)| && w.failed == (old(w.failed) || !sinkOk)
      ensures var given := w.got[|old(w.got)|..];
              && IsPrefix(given + lost, old(Stream(now)))
              && if sinkOk then lost == [] && Ended(given, old(Stream(now)), old(WillEnd(now)), End(ok))
                 else !ok && OnIt(old(Stream(now)), old(WillEnd(now)), given + lost, now)
    {
      ghost var whole, ends, given: seq<byte> := Stream(now), WillEnd(now), [];
      PrependNone(whole);
      n, sinkOk, lost := 0, true, [];
      var status := Fine;
      while status == Fine
        invariant Valid() && (nonceReader == old(nonceReader) || fresh(nonceReader))
        invariant w.got == old(w.got) + given && n == |given| && w.failed == (old(w.failed) || !sinkOk)
        invariant status == Fine ==> sinkOk && OnItStill(whole, ends, given, now)
        invariant status != Fine && sinkOk ==> Ended(given, whole, ends, status)
        invariant !sinkOk ==> status == Broken && OnIt(whole, ends, given + lost, now)
        invariant IsPrefix(given + lost, whole) && (sinkOk ==> lost == [])
        decreases status == Fine, Left()
      {
        var bs;
        bs, status, sinkOk, lost := WriteOn(w, now, whole, ends, given);
        n := n + |bs|;
        Assoc(old(w.got), given, bs);
        given := given + bs;
      }
      ok := status == AtEof;
    }

    /** One turn of the loop of WriteTo. */
    method WriteOn(w: Writer, now: int, ghost whole: Option<seq<byte>>, ghost ends: bool, ghost given: seq<byte>)
      returns (bs: seq<byte>, status: ReadStatus, sinkOk: bool, ghost lost: seq<byte>)
      requires Valid() && OnItStill(whole, ends, given, now)
      modifies this`hasReadFirstPayload, this`readerKey, this`nonceReader, this`readerBuf, this`opens,
               nonceReader, input, w
      ensures Valid() && (nonceReader == old(nonceReader) || fresh(nonceReader))
      ensures w.got == old(w.got) + bs && w.failed == (old(w.failed) || !sinkOk)
      ensures status == Fine ==> sinkOk && OnItStill(whole, ends, given + bs, now) && Left() < old(Left())
      ensures status != Fine && sinkOk ==> Ended(given + bs, whole, ends, status)
      ensures !sinkOk ==> status == Broken && OnIt(whole, ends, given + bs + lost, now)
      ensures IsPrefix(given + bs + lost, whole) && (sinkOk ==> lost == [])
    {
      ghost var before := Stream(now);
      bs, status, sinkOk, lost := ReadOrWriteTo(0, w, now);
      if status == Fine || !sinkOk {
        TakenOn(given, bs, lost, Stream(now).value, before, whole);
      } else {
        assert given + bs == given;
        NothingMore(given, before, whole, ends, status);
      }
    }

    /** The reading goes on: `given` came off the front of the stream `s`. */
    ghost predicate OnItStill(s: Option<seq<byte>>, ends: bool, given: seq<byte>, now: int)
      reads this, input
    {
      && CanRead() && WillEnd(now) == ends
      && s == Prepend(given, Stream(now)) && (given == [] || Stream(now).Some?)
    }
  }

  function End(ok: bool): (status: ReadStatus)
  {
    if ok then AtEof else Broken
  }

  lemma TakenOn(given: seq<byte>, bs: seq<byte>, lost: seq<byte>, rest: seq<byte>,
                before: Option<seq<byte>>, whole: Option<seq<byte>>)
    requires before == Some(bs + lost + rest) && whole == Prepend(given, before)
    ensures whole == Some(given + bs + lost + rest) && IsPrefix(given + bs + lost, whole)
    ensures lost == [] ==> whole == Prepend(given + bs, Some(rest)) && given + bs + lost == given + bs
  {
    assert given + bs + [] == given + bs;
    Assoc(given, bs, lost);
    Assoc(given, bs + lost, rest);
  }

  lemma NothingMore(given: seq<byte>, before: Option<seq<byte>>, whole: Option<seq<byte>>, ends: bool,
                    status: ReadStatus)
    requires whole == Prepend(given, before) && (given == [] || before.Some?)
    ensures IsPrefix(given + [], whole)
    ensures Ended([], before, ends, status) ==> Ended(given, whole, ends, status)
  {
    assert given + [] == given;
    assert before.Some? ==> given <= given + before.value;
  }

  lemma PrependNone(s: Option<seq<byte>>)
    ensures Prepend([], s) == s
  {
    assert s.Some? ==> [] + s.value == s.value;
  }

  /** `bs` is everything the stream `s` had to deliver, and `status` tells how it ended. */
  ghost predicate Ended(bs: seq<byte>, s: Option<seq<byte>>, ends: bool, status: ReadStatus)
  {
    (status == AtEof <==> ends) && if s == None then bs == [] else s == Some(bs)
  }

  /** `bs` starts the stream `s`; nothing but the empty string starts no stream. */
  ghost predicate IsPrefix(bs: seq<byte>, s: Option<seq<byte>>)
  {
    bs == [] || (s.Some? && bs <= s.value)
  }

  lemma PrefixExtends(given: seq<byte>, bs: seq<byte>, s: Option<seq<byte>>, whole: Option<seq<byte>>)
    requires IsPrefix(given, whole) && IsPrefix(bs, s) && whole == Prepend(given, s)
    ensures IsPrefix(given + bs, whole)
  {
    if bs == [] {
      assert given + bs == given;
    }
  }

  ghost function Prepend(bs: seq<byte>, s: Option<seq<byte>>): (r: Option<seq<byte>>)
  {
    match s
    case None => if bs == [] then None else Some(bs)
    case Some(t) => Some(bs + t)
  }
}
