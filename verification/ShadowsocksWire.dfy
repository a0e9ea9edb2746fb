/** The Shadowsocks 2022 stream format (sections 3.1.2 and 3.1.3 of the
    Shadowsocks 2022 Edition specification) as functions on byte strings, and the
    laws that tie encoding to decoding. */
module ShadowsocksWire {
  import opened Arith
  import opened Bytes
  import opened Buffers

  type Key = seq<byte>

  const TAG: nat := 16
  const NONCE_SIZE: nat := 12
  const MAX_CHUNK: nat := 65535
  const MAX_PADDING: nat := 900
  const LEN_FIELD: nat := 2
  const TYPE_AND_TIME: nat := 1 + 8
  const FIXED_HEADER: nat := TYPE_AND_TIME + LEN_FIELD
  const CLIENT_STREAM: byte := 0
  const SERVER_STREAM: byte := 1

  /** The cipher, kept abstract: sealing, opening and subkey derivation. */
  datatype Aead = Aead(
    seal: (Key, seq<byte>, seq<byte>) -> seq<byte>,
    open: (Key, seq<byte>, seq<byte>) -> Option<seq<byte>>,
    derive: (seq<byte>, seq<byte>) -> Key)

  /** Sealing adds a tag, and opening undoes it under the same key and nonce. */
  ghost predicate SealLaw(a: Aead, k: Key, n: seq<byte>, p: seq<byte>)
  {
    |a.seal(k, n, p)| == |p| + TAG && a.open(k, n, a.seal(k, n, p)) == Some(p)
  }

  /** What opens is shorter by the tag. */
  ghost predicate OpenLaw(a: Aead, k: Key, n: seq<byte>, c: seq<byte>)
  {
    a.open(k, n, c).Some? ==> |a.open(k, n, c).value| + TAG == |c|
  }

  ghost predicate Lawful(a: Aead)
  {
    && (forall k, n, p :: SealLaw(a, k, n, p))
    && (forall k, n, c :: OpenLaw(a, k, n, c))
  }

  /** The laws can be met: appending a constant tag is a (useless) cipher. */
  lemma LawfulAeadExists()
    ensures exists a: Aead :: Lawful(a)
  {
    var a := Aead(
      (k, n, p) => p + Zeros(TAG),
      (k, n, c: seq<byte>) => if |c| < TAG then None else Some(c[..|c| - TAG]),
      (psk, salt) => psk);
    forall k, n, p: seq<byte>
      ensures SealLaw(a, k, n, p)
    {
      SplitAt(p, Zeros(TAG));
    }
    assert Lawful(a);
  }

  // ------------------------------------------------------------------
  // Nonces

  /** The `width` low-order bytes of `n`, least significant first. */
  function PutLE(n: nat, width: nat): (bs: seq<byte>)
    ensures |bs| == width
  {
    if width == 0 then [] else [n % 256] + PutLE(n / 256, width - 1)
  }

  function FromLE(bs: seq<byte>): (n: nat)
  {
    if |bs| == 0 then 0 else bs[0] + 256 * FromLE(bs[1..])
  }

  /** The nonce of the `n`-th operation under one subkey. */
  function Nonce(n: nat): (bs: seq<byte>)
    ensures |bs| == NONCE_SIZE
  {
    PutLE(n, NONCE_SIZE)
  }

  /** The byte at `i` of the n-th nonce is the digit of 256^i. */
  lemma NonceDigit(n: nat, i: nat)
    requires i < 12
    ensures |Nonce(n)| == 12 && Nonce(n)[i] == n / Pow256(i) % 256
  {
    LittleEndianDigit(n, NONCE_SIZE, i);
  }

  lemma {:induction false} LittleEndianDigit(n: nat, width: nat, i: nat)
    requires i < width
    ensures PutLE(n, width)[i] == n / Pow256(i) % 256
  {
    if i > 0 {
      LittleEndianDigit(n / 256, width - 1, i - 1);
      DivTwice(n, 256, Pow256(i - 1));
    } else {
      assert n / Pow256(0) == n;
    }
  }

  lemma {:induction false} PutLEZero(width: nat)
    ensures PutLE(0, width) == Zeros(width)
  {
    if width > 0 {
      PutLEZero(width - 1);
    }
  }

  /** incNonce, in place: the first byte that does not overflow ends the carry. */
  method IncNonce(nonce: array<byte>)
    modifies nonce
    ensures nonce[..] == Successor(old(nonce[..]))
  {
    ghost var was := nonce[..];
    var i := 0;
    while i < nonce.Length
      invariant 0 <= i <= nonce.Length
      invariant forall k :: 0 <= k < i ==> was[k] == 255 && nonce[k] == 0
      invariant forall k :: i <= k < nonce.Length ==> nonce[k] == was[k]
    {
      nonce[i] := (nonce[i] as int + 1) % 256;
      if nonce[i] != 0 {
        SuccessorAfterCarry(was, i);
        assert nonce[..] == Zeros(i) + [was[i] + 1] + was[i + 1..];
        return;
      }
      i := i + 1;
    }
    SuccessorAfterCarry(was, i);
    assert nonce[..] == Zeros(i);
  }

  lemma {:induction false} SuccessorAfterCarry(bs: seq<byte>, i: nat)
    requires i <= |bs| && forall k :: 0 <= k < i ==> bs[k] == 255
    ensures i == |bs| ==> Successor(bs) == Zeros(i)
    ensures i < |bs| && bs[i] != 255 ==> Successor(bs) == Zeros(i) + [bs[i] + 1] + bs[i + 1..]
  {
    if i > 0 {
      SuccessorAfterCarry(bs[1..], i - 1);
      assert Zeros(i) == [0] + Zeros(i - 1);
    }
  }

  /** Little-endian addition of one, dropping the last carry. */
  function Successor(bs: seq<byte>): (r: seq<byte>)
  {
    if |bs| == 0 then []
    else if bs[0] == 255 then [0] + Successor(bs[1..])
    else [bs[0] + 1] + bs[1..]
  }

  lemma {:induction false} SuccessorOfPutLE(n: nat, width: nat)
    ensures Successor(PutLE(n, width)) == PutLE(n + 1, width)
  {
    if width > 0 {
      SuccessorOfPutLE(n / 256, width - 1);
      var q, r := n / 256, n % 256;
      assert (n + 1) / 256 == (if r == 255 then q + 1 else q) && (n + 1) % 256 == if r == 255 then 0 else r + 1;
      assert PutLE(n, width)[1..] == PutLE(q, width - 1);
    }
  }

  lemma {:induction false} SuccessorCounts(bs: seq<byte>)
    ensures |Successor(bs)| == |bs|
    ensures FromLE(bs) + 1 <= Pow256(|bs|)
    ensures FromLE(Successor(bs)) == if FromLE(bs) + 1 == Pow256(|bs|) then 0 else FromLE(bs) + 1
  {
    if |bs| > 0 {
      SuccessorCounts(bs[1..]);
      if bs[0] == 255 {
        assert Successor(bs)[1..] == Successor(bs[1..]);
      } else {
        assert Successor(bs)[1..] == bs[1..];
      }
    }
  }

  lemma {:induction false} PutLEValue(n: nat, width: nat)
    ensures FromLE(PutLE(n, width)) == n % Pow256(width)
  {
    if width > 0 {
      PutLEValue(n / 256, width - 1);
      assert PutLE(n, width)[1..] == PutLE(n / 256, width - 1);
      ModSplit(n, Pow256(width - 1));
    }
  }

  lemma ModSplit(n: nat, m: nat)
    requires m >= 1
    ensures n % 256 + 256 * (n / 256 % m) == n % (256 * m)
  {
    var q, r := n / 256 / m, n / 256 % m;
    assert n / 256 == m * q + r;
    assert n == (256 * m) * q + (n % 256 + 256 * r);
    DivModUnique(n, 256 * m, q, n % 256 + 256 * r);
  }

  /** Two operations share a nonce exactly when their numbers agree modulo 256^12, ... */
  lemma NoncesRepeatExactly(i: nat, j: nat)
    ensures Nonce(i) == Nonce(j) <==> i % Pow256(NONCE_SIZE) == j % Pow256(NONCE_SIZE)
  {
    PutLEInjective(i, j, NONCE_SIZE);
  }

  /** ... so no nonce repeats among the first 256^12 operations under one subkey. */
  lemma NoncesAreFresh(i: nat, j: nat)
    requires i < j < Pow256(NONCE_SIZE)
    ensures Nonce(i) != Nonce(j)
  {
    PutLEInjective(i, j, NONCE_SIZE);
    DivModUnique(i, Pow256(NONCE_SIZE), 0, i);
    DivModUnique(j, Pow256(NONCE_SIZE), 0, j);
  }

  lemma {:induction false} PutLEInjective(i: nat, j: nat, width: nat)
    ensures PutLE(i, width) == PutLE(j, width) <==> i % Pow256(width) == j % Pow256(width)
  {
    PutLEValue(i, width);
    PutLEValue(j, width);
    if FromLE(PutLE(i, width)) == FromLE(PutLE(j, width)) {
      FromLEInjective(PutLE(i, width), PutLE(j, width));
    }
  }

  lemma {:induction false} FromLEInjective(a: seq<byte>, b: seq<byte>)
    requires |a| == |b| && FromLE(a) == FromLE(b)
    ensures a == b
  {
    if |a| > 0 {
      FromLEInjective(a[1..], b[1..]);
      assert a == [a[0]] + a[1..] && b == [b[0]] + b[1..];
    }
  }

  // ------------------------------------------------------------------
  // Chunks

  /** A payload chunk and the length chunk before it, sealed with nonces n and n+1. */
  function Chunk(a: Aead, k: Key, n: nat, payload: seq<byte>): (wire: seq<byte>)
  {
    a.seal(k, Nonce(n), PutU16(ToU16(|payload|))) + a.seal(k, Nonce(n + 1), payload)
  }

  ghost predicate ChunkSized(chunks: seq<seq<byte>>)
  {
    forall i :: 0 <= i < |chunks| ==> |chunks[i]| <= MAX_CHUNK
  }

  function Chunks(a: Aead, k: Key, n: nat, chunks: seq<seq<byte>>): (wire: seq<byte>)
    decreases |chunks|
  {
    if |chunks| == 0 then [] else Chunk(a, k, n, chunks[0]) + Chunks(a, k, n + 2, chunks[1..])
  }

  lemma {:induction false} ChunksSnoc(a: Aead, k: Key, n: nat, chunks: seq<seq<byte>>, last: seq<byte>)
    ensures Chunks(a, k, n, chunks + [last])
         == Chunks(a, k, n, chunks) + Chunk(a, k, n + 2 * |chunks|, last)
  {
    var m := n + 2 * |chunks|;
    ChunksAppend(a, k, n, m, chunks, [last]);
    ChunksOne(a, k, m, last);
  }

  lemma {:induction false} ChunksAppend(a: Aead, k: Key, n: nat, m: nat, c: seq<seq<byte>>, d: seq<seq<byte>>)
    requires m == n + 2 * |c|
    ensures Chunks(a, k, n, c + d) == Chunks(a, k, n, c) + Chunks(a, k, m, d)
    decreases |c|
  {
    if |c| == 0 {
      assert c + d == d;
    } else {
      var first, rest := c[0], c[1..];
      assert c == [first] + rest && c + d == [first] + (rest + d);
      ChunksAppend(a, k, n + 2, m, rest, d);
      ChunksCons(a, k, n, first, rest);
      ChunksCons(a, k, n, first, rest + d);
      Assoc(Chunk(a, k, n, first), Chunks(a, k, n + 2, rest), Chunks(a, k, m, d));
    }
  }

  lemma {:induction false} ChunksCons(a: Aead, k: Key, n: nat, first: seq<byte>, rest: seq<seq<byte>>)
    ensures Chunks(a, k, n, [first] + rest) == Chunk(a, k, n, first) + Chunks(a, k, n + 2, rest)
  {
    assert ([first] + rest)[1..] == rest;
  }

  lemma {:induction false} ChunksOne(a: Aead, k: Key, n: nat, only: seq<byte>)
    ensures Chunks(a, k, n, [only]) == Chunk(a, k, n, only)
  {
    ChunksCons(a, k, n, only, []);
    assert [only] + [] == [only] && Chunk(a, k, n, only) + [] == Chunk(a, k, n, only);
  }

  /** The payload length a sealed length chunk announces. */
  function LengthAt(a: Aead, k: Key, n: nat, wire: seq<byte>): (len: Option<nat>)
  {
    if |wire| < LEN_FIELD + TAG then None
    else
      match a.open(k, Nonce(n), wire[..LEN_FIELD + TAG])
      case None => None
      case Some(bs) => if |bs| == LEN_FIELD then Some(U16(bs)) else None
  }

  /** The payload sealed in the first `len + TAG` bytes. */
  function PayloadAt(a: Aead, k: Key, n: nat, len: nat, wire: seq<byte>): (p: Option<seq<byte>>)
    ensures p.Some? ==> |wire| >= len + TAG
  {
    if |wire| < len + TAG then None else a.open(k, Nonce(n), wire[..len + TAG])
  }

  /** Everything that a reader at nonce `n` can still recover from `wire`: the
      payload of each whole chunk up to the first that is cut or does not open. */
  function Recover(a: Aead, k: Key, n: nat, wire: seq<byte>): (bs: seq<byte>)
    decreases |wire|
  {
    match LengthAt(a, k, n, wire)
    case None => []
    case Some(len) =>
      var body := wire[LEN_FIELD + TAG..];
      match PayloadAt(a, k, n + 1, len, body)
      case None => []
      case Some(p) => p + Recover(a, k, n + 2, body[len + TAG..])
  }

  /** The payload of the chunk that `wire` starts with, if it is whole and opens. */
  function ChunkAt(a: Aead, k: Key, n: nat, wire: seq<byte>): (p: Option<seq<byte>>)
  {
    match LengthAt(a, k, n, wire)
    case None => None
    case Some(len) => PayloadAt(a, k, n + 1, len, wire[LEN_FIELD + TAG..])
  }

  /** What is left behind that chunk. */
  function BehindChunk(wire: seq<byte>, payload: seq<byte>): (rest: seq<byte>)
    requires |wire| >= LEN_FIELD + TAG + |payload| + TAG
  {
    wire[LEN_FIELD + TAG..][|payload| + TAG..]
  }

  /** Whether a reader at nonce `n` comes to what it takes for the end of the stream:
      to an empty wire, or to a lone length chunk. */
  predicate EndsCleanly(a: Aead, k: Key, n: nat, wire: seq<byte>)
    decreases |wire|
  {
    wire == [] ||
    match LengthAt(a, k, n, wire)
    case None => false
    case Some(len) =>
      var body := wire[LEN_FIELD + TAG..];
      match PayloadAt(a, k, n + 1, len, body)
      case None => body == []
      case Some(p) => EndsCleanly(a, k, n + 2, body[len + TAG..])
  }

  /** The layout of a chunk: its length with the high byte first, sealed under one nonce,
      and the payload, sealed under the next. */
  lemma ChunkLayout(a: Aead, k: Key, n: nat, payload: seq<byte>, high: byte, low: byte)
    requires |payload| == 256 * high + low
    ensures Chunk(a, k, n, payload) == a.seal(k, Nonce(n), [high, low]) + a.seal(k, Nonce(n + 1), payload)
  {
    BigEndianPair(high, low, []);
  }

  lemma ChunkOpens(a: Aead, k: Key, n: nat, payload: seq<byte>, rest: seq<byte>)
    requires Lawful(a) && |payload| <= MAX_CHUNK
    ensures |Chunk(a, k, n, payload)| == 2 + 16 + |payload| + 16
    ensures var wire := Chunk(a, k, n, payload) + rest;
            && LengthAt(a, k, n, wire) == Some(|payload|)
            && PayloadAt(a, k, n + 1, |payload|, wire[LEN_FIELD + TAG..]) == Some(payload)
            && wire[LEN_FIELD + TAG..][|payload| + TAG..] == rest
  {
    var wire := Chunk(a, k, n, payload) + rest;
    var head := a.seal(k, Nonce(n), PutU16(|payload|));
    var body := a.seal(k, Nonce(n + 1), payload);
    assert SealLaw(a, k, Nonce(n), PutU16(|payload|)) && SealLaw(a, k, Nonce(n + 1), payload);
    assert wire[..LEN_FIELD + TAG] == head;
    assert a.open(k, Nonce(n), head) == Some(PutU16(|payload|));
    assert PutU16(|payload|) + [] == PutU16(|payload|);
    U16RoundTrip(|payload|, []);
    assert wire[LEN_FIELD + TAG..] == body + rest;
    assert (body + rest)[..|payload| + TAG] == body;
    assert a.open(k, Nonce(n + 1), body) == Some(payload);
    assert (body + rest)[|payload| + TAG..] == rest;
  }

  /** How many of `chunks` arrive whole when their wire is cut after `cut` bytes. */
  function WholeChunks(chunks: seq<seq<byte>>, cut: nat): (n: nat)
    ensures n <= |chunks|
  {
    if |chunks| == 0 || cut < LEN_FIELD + TAG + |chunks[0]| + TAG then 0
    else 1 + WholeChunks(chunks[1..], cut - (LEN_FIELD + TAG + |chunks[0]| + TAG))
  }

  /** The wire size of chunks, whatever the cipher. */
  function ChunksSize(chunks: seq<seq<byte>>): (n: nat)
  {
    if |chunks| == 0 then 0 else LEN_FIELD + TAG + |chunks[0]| + TAG + ChunksSize(chunks[1..])
  }

  lemma {:induction false} ChunksSized(a: Aead, k: Key, n: nat, chunks: seq<seq<byte>>)
    requires Lawful(a)
    ensures |Chunks(a, k, n, chunks)| == ChunksSize(chunks)
    decreases |chunks|
  {
    if |chunks| > 0 {
      ChunksSized(a, k, n + 2, chunks[1..]);
      ChunkSize(a, k, n, chunks[0]);
    }
  }

  lemma {:induction false} WholeSize(chunks: seq<seq<byte>>)
    ensures WholeChunks(chunks, ChunksSize(chunks)) == |chunks| && AtSeam(chunks, ChunksSize(chunks))
  {
    if |chunks| > 0 {
      WholeSize(chunks[1..]);
    }
  }

  /** An uncut wire holds every chunk whole, and its end is a seam. */
  lemma {:induction false} NothingCut(a: Aead, k: Key, n: nat, chunks: seq<seq<byte>>)
    requires Lawful(a)
    ensures WholeChunks(chunks, |Chunks(a, k, n, chunks)|) == |chunks| && AtSeam(chunks, |Chunks(a, k, n, chunks)|)
  {
    ChunksSized(a, k, n, chunks);
    WholeSize(chunks);
  }

  /** Their payload. */
  function WholePayload(chunks: seq<seq<byte>>, cut: nat): (bs: seq<byte>)
  {
    if |chunks| == 0 || cut < LEN_FIELD + TAG + |chunks[0]| + TAG then []
    else chunks[0] + WholePayload(chunks[1..], cut - (LEN_FIELD + TAG + |chunks[0]| + TAG))
  }

  lemma {:induction false} PayloadOfWhole(chunks: seq<seq<byte>>, cut: nat)
    ensures WholePayload(chunks, cut) == Flatten(chunks[..WholeChunks(chunks, cut)])
  {
    var n := WholeChunks(chunks, cut);
    if n > 0 {
      PayloadOfWhole(chunks[1..], cut - (LEN_FIELD + TAG + |chunks[0]| + TAG));
      FlattenHead(chunks, n);
    } else {
      assert chunks[..0] == [];
    }
  }

  /** From a wire cut anywhere, exactly the payload of the chunks that arrived
      whole is recovered. */
  lemma {:induction false} RecoverChunks(a: Aead, k: Key, n: nat, chunks: seq<seq<byte>>, cut: nat)
    requires Lawful(a) && ChunkSized(chunks) && cut <= |Chunks(a, k, n, chunks)|
    ensures Recover(a, k, n, Chunks(a, k, n, chunks)[..cut]) == Flatten(chunks[..WholeChunks(chunks, cut)])
  {
    WholeRecovered(a, k, n, chunks, cut);
    PayloadOfWhole(chunks, cut);
  }

  /** `bs` is what is recovered. */
  ghost predicate Recovers(a: Aead, k: Key, n: nat, wire: seq<byte>, bs: seq<byte>)
  {
    Recover(a, k, n, wire) == bs
  }

  lemma {:induction false} WholeRecovered(a: Aead, k: Key, n: nat, chunks: seq<seq<byte>>, cut: nat)
    requires Lawful(a) && ChunkSized(chunks) && cut <= |Chunks(a, k, n, chunks)|
    ensures Recovers(a, k, n, Chunks(a, k, n, chunks)[..cut], WholePayload(chunks, cut))
    decreases |chunks|
  {
    if |chunks| > 0 {
      var payload, more := chunks[0], chunks[1..];
      var first, rest := Chunk(a, k, n, payload), Chunks(a, k, n + 2, more);
      ChunkSize(a, k, n, payload);
      assert Recovers(a, k, n, (first + rest)[..cut], WholePayload(chunks, cut)) by {
        if cut < |first| {
          RecoverInside(a, k, n, payload, rest, cut);
        } else {
          WholeRecovered(a, k, n + 2, more, cut - |first|);
          RecoverBehind(a, k, n, payload, rest, cut, WholePayload(more, cut - |first|));
        }
      }
    }
  }

  lemma {:induction false} RecoverInside(a: Aead, k: Key, n: nat, payload: seq<byte>, rest: seq<byte>, cut: nat)
    requires Lawful(a) && |payload| <= MAX_CHUNK && cut < |Chunk(a, k, n, payload)|
    ensures Recovers(a, k, n, (Chunk(a, k, n, payload) + rest)[..cut], [])
  {
    TakeInside(Chunk(a, k, n, payload), rest, cut);
    CutChunkIsNotRecovered(a, k, n, payload, cut);
  }

  lemma {:induction false} RecoverBehind(a: Aead, k: Key, n: nat, payload: seq<byte>, rest: seq<byte>, cut: nat,
                                         bs: seq<byte>)
    requires Lawful(a) && |payload| <= MAX_CHUNK
    requires |Chunk(a, k, n, payload)| <= cut <= |Chunk(a, k, n, payload) + rest|
    requires Recovers(a, k, n + 2, rest[..cut - |Chunk(a, k, n, payload)|], bs)
    ensures Recovers(a, k, n, (Chunk(a, k, n, payload) + rest)[..cut], payload + bs)
  {
    var first := Chunk(a, k, n, payload);
    TakeBehind(first, rest, cut);
    RecoverFirst(a, k, n, payload, rest[..cut - |first|]);
  }

  /** `cut` bytes end between two chunks, or right behind a length chunk. */
  predicate AtSeam(chunks: seq<seq<byte>>, cut: nat)
  {
    cut == 0 ||
    (|chunks| > 0 &&
     (cut == LEN_FIELD + TAG ||
      (cut >= LEN_FIELD + TAG + |chunks[0]| + TAG &&
       AtSeam(chunks[1..], cut - (LEN_FIELD + TAG + |chunks[0]| + TAG)))))
  }

  /** A seam is the end of some first chunks, or 18 bytes behind it if another one follows. */
  lemma {:induction false} AtSeamExactly(chunks: seq<seq<byte>>, cut: nat)
    ensures AtSeam(chunks, cut) <==> exists k :: SeamBehind(chunks, cut, k)
    decreases |chunks|
  {
    if AtSeam(chunks, cut) {
      var k := SeamOf(chunks, cut);
    }
    if k :| SeamBehind(chunks, cut, k) {
      SeamAt(chunks, cut, k);
    }
  }

  predicate SeamBehind(chunks: seq<seq<byte>>, cut: nat, k: int)
  {
    && 0 <= k <= |chunks|
    && (cut == SizeOf(chunks[..k]) || (k < |chunks| && cut == SizeOf(chunks[..k]) + 18))
  }

  /** The size of chunks on the wire: 34 bytes more than each payload. */
  function SizeOf(chunks: seq<seq<byte>>): (n: nat)
  {
    if |chunks| == 0 then 0 else SizeOf(chunks[..|chunks| - 1]) + |chunks[|chunks| - 1]| + 34
  }

  lemma {:induction false} SizeFromFront(chunks: seq<seq<byte>>)
    requires |chunks| > 0
    ensures SizeOf(chunks) == |chunks[0]| + 34 + SizeOf(chunks[1..])
    decreases |chunks|
  {
    var front := chunks[..|chunks| - 1];
    if |chunks| > 1 {
      SizeFromFront(front);
      assert front[1..] == chunks[1..][..|chunks| - 2];
    } else {
      assert front == [] && chunks[1..] == [];
    }
  }

  lemma {:induction false} ChunksSizeExactly(chunks: seq<seq<byte>>)
    ensures ChunksSize(chunks) == SizeOf(chunks)
  {
    if |chunks| > 0 {
      ChunksSizeExactly(chunks[1..]);
      SizeFromFront(chunks);
    }
  }

  lemma {:induction false} SeamOf(chunks: seq<seq<byte>>, cut: nat) returns (k: nat)
    requires AtSeam(chunks, cut)
    ensures SeamBehind(chunks, cut, k)
    decreases |chunks|
  {
    k := 0;
    assert chunks[..0] == [];
    if cut > 0 && cut != 18 {
      k := SeamOf(chunks[1..], cut - (34 + |chunks[0]|));
      k := k + 1;
      SizeBehindFirst(chunks, k);
    }
  }

  lemma {:induction false} SeamAt(chunks: seq<seq<byte>>, cut: nat, k: nat)
    requires SeamBehind(chunks, cut, k)
    ensures AtSeam(chunks, cut)
    decreases |chunks|
  {
    if k > 0 {
      SizeBehindFirst(chunks, k);
      SeamAt(chunks[1..], cut - (34 + |chunks[0]|), k - 1);
    } else {
      assert chunks[..0] == [];
    }
  }

  lemma SizeBehindFirst(chunks: seq<seq<byte>>, k: nat)
    requires 0 < k <= |chunks|
    ensures SizeOf(chunks[..k]) == |chunks[0]| + 34 + SizeOf(chunks[1..][..k - 1])
  {
    SizeFromFront(chunks[..k]);
    assert chunks[..k][1..] == chunks[1..][..k - 1];
  }

  /** The whole chunks are as many as their sizes leave room for. */
  lemma {:induction false} WholeChunksExactly(chunks: seq<seq<byte>>, cut: nat)
    ensures var n := WholeChunks(chunks, cut);
            SizeOf(chunks[..n]) <= cut && (n < |chunks| ==> cut < SizeOf(chunks[..n + 1]))
    decreases |chunks|
  {
    var n := WholeChunks(chunks, cut);
    if |chunks| > 0 {
      if n > 0 {
        WholeChunksExactly(chunks[1..], cut - (34 + |chunks[0]|));
        SizeBehindFirst(chunks, n);
      }
      if n < |chunks| {
        SizeBehindFirst(chunks, n + 1);
      }
    }
  }

  /** A cut goes unnoticed exactly at a seam. */
  lemma {:induction false} CutUnnoticedExactly(a: Aead, k: Key, n: nat, chunks: seq<seq<byte>>, cut: nat)
    requires Lawful(a) && ChunkSized(chunks) && cut <= |Chunks(a, k, n, chunks)|
    ensures EndsCleanly(a, k, n, Chunks(a, k, n, chunks)[..cut]) <==> AtSeam(chunks, cut)
    decreases |chunks|
  {
    if |chunks| > 0 {
      var first, rest := Chunk(a, k, n, chunks[0]), Chunks(a, k, n + 2, chunks[1..]);
      ChunkSize(a, k, n, chunks[0]);
      if cut < |first| {
        TakeInside(first, rest, cut);
        CutChunkNoticed(a, k, n, chunks[0], cut);
      } else {
        CutUnnoticedExactly(a, k, n + 2, chunks[1..], cut - |first|);
        TakeBehind(first, rest, cut);
        EndsBehind(a, k, n, chunks[0], rest[..cut - |first|]);
      }
    }
  }

  lemma ChunkSize(a: Aead, k: Key, n: nat, payload: seq<byte>)
    requires Lawful(a)
    ensures |Chunk(a, k, n, payload)| == LEN_FIELD + TAG + |payload| + TAG
  {
    assert SealLaw(a, k, Nonce(n), PutU16(ToU16(|payload|))) && SealLaw(a, k, Nonce(n + 1), payload);
  }

  lemma {:induction false} EndsBehind(a: Aead, k: Key, n: nat, payload: seq<byte>, rest: seq<byte>)
    requires Lawful(a) && |payload| <= MAX_CHUNK
    ensures EndsCleanly(a, k, n, Chunk(a, k, n, payload) + rest) <==> EndsCleanly(a, k, n + 2, rest)
  {
    ChunkOpens(a, k, n, payload, rest);
  }

  lemma {:induction false} CutChunkNoticed(a: Aead, k: Key, n: nat, payload: seq<byte>, cut: nat)
    requires Lawful(a) && |payload| <= MAX_CHUNK && cut < |Chunk(a, k, n, payload)|
    ensures EndsCleanly(a, k, n, Chunk(a, k, n, payload)[..cut]) <==> cut == 0 || cut == LEN_FIELD + TAG
  {
    var all := Chunk(a, k, n, payload);
    var wire := all[..cut];
    ChunkOpens(a, k, n, payload, []);
    if cut >= LEN_FIELD + TAG {
      assert all + [] == all && wire[..LEN_FIELD + TAG] == all[..LEN_FIELD + TAG];
      assert LengthAt(a, k, n, wire) == LengthAt(a, k, n, all);
    }
  }

  lemma FlattenHead(pieces: seq<seq<byte>>, m: nat)
    requires 0 < m <= |pieces|
    ensures Flatten(pieces[..m]) == pieces[0] + Flatten(pieces[1..][..m - 1])
  {
    assert pieces[..m][1..] == pieces[1..][..m - 1] && pieces[..m][0] == pieces[0];
  }

  lemma {:induction false} RecoverFirst(a: Aead, k: Key, n: nat, payload: seq<byte>, rest: seq<byte>)
    requires Lawful(a) && |payload| <= MAX_CHUNK
    ensures Recover(a, k, n, Chunk(a, k, n, payload) + rest) == payload + Recover(a, k, n + 2, rest)
  {
    ChunkOpens(a, k, n, payload, rest);
  }

  lemma {:induction false} CutChunkIsNotRecovered(a: Aead, k: Key, n: nat, payload: seq<byte>, cut: nat)
    requires Lawful(a) && |payload| <= MAX_CHUNK && cut < |Chunk(a, k, n, payload)|
    ensures Recover(a, k, n, Chunk(a, k, n, payload)[..cut]) == []
  {
    var all := Chunk(a, k, n, payload);
    var wire := all[..cut];
    ChunkOpens(a, k, n, payload, []);
    if cut >= LEN_FIELD + TAG {
      assert all + [] == all && wire[..LEN_FIELD + TAG] == all[..LEN_FIELD + TAG];
      assert LengthAt(a, k, n, wire) == LengthAt(a, k, n, all);
    }
  }
}
