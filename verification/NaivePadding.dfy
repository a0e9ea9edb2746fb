/** The NaiveProxy payload padding: a writer that frames and pads its first eight
    frames, and the resumable reader that undoes it under any fragmentation. */
module NaivePadding {
  import opened Bytes
  import opened Streams
  import opened Buffers

  const FIRST_PADDINGS: nat := 8
  const MAX_PAYLOAD: nat := 65535
  const MAX_PADDING: nat := 255

  // ------------------------------------------------------------------
  // The format

  datatype Frame = Frame(payload: seq<byte>, padding: byte)

  /** Size field, padding size, payload, zeros. */
  function FrameBytes(f: Frame): (bs: seq<byte>)
  {
    PutU16(ToU16(|f.payload|)) + [f.padding] + f.payload + Zeros(f.padding)
  }

  function FramesBytes(fs: seq<Frame>): (bs: seq<byte>)
  {
    if |fs| == 0 then [] else FrameBytes(fs[0]) + FramesBytes(fs[1..])
  }

  function Payloads(fs: seq<Frame>): (bs: seq<byte>)
  {
    if |fs| == 0 then [] else fs[0].payload + Payloads(fs[1..])
  }

  /** Frames the size field can describe. A peer may send empty ones; paddingWriter does not. */
  ghost predicate WellSized(fs: seq<Frame>)
  {
    forall i :: 0 <= i < |fs| ==> |fs[i].payload| <= MAX_PAYLOAD
  }

  /** The documented layout: the size with its high byte first, the padding's size,
      payload and zeros. */
  lemma FrameLayout(f: Frame, high: byte, low: byte)
    requires |f.payload| == 256 * high + low
    ensures FrameBytes(f) == [high, low, f.padding] + f.payload + seq(f.padding, _ => 0)
  {
    BigEndianPair(high, low, []);
    assert PutU16(ToU16(|f.payload|)) + [f.padding] == [high, low, f.padding];
  }

  lemma {:induction false} FramesSnoc(fs: seq<Frame>, f: Frame)
    ensures FramesBytes(fs + [f]) == FramesBytes(fs) + FrameBytes(f)
    ensures Payloads(fs + [f]) == Payloads(fs) + f.payload
  {
    if |fs| == 0 {
      assert fs + [f] == [f] && [f][1..] == [];
      assert FramesBytes([f]) == FrameBytes(f) + [] && Payloads([f]) == f.payload + [];
    } else {
      FramesSnoc(fs[1..], f);
      assert (fs + [f])[1..] == fs[1..] + [f];
      Assoc(FrameBytes(fs[0]), FramesBytes(fs[1..]), FrameBytes(f));
      Assoc(fs[0].payload, Payloads(fs[1..]), f.payload);
    }
  }

  // ------------------------------------------------------------------
  // Decoding

  /** Where a reader stands: frames completed, and what is left of the current one. */
  datatype Cursor = Cursor(count: nat, payload: nat, padding: nat)

  /** How a stream ends for its reader. */
  datatype Ending = Clean | Truncated | Failed

  datatype Decoded = Decoded(bytes: seq<byte>, ending: Ending)

  function At(d: Decoded, before: seq<byte>): (r: Decoded)
  {
    Decoded(before + d.bytes, d.ending)
  }

  /** The payload that a reader at `c` gets from the rest of the wire, and how its
      stream then ends; `breaks` tells that the source ends in an error. */
  function Decode(c: Cursor, wire: seq<byte>, breaks: bool): (d: Decoded)
    decreases |wire|, 0
  {
    var cut := if breaks then Failed else Truncated;
    if c.count >= FIRST_PADDINGS then Decoded(wire, if breaks then Failed else Clean)
    else if c.payload > 0 then
      if |wire| < c.payload then Decoded(wire, cut)
      else At(AfterPayload(c.count, c.padding, wire[c.payload..], breaks), wire[..c.payload])
    else if wire == [] then Decoded([], if breaks then Failed else Clean)
    else if |wire| < 3 then Decoded([], cut)
    else if U16(wire) == 0 then AfterPayload(c.count, wire[2], wire[3..], breaks)
    else Decode(Cursor(c.count, U16(wire), wire[2]), wire[3..], breaks)
  }

  /** From the end of a payload on: skip the padding, go to the next frame. */
  function AfterPayload(count: nat, padding: nat, wire: seq<byte>, breaks: bool): (d: Decoded)
    requires count < FIRST_PADDINGS
    decreases |wire|, 1
  {
    if |wire| < padding then Decoded([], if breaks then Failed else Truncated)
    else Decode(Cursor(count + 1, 0, 0), wire[padding..], breaks)
  }

  /** Taking a piece off the front of a payload. */
  lemma {:induction false} DecodePiece(c: Cursor, bs: seq<byte>, rest: seq<byte>, breaks: bool)
    requires c.count < FIRST_PADDINGS && 0 < c.payload && |bs| <= c.payload
    ensures Decode(c, bs + rest, breaks)
         == At(if |bs| < c.payload then Decode(c.(payload := c.payload - |bs|), rest, breaks)
               else AfterPayload(c.count, c.padding, rest, breaks), bs)
  {
    var wire := bs + rest;
    if |wire| >= c.payload {
      var more := c.payload - |bs|;
      assert wire[..c.payload] == bs + rest[..more] && wire[c.payload..] == rest[more..];
      Assoc(bs, rest[..more], AfterPayload(c.count, c.padding, rest[more..], breaks).bytes);
      assert more == 0 ==> rest[more..] == rest && rest[..more] == [];
    }
  }

  /** A stream that ends in an error of its source always fails. */
  lemma {:induction false} BreaksFails(c: Cursor, wire: seq<byte>)
    ensures Decode(c, wire, true).ending == Failed
    decreases |wire|, 0
  {
    if c.count < FIRST_PADDINGS {
      if c.payload > 0 {
        if |wire| >= c.payload {
          BreaksFailsAfter(c.count, c.padding, wire[c.payload..]);
        }
      } else if |wire| >= 3 {
        if U16(wire) == 0 {
          BreaksFailsAfter(c.count, wire[2], wire[3..]);
        } else {
          BreaksFails(Cursor(c.count, U16(wire), wire[2]), wire[3..]);
        }
      }
    }
  }

  lemma {:induction false} BreaksFailsAfter(count: nat, padding: nat, wire: seq<byte>)
    requires count < FIRST_PADDINGS
    ensures AfterPayload(count, padding, wire, true).ending == Failed
    decreases |wire|, 1
  {
    if |wire| >= padding {
      BreaksFails(Cursor(count + 1, 0, 0), wire[padding..]);
    }
  }

  // ------------------------------------------------------------------
  // The reader

  /** The error a reader reports at each ending. */
  function StatusOf(e: Ending): (s: ReadStatus)
  {
    match e
    case Clean => AtEof
    case Truncated => UnexpectedEof
    case Failed => Broken
  }

  class PaddingReader {
    const r: Reader
    var count: nat
    var payloadRemaining: nat
    var paddingRemaining: nat

    constructor (r: Reader)
      requires r.Valid()
      ensures Valid() && this.r == r && Position() == Cursor(0, 0, 0)
    {
      this.r := r;
      count, payloadRemaining, paddingRemaining := 0, 0, 0;
    }

    ghost predicate Valid()
      reads this, r
    {
      r.Valid() && (payloadRemaining == 0 ==> paddingRemaining == 0)
    }

    ghost function Position(): Cursor
      reads this
    {
      Cursor(count, payloadRemaining, paddingRemaining)
    }

    /** All that this reader will still deliver, and how its stream will end. */
    ghost function Rest(): Decoded
      reads this, r
    {
      Decode(Position(), r.data, r.breaks)
    }

    /** What bounds the number of reads still to come. */
    ghost function Left(): nat
      reads this, r
    {
      |r.data| + r.idle
    }

    /** Whatever the source's fragmentation and the caller's buffer sizes, each
        read takes its bytes off the front of the decoded stream, and the first
        error is the one the stream ends with, after its last byte. */
    method Read(cap: nat) returns (bs: seq<byte>, status: ReadStatus)
      requires Valid()
      modifies this, r
      ensures r.Valid() && |bs| <= cap
      ensures status == Fine && cap > 0 ==> Left() < old(Left())
      ensures status == Fine ==> Valid() && old(Rest()) == At(Rest(), bs)
      ensures status != Fine ==> old(Rest()).bytes == bs && status == StatusOf(old(Rest()).ending)
    {
      if count >= FIRST_PADDINGS {
        bs, status := r.Read(cap);
        return;
      }
      if cap == 0 {
        return [], Fine;
      }
      ghost var rest := Rest();
      while payloadRemaining == 0
        invariant Valid() && count < FIRST_PADDINGS && Rest() == rest && Left() <= old(Left())
        decreases |r.data|, payloadRemaining == 0
      {
        status := ReadHeader();
        if status != Fine {
          return [], status;
        }
        if count >= FIRST_PADDINGS {
          bs, status := r.Read(cap);
          return;
        }
      }
      bs, status := ReadPayload(cap);
    }

    /** One turn of the header loop; an empty frame is skipped whole. */
    method ReadHeader() returns (status: ReadStatus)
      requires Valid() && count < FIRST_PADDINGS && payloadRemaining == 0
      modifies this, r
      ensures r.Valid()
      ensures r.idle <= old(r.idle)
      ensures status == Fine ==> Valid() && Rest() == old(Rest()) && |r.data| < |old(r.data)|
      ensures status == Fine && count >= FIRST_PADDINGS ==> payloadRemaining == 0
      ensures status != Fine ==> old(Rest()).bytes == [] && status == StatusOf(old(Rest()).ending)
    {
      var header;
      header, status := r.ReadFull(3);
      if status != Fine {
        return;
      }
      payloadRemaining, paddingRemaining := U16(header), header[2];
      if payloadRemaining == 0 {
        status := DiscardPadding();
      }
    }

    method DiscardPadding() returns (status: ReadStatus)
      requires r.Valid() && payloadRemaining == 0 && count < FIRST_PADDINGS
      modifies this, r
      ensures r.Valid() && |r.data| <= |old(r.data)| && r.idle <= old(r.idle)
      ensures var d := AfterPayload(old(count), old(paddingRemaining), old(r.data), r.breaks);
              && (status == Fine ==> Valid() && payloadRemaining == 0 && Rest() == d)
              && (status != Fine ==> d.bytes == [] && status == StatusOf(d.ending))
    {
      if paddingRemaining > 0 {
        var skipped;
        skipped, status := r.ReadFull(paddingRemaining);
        if status == AtEof {
          status := UnexpectedEof;
        }
        if status != Fine {
          paddingRemaining := paddingRemaining - |skipped|;
          return;
        }
        paddingRemaining := 0;
      }
      count := count + 1;
      status := Fine;
    }

    /** The read inside a payload, and the padding once the payload is complete. */
    method ReadPayload(cap: nat) returns (bs: seq<byte>, status: ReadStatus)
      requires Valid() && count < FIRST_PADDINGS && payloadRemaining > 0
      modifies this, r
      ensures r.Valid() && |bs| <= cap
      ensures status == Fine && cap > 0 ==> Left() < old(Left())
      ensures status == Fine ==> Valid() && old(Rest()) == At(Rest(), bs)
      ensures status != Fine ==> old(Rest()).bytes == bs && status == StatusOf(old(Rest()).ending)
    {
      bs, status := TakePiece(cap);
      assert bs + [] == bs;
      if status == AtEof {
        if payloadRemaining > 0 || paddingRemaining > 0 {
          status := UnexpectedEof;
        }
        return;
      }
      if status != Fine {
        return;
      }
      if payloadRemaining == 0 {
        status := DiscardPadding();
      }
    }

    /** One read of the source inside a payload. */
    method TakePiece(cap: nat) returns (bs: seq<byte>, status: ReadStatus)
      requires Valid() && count < FIRST_PADDINGS && payloadRemaining > 0
      modifies this`payloadRemaining, r
      ensures r.Valid() && |bs| <= cap && payloadRemaining <= old(payloadRemaining)
      ensures status == Fine || (status == r.End() && r.data == [])
      ensures r.idle <= old(r.idle) && |r.data| <= |old(r.data)|
      ensures status == Fine && cap > 0 ==> Left() < old(Left())
      ensures var d := if payloadRemaining > 0 then Rest()
                       else AfterPayload(count, paddingRemaining, r.data, r.breaks);
              && old(Rest()) == At(d, bs)
              && (r.breaks ==> d.ending == Failed)
    {
      ghost var c := Position();
      bs, status := r.Read(Min(cap, payloadRemaining));
      payloadRemaining := payloadRemaining - |bs|;
      DecodePiece(c, bs, r.data, r.breaks);
      if r.breaks {
        BreaksFails(c, bs + r.data);
      }
    }
  }

  // ------------------------------------------------------------------
  // The writer

  /** What a writer has sent so far: padded frames, then raw bytes. */
  datatype Sent = Sent(frames: seq<Frame>, raw: seq<byte>)

  function SentBytes(s: Sent): (bs: seq<byte>)
  {
    FramesBytes(s.frames) + s.raw
  }

  function SentPayload(s: Sent): (bs: seq<byte>)
  {
    Payloads(s.frames) + s.raw
  }

  /** Raw bytes follow the eighth frame and none earlier. */
  ghost predicate WellFormed(s: Sent)
  {
    && WellSized(s.frames) && |s.frames| <= FIRST_PADDINGS && (s.raw != [] ==> |s.frames| == FIRST_PADDINGS)
    && forall i :: 0 <= i < |s.frames| ==> s.frames[i].payload != []
  }

  /** Builds a frame in a recycled buffer. */
  method FillFrame(buf: array<byte>, payload: seq<byte>, padding: byte)
    requires buf.Length == 3 + |payload| + padding
    modifies buf
    ensures buf[..] == FrameBytes(Frame(payload, padding))
  {
    var at := Append(buf, 0, 0, PutU16(ToU16(|payload|)));
    at := Append(buf, 0, at, [padding]);
    at := Append(buf, 0, at, payload);
    at := Append(buf, 0, at, Zeros(padding));
    assert buf[0..at] == buf[..];
  }

  /** How many frames of at most 65535 bytes a write of `n` bytes takes. */
  function FramesFor(n: nat): (k: nat)
    ensures n <= 65535 * k && 65535 * k < n + 65535
  {
    (n + MAX_PAYLOAD - 1) / MAX_PAYLOAD
  }

  /** Behind whole frames, a piece that fits takes one more, and any piece at least one. */
  lemma FramesForMore(n: nat, more: nat)
    requires n % MAX_PAYLOAD == 0 && more > 0
    ensures FramesFor(n + more) > FramesFor(n) && (more <= MAX_PAYLOAD ==> FramesFor(n + more) == FramesFor(n) + 1)
  {
  }

  lemma TakeOn(before: seq<byte>, p: seq<byte>, n: nat, size: nat)
    requires n + size <= |p|
    ensures before + p[..n] + p[n..][..size] == before + p[..n + size]
    ensures p[n..][size..] == p[n + size..] && p[..|p|] == p
  {
    Assoc(before, p[..n], p[n..][..size]);
    assert p[..n] + p[n..][..size] == p[..n + size];
  }

  /** The paddings of `fs` are numbers the generator gave, from the `n`-th on. */
  ghost predicate PaddedFrom(fs: seq<Frame>, random: Entropy, n: nat)
  {
    forall k :: 0 <= k < |fs| ==> fs[k].padding == random.numbers(n + k) % 256
  }

  lemma FrameAdded(s: Sent, f: Frame)
    requires WellFormed(s) && s.raw == [] && |s.frames| < FIRST_PADDINGS && 0 < |f.payload| <= MAX_PAYLOAD
    ensures var s' := Sent(s.frames + [f], []);
            && WellFormed(s') && SentBytes(s') == SentBytes(s) + FrameBytes(f)
            && SentPayload(s') == SentPayload(s) + f.payload
  {
    FramesSnoc(s.frames, f);
    assert SentBytes(s) == FramesBytes(s.frames) && SentPayload(s) == Payloads(s.frames);
    assert SentBytes(Sent(s.frames + [f], [])) == FramesBytes(s.frames + [f]);
    assert SentPayload(Sent(s.frames + [f], [])) == Payloads(s.frames + [f]);
  }

  lemma PaddedOn(fs: seq<Frame>, f: Frame, random: Entropy, from: nat, drawn: nat)
    requires from <= |fs| && PaddedFrom(fs[from..], random, drawn)
    requires f.padding == random.numbers(drawn + |fs| - from) % 256
    ensures PaddedFrom((fs + [f])[from..], random, drawn)
  {
    assert (fs + [f])[from..] == fs[from..] + [f];
  }

  class PaddingWriter {
    const w: Writer
    const random: Entropy
    var count: nat
    ghost var sent: Sent

    constructor (w: Writer, random: Entropy)
      requires w.got == []
      ensures Valid() && this.w == w && this.random == random && sent == Sent([], [])
    {
      this.w, this.random, count, sent := w, random, 0, Sent([], []);
    }

    ghost predicate Valid()
      reads this, w
    {
      WellFormed(sent) && count == |sent.frames| && w.got == SentBytes(sent)
    }

    /** The payload sent grows by exactly the given bytes, unless the sink fails: in as
        few padded frames as hold them, up to the eighth, and raw behind it. */
    method Write(p: seq<byte>) returns (n: nat, ok: bool)
      requires Valid()
      modifies this, w, random`drawn
      ensures n <= |p| && (ok || w.failed)
      ensures ok ==> Valid() && n == |p| && SentPayload(sent) == old(SentPayload(sent)) + p
      ensures ok ==> |sent.frames| == Min(8, |old(sent.frames)| + FramesFor(|p|))
      ensures ok ==> Continues(old(sent.frames), old(random.drawn))
    {
      assert Continues(sent.frames, random.drawn);
      if count >= FIRST_PADDINGS {
        n, ok := WriteRaw(p);
        return;
      }
      n, ok := WriteFrames(p);
      TakeOn(old(SentPayload(sent)), p, n, |p| - n);
      if ok && n < |p| {
        FramesForMore(n, |p| - n);
        var more;
        more, ok := WriteRaw(p[n..]);
        n := n + more;
      }
    }

    /** The loop of padded frames. */
    method WriteFrames(p: seq<byte>) returns (n: nat, ok: bool)
      requires Valid() && count < FIRST_PADDINGS
      modifies this, w, random`drawn
      ensures n <= |p| && (ok || w.failed)
      ensures ok ==> Valid() && SentPayload(sent) == old(SentPayload(sent)) + p[..n]
      ensures ok ==> count == old(count) + FramesFor(n) && Continues(old(sent.frames), old(random.drawn))
      ensures ok && n < |p| ==> count == FIRST_PADDINGS && n % MAX_PAYLOAD == 0
    {
      assert Continues(sent.frames, random.drawn);
      n, ok := 0, true;
      var rest := p;
      while |rest| > 0 && count < FIRST_PADDINGS && ok
        invariant |rest| <= |p| && n == |p| - |rest| && rest == p[n..]
        invariant ok ==> Valid() && SentPayload(sent) == old(SentPayload(sent)) + p[..n]
        invariant ok ==> Continues(old(sent.frames), old(random.drawn))
        invariant ok ==> count == old(count) + FramesFor(n) && (rest != [] ==> n % MAX_PAYLOAD == 0)
        invariant ok || w.failed
        decreases |rest|, ok
      {
        var size := Min(|rest|, MAX_PAYLOAD);
        TakeOn(old(SentPayload(sent)), p, n, size);
        FramesForMore(n, size);
        ok := WriteFrame(rest[..size], old(sent.frames), old(random.drawn));
        if ok {
          n, rest := n + size, rest[size..];
        }
      }
    }

    /** The frames behind `before` are padded by what was drawn since the generator
        had given `drawn` numbers. */
    ghost predicate Continues(before: seq<Frame>, drawn: nat)
      reads this, random
    {
      && before <= sent.frames && random.drawn == drawn + |sent.frames| - |before|
      && PaddedFrom(sent.frames[|before|..], random, drawn)
    }

    method WriteRaw(p: seq<byte>) returns (n: nat, ok: bool)
      requires Valid() && count >= FIRST_PADDINGS
      modifies this`sent, w
      ensures n <= |p| && (ok || w.failed) && sent.frames == old(sent.frames)
      ensures ok ==> Valid() && n == |p| && SentPayload(sent) == old(SentPayload(sent)) + p
    {
      n, ok := w.Write(p);
      Assoc(FramesBytes(sent.frames), sent.raw, p);
      Assoc(Payloads(sent.frames), sent.raw, p);
      sent := sent.(raw := sent.raw + p);
      assert ok ==> p[..n] == p;
    }

    method WriteFrame(p: seq<byte>, ghost before: seq<Frame>, ghost drawn: nat) returns (ok: bool)
      requires Valid() && count < FIRST_PADDINGS && 0 < |p| <= MAX_PAYLOAD && Continues(before, drawn)
      modifies this, w, random`drawn
      ensures ok ==> Valid() && SentPayload(sent) == old(SentPayload(sent)) + p
      ensures ok ==> count == old(count) + 1 && Continues(before, drawn)
      ensures ok || w.failed
    {
      var padding: byte := random.Below(MAX_PADDING + 1);
      var buf := new byte[3 + |p| + padding];
      FillFrame(buf, p, padding);
      var n;
      n, ok := w.Write(buf[..]);
      if ok {
        ghost var f := Frame(p, padding);
        assert buf[..][..n] == FrameBytes(f);
        FrameAdded(sent, f);
        PaddedOn(sent.frames, f, random, |before|, drawn);
        sent := Sent(sent.frames + [f], []);
        count := count + 1;
      }
    }
  }

  // ------------------------------------------------------------------
  // Laws

  /** The header of a frame is read back, and its payload and padding follow; an
      empty frame counts like any other. */
  lemma {:induction false} DecodeFrame(f: Frame, count: nat, rest: seq<byte>, breaks: bool)
    requires count < 8 && |f.payload| <= 65535
    ensures Decode(Cursor(count, 0, 0), FrameBytes(f) + rest, breaks)
         == At(Decode(Cursor(count + 1, 0, 0), rest, breaks), f.payload)
  {
    var wire := FrameBytes(f) + rest;
    U16RoundTrip(|f.payload|, [f.padding] + f.payload + Zeros(f.padding) + rest);
    assert wire == PutU16(|f.payload|) + ([f.padding] + f.payload + Zeros(f.padding) + rest);
    assert wire[2] == f.padding && wire[3..] == f.payload + (Zeros(f.padding) + rest);
    SplitAt(Zeros(f.padding), rest);
    if |f.payload| > 0 {
      DecodePiece(Cursor(count, |f.payload|, f.padding), f.payload, Zeros(f.padding) + rest, breaks);
    } else {
      assert wire[3..] == Zeros(f.padding) + rest;
      var d := Decode(Cursor(count + 1, 0, 0), rest, breaks);
      assert [] + d.bytes == d.bytes;
    }
  }

  /** Round trip: reading what a writer sent, from the same frame on, gives back
      the payload and a clean end - raw bytes included, so both sides leave padding
      mode behind the same frame. */
  lemma {:induction false} RoundTrip(s: Sent, count: nat, breaks: bool)
    requires WellSized(s.frames) && count + |s.frames| <= 8
    requires s.raw != [] ==> count + |s.frames| == 8
    ensures Decode(Cursor(count, 0, 0), SentBytes(s), breaks)
         == Decoded(SentPayload(s), if breaks then Failed else Clean)
    decreases |s.frames|
  {
    if |s.frames| == 0 {
      assert SentBytes(s) == s.raw && SentPayload(s) == s.raw;
    } else {
      var rest := Sent(s.frames[1..], s.raw);
      RoundTrip(rest, count + 1, breaks);
      DecodeFrame(s.frames[0], count, SentBytes(rest), breaks);
      Assoc(FrameBytes(s.frames[0]), FramesBytes(s.frames[1..]), s.raw);
      Assoc(s.frames[0].payload, Payloads(s.frames[1..]), s.raw);
    }
  }

  /** Padding costs at most 3 + 255 bytes for each of the first eight frames. */
  lemma Overhead(s: Sent)
    requires WellFormed(s)
    ensures |SentPayload(s)| <= |SentBytes(s)| <= |SentPayload(s)| + FIRST_PADDINGS * (3 + MAX_PADDING)
  {
    FramesOverhead(s.frames);
  }

  lemma {:induction false} FramesOverhead(fs: seq<Frame>)
    ensures |Payloads(fs)| <= |FramesBytes(fs)| <= |Payloads(fs)| + |fs| * (3 + MAX_PADDING)
  {
    if |fs| > 0 {
      FramesOverhead(fs[1..]);
    }
  }

  // ------------------------------------------------------------------
  // Truncation

  /** Whether `cut` bytes end exactly between two of the frames. */
  predicate OnBoundary(fs: seq<Frame>, cut: nat)
  {
    cut == 0 || (|fs| > 0 && |FrameBytes(fs[0])| <= cut && OnBoundary(fs[1..], cut - |FrameBytes(fs[0])|))
  }

  /** The payload bytes among the first `cut` bytes of the frames. */
  function PayloadWithin(fs: seq<Frame>, cut: nat): (bs: seq<byte>)
  {
    if |fs| == 0 || cut < 3 then []
    else if cut < |FrameBytes(fs[0])| then fs[0].payload[..Min(cut - 3, |fs[0].payload|)]
    else fs[0].payload + PayloadWithin(fs[1..], cut - |FrameBytes(fs[0])|)
  }

  /** A boundary is the end of some first frames. */
  lemma {:induction false} OnBoundaryExactly(fs: seq<Frame>, cut: nat)
    ensures OnBoundary(fs, cut) <==> exists k :: 0 <= k <= |fs| && cut == |FramesBytes(fs[..k])|
    decreases |fs|
  {
    if k :| 0 <= k <= |fs| && cut == |FramesBytes(fs[..k])| {
      BoundaryAt(fs, k);
    }
    if OnBoundary(fs, cut) {
      var k := BoundaryOf(fs, cut);
    }
  }

  lemma {:induction false} BoundaryAt(fs: seq<Frame>, k: nat)
    requires k <= |fs|
    ensures OnBoundary(fs, |FramesBytes(fs[..k])|)
  {
    if k > 0 {
      BoundaryAt(fs[1..], k - 1);
      FirstFrames(fs, k);
    }
  }

  lemma {:induction false} BoundaryOf(fs: seq<Frame>, cut: nat) returns (k: nat)
    requires OnBoundary(fs, cut)
    ensures k <= |fs| && cut == |FramesBytes(fs[..k])|
    decreases |fs|
  {
    k := 0;
    if cut > 0 {
      k := BoundaryOf(fs[1..], cut - |FrameBytes(fs[0])|);
      k := k + 1;
      FirstFrames(fs, k);
    }
  }

  lemma FirstFrames(fs: seq<Frame>, k: nat)
    requires 0 < k <= |fs|
    ensures FramesBytes(fs[..k]) == FrameBytes(fs[0]) + FramesBytes(fs[1..][..k - 1])
    ensures Payloads(fs[..k]) == fs[0].payload + Payloads(fs[1..][..k - 1])
  {
    assert fs[..k][1..] == fs[1..][..k - 1];
  }

  /** Of a wire cut `more` bytes into frame `k`, what arrived is the payload of the frames
      before it, and of its own what stands behind its three bytes of header. */
  lemma {:induction false} PayloadWithinAt(fs: seq<Frame>, k: nat, more: nat)
    requires k < |fs| && more < |FrameBytes(fs[k])|
    ensures PayloadWithin(fs, |FramesBytes(fs[..k])| + more)
         == Payloads(fs[..k]) + (if more < 3 then [] else fs[k].payload[..Min(more - 3, |fs[k].payload|)])
    decreases k
  {
    if k > 0 {
      FirstFrames(fs, k);
      PayloadWithinAt(fs[1..], k - 1, more);
      assert fs[1..][k - 1] == fs[k];
      Assoc(fs[0].payload, Payloads(fs[1..][..k - 1]),
            if more < 3 then [] else fs[k].payload[..Min(more - 3, |fs[k].payload|)]);
    } else {
      var own := if more < 3 then [] else fs[k].payload[..Min(more - 3, |fs[k].payload|)];
      assert Payloads(fs[..0]) + own == own;
    }
  }

  lemma {:induction false} PayloadWithinIsPrefix(fs: seq<Frame>, cut: nat)
    ensures PayloadWithin(fs, cut) <= Payloads(fs)
  {
    if |fs| > 0 && cut >= |FrameBytes(fs[0])| {
      PayloadWithinIsPrefix(fs[1..], cut - |FrameBytes(fs[0])|);
    }
  }

  lemma CutFrame(f: Frame, count: nat, cut: nat)
    requires count < FIRST_PADDINGS && |f.payload| <= MAX_PAYLOAD && 0 < cut < |FrameBytes(f)|
    ensures Decode(Cursor(count, 0, 0), FrameBytes(f)[..cut], false)
         == Decoded(if cut < 3 then [] else f.payload[..Min(cut - 3, |f.payload|)], Truncated)
  {
    var wire := FrameBytes(f)[..cut];
    if cut >= 3 {
      U16RoundTrip(|f.payload|, [f.padding] + f.payload + Zeros(f.padding));
      assert FrameBytes(f) == PutU16(|f.payload|) + ([f.padding] + f.payload + Zeros(f.padding));
      assert U16(wire) == |f.payload| && wire[2] == f.padding;
      assert FrameBytes(f)[3..] == f.payload + Zeros(f.padding);
      assert wire[3..] == (f.payload + Zeros(f.padding))[..cut - 3];
      if cut - 3 < |f.payload| {
        TakeInside(f.payload, Zeros(f.padding), cut - 3);
      } else {
        TakeBehind(f.payload, Zeros(f.padding), cut - 3);
        var rest := Zeros(f.padding)[..cut - 3 - |f.payload|];
        assert f.payload + [] == f.payload == f.payload[..|f.payload|];
        if |f.payload| > 0 {
          DecodePiece(Cursor(count, |f.payload|, f.padding), f.payload, rest, false);
        } else {
          assert f.payload + rest == rest;
        }
      }
    }
  }

  /** A wire cut within the first eight frames ends with an unexpected EOF, after a
      correct payload prefix, unless it is cut exactly between two frames. */
  lemma {:induction false} Truncation(fs: seq<Frame>, count: nat, cut: nat)
    requires WellSized(fs) && count + |fs| <= 8 && cut <= |FramesBytes(fs)|
    ensures Decode(Cursor(count, 0, 0), FramesBytes(fs)[..cut], false)
         == Decoded(PayloadWithin(fs, cut), if OnBoundary(fs, cut) then Clean else Truncated)
    decreases |fs|
  {
    if |fs| > 0 {
      var first, rest := FrameBytes(fs[0]), FramesBytes(fs[1..]);
      if cut < |first| {
        TakeInside(first, rest, cut);
        if cut > 0 {
          CutFrame(fs[0], count, cut);
        }
      } else {
        TakeBehind(first, rest, cut);
        Truncation(fs[1..], count + 1, cut - |first|);
        DecodeFrame(fs[0], count, rest[..cut - |first|], false);
      }
    }
  }

  // ------------------------------------------------------------------
  // Whole runs

  method WriteAll(pw: PaddingWriter, writes: seq<seq<byte>>) returns (ok: bool)
    requires pw.Valid() && pw.sent == Sent([], [])
    modifies pw, pw.w, pw.random`drawn
    ensures ok ==> pw.Valid() && SentPayload(pw.sent) == Flatten(writes)
    ensures ok ==> PaddedFrom(pw.sent.frames, pw.random, old(pw.random.drawn))
    ensures ok || pw.w.failed
  {
    ok := true;
    var i := 0;
    while i < |writes| && ok
      invariant 0 <= i <= |writes|
      invariant ok ==> pw.Valid() && SentPayload(pw.sent) == Flatten(writes[..i])
      invariant ok ==> pw.Continues([], old(pw.random.drawn))
      invariant ok || pw.w.failed
    {
      var n;
      ghost var fs, drawn := pw.sent.frames, pw.random.drawn;
      n, ok := pw.Write(writes[i]);
      if ok {
        ContinuesOn(fs, pw.sent.frames, pw.random, old(pw.random.drawn), drawn);
      }
      FlattenSnoc(writes[..i], writes[i]);
      assert writes[..i] + [writes[i]] == writes[..i + 1];
      i := i + 1;
    }
    assert writes[..|writes|] == writes;
  }

  lemma ContinuesOn(fs: seq<Frame>, more: seq<Frame>, random: Entropy, n: nat, m: nat)
    requires fs <= more && m == n + |fs| && PaddedFrom(fs[0..], random, n) && PaddedFrom(more[|fs|..], random, m)
    ensures PaddedFrom(more[0..], random, n)
  {
    forall k | 0 <= k < |more|
      ensures more[k].padding == random.numbers(n + k) % 256
    {
      if k < |fs| {
        assert fs[0..][k].padding == random.numbers(n + k) % 256;
      } else {
        assert more[|fs|..][k - |fs|].padding == random.numbers(m + (k - |fs|)) % 256;
      }
    }
  }

  /** Reads with buffers of the given sizes until the first error. */
  method ReadAll(pr: PaddingReader, caps: seq<nat>) returns (delivered: seq<byte>, status: ReadStatus)
    requires pr.Valid()
    modifies pr, pr.r
    ensures status == Fine ==> pr.Valid() && old(pr.Rest()) == At(pr.Rest(), delivered)
    ensures status != Fine ==> delivered == old(pr.Rest()).bytes && status == StatusOf(old(pr.Rest()).ending)
  {
    delivered, status := [], Fine;
    ghost var whole := pr.Rest();
    assert [] + whole.bytes == whole.bytes;
    var i := 0;
    while i < |caps| && status == Fine
      invariant 0 <= i <= |caps|
      invariant status == Fine ==> pr.Valid() && whole == At(pr.Rest(), delivered)
      invariant status != Fine ==> delivered == whole.bytes && status == StatusOf(whole.ending)
    {
      var bs;
      bs, status := pr.Read(caps[i]);
      if status == Fine {
        Assoc(delivered, bs, pr.Rest().bytes);
      }
      delivered := delivered + bs;
      i := i + 1;
    }
  }

  /** Reads with a buffer of `cap` bytes until an error, which comes after finitely
      many reads. */
  method ReadToEnd(pr: PaddingReader, cap: nat) returns (delivered: seq<byte>, status: ReadStatus)
    requires pr.Valid() && cap > 0
    modifies pr, pr.r
    ensures delivered == old(pr.Rest()).bytes && status == StatusOf(old(pr.Rest()).ending)
    ensures pr.r.breaks ==> status == Broken
  {
    delivered, status := [], Fine;
    ghost var whole := pr.Rest();
    if pr.r.breaks {
      BreaksFails(pr.Position(), pr.r.data);
    }
    assert [] + whole.bytes == whole.bytes;
    while status == Fine
      invariant status == Fine ==> pr.Valid() && whole == At(pr.Rest(), delivered)
      invariant status != Fine ==> delivered == whole.bytes && status == StatusOf(whole.ending)
      decreases status == Fine, pr.Left()
    {
      var bs;
      bs, status := pr.Read(cap);
      if status == Fine {
        Assoc(delivered, bs, pr.Rest().bytes);
      }
      delivered := delivered + bs;
    }
  }

  /** Any list of writes, any padding sizes, any fragmentation and any buffer sizes,
      first those of `caps` and then `cap`: what is read is what was written, and the
      first error is a clean EOF after the last byte. On the wire are at most eight
      frames, none of them empty, padded by what the generator gave, and raw bytes
      behind the eighth only. */
  method PaddedRun(writes: seq<seq<byte>>, idle: nat, caps: seq<nat>, cap: nat, w: Writer, random: Entropy)
    returns (sent: bool, delivered: seq<byte>, status: ReadStatus, ghost s: Sent)
    requires w.got == [] && cap > 0
    modifies w, random`drawn
    ensures sent || w.failed
    ensures sent ==> delivered == Flatten(writes) && status == AtEof
    ensures sent ==> |w.got| <= |Flatten(writes)| + 8 * (3 + 255)
    ensures sent ==>
      && w.got == FramesBytes(s.frames) + s.raw && |s.frames| <= 8 && (s.raw != [] ==> |s.frames| == 8)
      && (forall k :: 0 <= k < |s.frames| ==> 0 < |s.frames[k].payload| <= 65535)
      && PaddedFrom(s.frames, random, old(random.drawn))
  {
    var pw := new PaddingWriter(w, random);
    sent := WriteAll(pw, writes);
    var r := new Reader(w.got, false, idle);
    var pr := new PaddingReader(r);
    if sent {
      RoundTrip(pw.sent, 0, false);
      Overhead(pw.sent);
    }
    s := pw.sent;
    delivered, status := ReadAll(pr, caps);
    if status == Fine {
      var more;
      more, status := ReadToEnd(pr, cap);
      delivered := delivered + more;
    }
  }

  /** A wire cut anywhere in the padded frames of any writer, read to its end: exactly
      the payload that arrived, and an unexpected EOF unless the cut is between frames. */
  method CutRun(frames: seq<Frame>, cut: nat, idle: nat, cap: nat) returns (delivered: seq<byte>, status: ReadStatus)
    requires WellSized(frames) && |frames| <= 8 && cut <= |FramesBytes(frames)| && cap > 0
    ensures delivered == PayloadWithin(frames, cut) && delivered <= Payloads(frames)
    ensures status == if OnBoundary(frames, cut) then AtEof else UnexpectedEof
  {
    var r := new Reader(FramesBytes(frames)[..cut], false, idle);
    var pr := new PaddingReader(r);
    Truncation(frames, 0, cut);
    PayloadWithinIsPrefix(frames, cut);
    delivered, status := ReadToEnd(pr, cap);
  }
}
