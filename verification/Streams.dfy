/** io.Reader and io.Writer as the components see them: byte streams whose
    fragmentation, stuttering and end are chosen by the environment.

    Methods are known to their callers by contract only, so everything proved
    about a caller holds for every behaviour these contracts allow. */
module Streams {
  import opened Bytes

  datatype ReadStatus =
    | Fine           // nil error
    | AtEof          // io.EOF
    | UnexpectedEof  // io.ErrUnexpectedEOF
    | Broken         // any other error

  /** A byte stream being read. `data` holds every byte that is still to arrive
      before the stream ends; `buffered` of them already sit in a bufio buffer. */
  class Reader {
    var data: seq<byte>
    var buffered: nat
    /** How many more times the source may return zero bytes and no error. */
    var idle: nat
    /** What the next Read call will do: how many bytes it can bring, and whether it
        reports the end of the stream if it leaves nothing behind. */
    var burst: nat
    var ends: bool
    /** The most bytes a Peek has waited for. */
    ghost var peeked: nat
    /** Whether the stream ends with an error other than io.EOF. */
    const breaks: bool

    ghost predicate Valid()
      reads this
    {
      buffered <= |data| && burst <= |data| && (burst == 0 && !(data == [] && ends) ==> idle > 0)
    }

    constructor (bytes: seq<byte>, breaks: bool, idle: nat)
      ensures Valid() && data == bytes && this.breaks == breaks && this.idle == idle && buffered == 0 && peeked == 0
    {
      data, this.breaks, this.idle, buffered, peeked, burst, ends := bytes, breaks, idle, 0, 0, |bytes|, true;
      new;
      Settle();
    }

    /** The environment makes up its mind about the next Read call. */
    method Settle()
      requires buffered <= |data|
      modifies this`burst, this`ends
      ensures Valid()
    {
      ends := *;
      ends := ends || (data == [] && idle == 0);
      assert 0 <= |data| && (|data| == 0 ==> idle > 0 || ends);
      var n :| 0 <= n <= |data| && (n == 0 && !(data == [] && ends) ==> idle > 0);
      burst := n;
    }

    /** The environment delivers a stream; the first read can bring `first` bytes of it,
        and `atOnce` tells whether it would bring the end along. */
    method Arrive(bytes: seq<byte>, first: nat, atOnce: bool)
      requires first > 0 || idle > 0
      modifies this`data, this`buffered, this`burst, this`ends
      ensures Valid() && data == bytes && buffered == 0 && burst == Min(first, |bytes|)
      ensures ends == (atOnce || (bytes == [] && idle == 0))
    {
      data, buffered, burst, ends := bytes, 0, Min(first, |bytes|), atOnce || (bytes == [] && idle == 0);
    }

    /** The next Read call brings `n` bytes, and no error with them. */
    predicate BringsAtOnce(n: nat)
      reads this
    {
      n <= burst && !(n == |data| && ends)
    }

    function End(): (s: ReadStatus)
    {
      if breaks then Broken else AtEof
    }

    /** The next Read call with a buffer of `n` bytes brings the end of the stream, with
        all that is left of it. */
    predicate BringsEnd(n: nat)
      reads this
    {
      ends && burst == |data| && |data| <= n
    }

    /** One Read call: what has arrived, up to `max` bytes; the end of the stream is
        reported together with the last bytes or on its own. */
    method Read(max: nat) returns (bs: seq<byte>, status: ReadStatus)
      requires Valid()
      modifies this
      ensures Valid()
      ensures bs + data == old(data) && |bs| == Min(max, old(burst))
      ensures status == if data == [] && old(ends) then End() else Fine
      ensures idle <= old(idle)
      ensures max > 0 && bs == [] && status == Fine ==> idle < old(idle)
    {
      var n := Min(max, burst);
      bs, data := data[..n], data[n..];
      buffered := if n < buffered then buffered - n else 0;
      status := if data == [] && ends then End() else Fine;
      if max > 0 && n == 0 && status == Fine {
        idle := idle - 1;
      }
      Settle();
    }

    /** io.ReadFull: loops over Read until `n` bytes have arrived. */
    method ReadFull(n: nat) returns (bs: seq<byte>, status: ReadStatus)
      requires Valid()
      modifies this
      ensures Valid()
      ensures status == Fine <==> n <= |old(data)|
      ensures status == Fine ==> bs == old(data)[..n] && data == old(data)[n..]
      ensures status != Fine ==> bs == old(data) && data == []
      ensures status != Fine ==> status == if breaks then Broken else if bs == [] then AtEof else UnexpectedEof
      ensures idle <= old(idle)
    {
      bs, status := [], Fine;
      while |bs| < n && status == Fine
        invariant Valid() && bs + data == old(data) && |bs| <= n
        invariant status == Fine || (status == End() && data == [])
        invariant idle <= old(idle)
        decreases n - |bs|, idle, status == Fine
      {
        var more;
        more, status := Read(n - |bs|);
        bs := bs + more;
      }
      if |bs| >= n {
        status := Fine;
      } else if status == AtEof && |bs| > 0 {
        status := UnexpectedEof;
      }
    }

    /** ReadOnceExpectFull: succeeds exactly if a single Read call brings all `n` bytes,
        and tells the end of the stream only if that call brings it. */
    method ReadOnceExpectFull(n: nat) returns (bs: seq<byte>, status: ReadStatus)
      requires Valid()
      modifies this
      ensures Valid() && bs + data == old(data)
      ensures status == if old(BringsAtOnce(n)) then Fine else if old(BringsEnd(n)) then End() else UnexpectedEof
      ensures status == Fine ==> bs == old(data)[..n] && data == old(data)[n..]
    {
      bs, status := Read(n);
      if status == Fine && |bs| < n {
        status := UnexpectedEof;
      }
    }

    /** bufio.Reader.Peek: makes the first `n` bytes available without consuming
        them; fails when the stream ends first. May read ahead. */
    method Peek(n: nat) returns (bs: seq<byte>, status: ReadStatus)
      requires Valid()
      modifies this`buffered, this`peeked
      ensures Valid() && old(buffered) <= buffered
      ensures peeked == if n > old(peeked) then n else old(peeked)
      ensures status == Fine <==> n <= |data|
      ensures status == Fine ==> bs == data[..n] && n <= buffered
      ensures status != Fine ==> status == End() && bs == data && buffered == |data|
    {
      peeked := if n > peeked then n else peeked;
      if n <= |data| {
        var ahead :| n <= ahead <= |data| && buffered <= ahead;
        buffered := ahead;
        bs, status := data[..n], Fine;
      } else {
        buffered := |data|;
        bs, status := data, End();
      }
    }
  }

  /** A byte stream being written. A Write that accepts fewer bytes than it was
      given reports an error. */
  class Writer {
    var got: seq<byte>
    /** Whether some write has failed. */
    var failed: bool

    constructor ()
      ensures got == [] && !failed
    {
      got, failed := [], false;
    }

    method Write(bs: seq<byte>) returns (n: nat, ok: bool)
      modifies this
      ensures n <= |bs| && got == old(got) + bs[..n]
      ensures ok ==> n == |bs|
      ensures failed == (old(failed) || !ok)
    {
      n :| 0 <= n <= |bs|;
      var reset: bool := *;
      ok := n == |bs| && !reset;
      got, failed := got + bs[..n], failed || !ok;
    }
  }

  /** The random number generators: a tape of bytes and one of numbers, of which
      everything drawn is the next piece. */
  class Entropy {
    const tape: nat -> byte
    const numbers: nat -> nat
    /** How many bytes and how many numbers have been drawn. */
    var at: nat
    var drawn: nat

    constructor (tape: nat -> byte, numbers: nat -> nat)
      ensures at == 0 && drawn == 0 && this.tape == tape && this.numbers == numbers
    {
      this.tape, this.numbers, at, drawn := tape, numbers, 0, 0;
    }

    /** The `n` bytes of the tape from position `from` on. */
    function Piece(from: nat, n: nat): (bs: seq<byte>)
      ensures |bs| == n && forall i :: 0 <= i < n ==> bs[i] == tape(from + i)
    {
      seq(n, i requires 0 <= i => tape(from + i))
    }

    /** The next `n` bytes. */
    function Next(n: nat): (bs: seq<byte>)
      reads this`at
      ensures |bs| == n
    {
      Piece(at, n)
    }

    /** The next number, brought below `n`. */
    function NextBelow(n: nat): (r: nat)
      requires n > 0
      reads this`drawn
      ensures r < n
    {
      numbers(drawn) % n
    }

    method Bytes(n: nat) returns (bs: seq<byte>)
      modifies this`at
      ensures bs == old(Next(n)) && at == old(at) + n
    {
      bs := Next(n);
      at := at + n;
    }

    method Below(n: nat) returns (r: nat)
      requires n > 0
      modifies this`drawn
      ensures r == old(NextBelow(n)) && drawn == old(drawn) + 1
    {
      r := NextBelow(n);
      drawn := drawn + 1;
    }
  }
}
