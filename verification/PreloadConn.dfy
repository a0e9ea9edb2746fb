/** bytesReadPreloadConn: a connection with some of its bytes put back in front.
    Both read paths keep the byte stream as it was. */
module PreloadConn {
  import opened Bytes
  import opened Streams

  /** io.Copy from a reader to a writer: in order, and all of it unless one of them fails. */
  method Copy(r: Reader, w: Writer) returns (n: nat, ok: bool)
    requires r.Valid()
    modifies r, w
    ensures r.Valid()
    ensures exists bs :: Moved(bs, old(w.got), w.got, old(r.data), r.data, ok) && n == |bs|
    ensures ok ==> r.data == [] && !r.breaks && w.got == old(w.got) + old(r.data)
    ensures ok || r.breaks || w.failed
  {
    n, ok := 0, true;
    var status := Fine;
    ghost var given: seq<byte> := [];
    while status == Fine && ok
      invariant r.Valid() && n == |given|
      invariant Moved(given, old(w.got), w.got, old(r.data), r.data, ok)
      invariant status == Fine || (status == r.End() && r.data == [])
      invariant ok || w.failed
      decreases |r.data|, r.idle, status == Fine, ok
    {
      var bs, m;
      bs, status := r.Read(32 * 1024);
      ghost var before := w.got;
      m, ok := w.Write(bs);
      n := n + m;
      Assoc(old(w.got), given, bs[..m]);
      Assoc(given, bs, r.data);
      TakePrefix(given, bs, m, r.data, old(r.data));
      given := given + bs[..m];
    }
    ok := ok && status == AtEof;
    if ok {
      assert given + [] == given;
    }
  }

  /** `bs` went from the source to the sink; nothing was lost if all went well. */
  ghost predicate Moved(bs: seq<byte>, got: seq<byte>, got': seq<byte>, data: seq<byte>, data': seq<byte>, ok: bool)
  {
    got' == got + bs && bs <= data && (ok ==> bs + data' == data)
  }

  lemma TakePrefix(given: seq<byte>, bs: seq<byte>, m: nat, rest: seq<byte>, data: seq<byte>)
    requires m <= |bs|
    ensures given + (bs + rest) == data ==> given + bs[..m] <= data
    ensures m == |bs| ==> bs[..m] == bs
  {
  }

  class Conn {
    var preload: seq<byte>
    const conn: Reader

    constructor (preload: seq<byte>, conn: Reader)
      requires conn.Valid()
      ensures Valid() && Stream() == preload + conn.data && this.conn == conn
    {
      this.preload, this.conn := preload, conn;
    }

    ghost predicate Valid()
      reads this, conn
    {
      conn.Valid()
    }

    function Stream(): (bs: seq<byte>)
      reads this, conn
    {
      preload + conn.data
    }

    /** Takes from the front of the stream, as the plain connection would. */
    method Read(cap: nat) returns (bs: seq<byte>, status: ReadStatus)
      requires Valid()
      modifies this, conn
      ensures Valid() && |preload| <= |old(preload)| && |bs| <= cap && bs + Stream() == old(Stream())
      ensures status == Fine || (status == conn.End() && Stream() == [])
      ensures conn.idle <= old(conn.idle) && (cap > 0 && bs == [] && status == Fine ==> conn.idle < old(conn.idle))
    {
      if |preload| > 0 {
        var n := Min(cap, |preload|);
        bs, preload, status := preload[..n], preload[n..], Fine;
        Assoc(bs, preload, conn.data);
      } else {
        bs, status := conn.Read(cap);
        assert bs + ([] + conn.data) == [] + old(conn.data);
      }
    }

    /** io.ReadFull over this connection: like over a plain one. */
    method ReadFull(n: nat) returns (bs: seq<byte>, status: ReadStatus)
      requires Valid()
      modifies this, conn
      ensures Valid() && |preload| <= |old(preload)|
      ensures status == Fine <==> n <= |old(Stream())|
      ensures status == Fine ==> bs == old(Stream())[..n] && Stream() == old(Stream())[n..]
      ensures status != Fine ==> bs == old(Stream()) && Stream() == []
      ensures status != Fine ==> status == if conn.breaks then Broken else if bs == [] then AtEof else UnexpectedEof
    {
      bs, status := [], Fine;
      assert bs + Stream() == Stream();
      while |bs| < n && status == Fine
        invariant Valid() && |preload| <= |old(preload)| && bs + Stream() == old(Stream()) && |bs| <= n
        invariant status == Fine || (status == conn.End() && Stream() == [])
        decreases n - |bs|, conn.idle, status == Fine
      {
        var more;
        ghost var rest := Stream();
        more, status := Read(n - |bs|);
        Assoc(bs, more, Stream());
        bs := bs + more;
      }
      SplitAt(bs, Stream());
      if |bs| >= n {
        status := Fine;
      } else if status == AtEof && |bs| > 0 {
        status := UnexpectedEof;
      }
    }

    /** WriteTo: the put-back bytes first, then the rest of the connection. */
    method WriteTo(w: Writer) returns (n: nat, ok: bool)
      requires Valid()
      modifies this, conn, w
      ensures Valid()
      ensures old(w.got) <= w.got && n == |w.got| - |old(w.got)|
      ensures w.got[|old(w.got)|..] <= old(Stream())
      ensures ok ==> Stream() == [] && w.got == old(w.got) + old(Stream())
      ensures ok || conn.breaks || w.failed
    {
      n, ok := 0, true;
      ghost var front := preload;
      if |preload| > 0 {
        n, ok := w.Write(preload);
        preload := preload[n..];
        if !ok {
          assert w.got[|old(w.got)|..] == front[..n];
          return;
        }
      }
      assert preload == [] && w.got == old(w.got) + front;
      ghost var got1 := w.got;
      var count;
      count, ok := Copy(conn, w);
      ghost var bs :| Moved(bs, got1, w.got, old(conn.data), conn.data, ok) && count == |bs|;
      Assoc(old(w.got), front, bs);
      assert w.got[|old(w.got)|..] == front + bs;
      n := n + count;
      if ok {
        Assoc(old(w.got), front, old(conn.data));
        assert [] + conn.data == [];
      }
    }
  }
}
