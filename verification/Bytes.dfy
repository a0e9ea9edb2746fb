/** Bytes, fixed-width integers and the byte-string helpers shared by every codec. */
module Bytes {

  import opened Arith

  type byte = b: int | 0 <= b < 256
  type uint16 = n: int | 0 <= n < 0x1_0000

  datatype Option<+T> = None | Some(value: T)

  /** encoding/binary's big-endian 16-bit field. */
  function PutU16(n: uint16): (bs: seq<byte>)
    ensures |bs| == 2
  {
    [n / 256, n % 256]
  }

  /** Go's conversion uint16(n). */
  function ToU16(n: nat): (r: uint16)
  {
    if n < 0x1_0000 then n else n % 0x1_0000
  }

  lemma {:induction false} ToU16Wraps(n: nat)
    ensures n < 65536 ==> ToU16(n) == n
    ensures ToU16(n + 65536) == ToU16(n)
  {
  }

  function U16(bs: seq<byte>): (n: uint16)
    requires |bs| >= 2
  {
    var hi: int := bs[0];
    hi * 256 + bs[1]
  }

  lemma U16RoundTrip(n: uint16, rest: seq<byte>)
    ensures U16(PutU16(n) + rest) == n
    ensures forall bs: seq<byte> | |bs| == 2 :: PutU16(U16(bs)) == bs
  {
  }

  /** The high byte comes first. */
  lemma BigEndianPair(high: byte, low: byte, rest: seq<byte>)
    ensures U16([high, low] + rest) == 256 * high + low
    ensures PutU16(256 * high + low) == [high, low]
  {
  }

  function Pow256(n: nat): (p: nat)
    ensures p >= 1
  {
    if n == 0 then 1 else 256 * Pow256(n - 1)
  }

  /** The `width` low-order bytes of `n`, most significant first. */
  function PutBE(n: nat, width: nat): (bs: seq<byte>)
    ensures |bs| == width
  {
    if width == 0 then [] else PutBE(n / 256, width - 1) + [n % 256]
  }

  function FromBE(bs: seq<byte>): (n: nat)
    ensures n < Pow256(|bs|)
  {
    if |bs| == 0 then 0 else FromBE(bs[..|bs| - 1]) * 256 + bs[|bs| - 1]
  }

  lemma {:induction false} BigEndianRoundTrip(n: nat, width: nat)
    requires n < Pow256(width)
    ensures FromBE(PutBE(n, width)) == n
  {
    if width > 0 {
      BigEndianRoundTrip(n / 256, width - 1);
      var bs := PutBE(n, width);
      assert bs[..|bs| - 1] == PutBE(n / 256, width - 1);
    }
  }

  /** The byte at `i` is the digit of its place, counted from the other end. */
  lemma {:induction false} BigEndianDigit(n: nat, width: nat, i: nat)
    requires i < width
    ensures PutBE(n, width)[i] == n / Pow256(width - 1 - i) % 256
  {
    if i < width - 1 {
      BigEndianDigit(n / 256, width - 1, i);
      DivTwice(n, 256, Pow256(width - 2 - i));
    } else {
      assert n / Pow256(0) == n;
    }
  }

  /** All pieces joined in order. */
  function Flatten(pieces: seq<seq<byte>>): (bs: seq<byte>)
  {
    if |pieces| == 0 then [] else pieces[0] + Flatten(pieces[1..])
  }

  lemma {:induction false} FlattenAppend(a: seq<seq<byte>>, b: seq<seq<byte>>)
    ensures Flatten(a + b) == Flatten(a) + Flatten(b)
  {
    if |a| == 0 {
      assert a + b == b;
    } else {
      FlattenAppend(a[1..], b);
      assert (a + b)[1..] == a[1..] + b;
      Assoc(a[0], Flatten(a[1..]), Flatten(b));
    }
  }

  lemma {:induction false} FlattenSnoc(a: seq<seq<byte>>, x: seq<byte>)
    ensures Flatten(a + [x]) == Flatten(a) + x
  {
    FlattenAppend(a, [x]);
    assert [x][1..] == [];
    assert Flatten([x]) == x + [];
  }

  function Min(a: int, b: int): (m: int)
  {
    if a < b then a else b
  }

  lemma Assoc(a: seq<byte>, b: seq<byte>, c: seq<byte>)
    ensures a + b + c == a + (b + c)
  {
  }

  lemma TakeBehind(a: seq<byte>, b: seq<byte>, n: nat)
    requires |a| <= n <= |a + b|
    ensures (a + b)[..n] == a + b[..n - |a|]
  {
  }

  lemma TakeInside(a: seq<byte>, b: seq<byte>, n: nat)
    requires n <= |a|
    ensures (a + b)[..n] == a[..n]
  {
  }

  /** Taking and dropping at or past the seam of a concatenation. */
  lemma SplitAt(a: seq<byte>, b: seq<byte>)
    ensures (a + b)[..|a|] == a
    ensures (a + b)[|a|..] == b
  {
  }
}
