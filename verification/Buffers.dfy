/** Filling recycled byte buffers in place. A buffer from the pool has arbitrary
    contents, which is what a Dafny array allocation promises too. */
module Buffers {
  import opened Bytes

  /** Copies `bs` into `buf` from offset `at` on. */
  method Put(buf: array<byte>, at: nat, bs: seq<byte>)
    requires at + |bs| <= buf.Length
    modifies buf
    ensures buf[at..at + |bs|] == bs
    ensures forall i :: 0 <= i < at || at + |bs| <= i < buf.Length ==> buf[i] == old(buf[i])
  {
    forall i | 0 <= i < |bs| {
      buf[at + i] := bs[i];
    }
  }

  /** Appends `bs` behind the bytes written from `lo` on, as a bytes.Buffer over
      the array does; returns the new end. */
  method Append(buf: array<byte>, lo: nat, at: nat, bs: seq<byte>) returns (end: nat)
    requires lo <= at && at + |bs| <= buf.Length
    modifies buf
    ensures end == at + |bs|
    ensures buf[lo..end] == old(buf[lo..at]) + bs
    ensures forall i :: 0 <= i < lo || end <= i < buf.Length ==> buf[i] == old(buf[i])
  {
    Put(buf, at, bs);
    end := at + |bs|;
  }

  function Zeros(n: nat): (z: seq<byte>)
    ensures |z| == n && forall i :: 0 <= i < n ==> z[i] == 0
  {
    seq(n, _ => 0)
  }
}
