/** The salt of a Shadowsocks client: random bytes whose first few are overwritten so
    that the stream starts like printable text or like a known protocol. */
module ShadowsocksClient {
  import opened Bytes
  import opened Buffers
  import opened Streams
  import opened WeightedPicker

  /** "GET ", "HEAD ", "POST ", "PUT " and the starts of two TLS records. */
  const PATTERNS: seq<seq<byte>> := [
    [71, 69, 84, 32], [72, 69, 65, 68, 32], [80, 79, 83, 84, 32], [80, 85, 84, 32], [22, 3, 2], [22, 3, 3]
  ]

  /** How many bytes of a salt are overwritten, by the form the picker chose and the
      numbers drawn from `drawn` on. */
  function PrefixSize(random: Entropy, form: Prefix, drawn: nat): (n: nat)
    ensures 3 <= n <= 6
  {
    if form.Printable? then 6 else |PATTERNS[random.numbers(drawn) % 6]|
  }

  /** generateSalt and customFirstReqPrefixes: apart from six printable bytes, or one of
      the patterns, at its front, the salt is exactly the next bytes drawn. */
  method NewSalt(random: Entropy, form: Prefix) returns (salt: seq<byte>)
    modifies random
    ensures var n := PrefixSize(random, form, old(random.drawn));
            && |salt| == 16 && salt[n..] == old(random.Next(16))[n..] && random.at == old(random.at) + 16
            && (form.Printable? ==> forall i :: 0 <= i < 6 ==>
                  0x20 <= salt[i] <= 0x7E && salt[i] == 0x20 + random.numbers(old(random.drawn) + i) % 95)
            && (form.Protocol? ==> salt[..n] == PATTERNS[random.numbers(old(random.drawn)) % 6])
  {
    ghost var drawn := random.drawn;
    var bytes := random.Bytes(16);
    var bs := new byte[16];
    Put(bs, 0, bytes);
    assert bs[..] == bytes;
    if form.Printable? {
      var i := 0;
      while i < 6
        invariant 0 <= i <= 6 && random.drawn == drawn + i && random.at == old(random.at) + 16
        invariant bs[i..] == bytes[i..]
        invariant forall k :: 0 <= k < i ==> bs[k] == 0x20 + random.numbers(drawn + k) % 95
      {
        var n := random.Below(0x7E - 0x20 + 1);
        bs[i] := n + 0x20;
        assert bs[i + 1..] == bytes[i..][1..];
        i := i + 1;
      }
    } else {
      var n := random.Below(6);
      Put(bs, 0, PATTERNS[n]);
    }
    salt := bs[..];
  }

  /** Two salts whose drawn bytes differ behind the sixth differ, whatever their prefixes. */
  lemma SaltsDiffer(a: seq<byte>, b: seq<byte>, m: nat, n: nat, drawn: seq<byte>, drawn': seq<byte>)
    requires |a| == |b| == |drawn| == |drawn'| == 16 && m <= 6 && n <= 6
    requires a[m..] == drawn[m..] && b[n..] == drawn'[n..]
    requires drawn[6..] != drawn'[6..]
    ensures a != b
  {
    assert a[6..] == a[m..][6 - m..] && b[6..] == b[n..][6 - n..];
    assert drawn[6..] == drawn[m..][6 - m..] && drawn'[6..] == drawn'[n..][6 - n..];
  }
}
