/**
 The TAI64N timestamps of wireguard_tai64n_now (wireguard-platform.c) and their
 comparison by memcmp.
 */
module Tai64n {
  import opened Words

  // ---------- big-endian strings and their order ----------

  /* The number a byte string denotes, most significant byte first. */
  function BE(s: seq<byte>): nat
  {
    if s == [] then 0 else BE(s[..|s| - 1]) * 0x100 + s[|s| - 1]
  }

  function BEBytes(v: nat, n: nat): (s: seq<byte>)
    ensures |s| == n
    decreases n
  {
    if n == 0 then [] else BEBytes(v / 0x100, n - 1) + [v % 0x100]
  }

  lemma {:induction false} BEofBEBytes(v: nat, n: nat)
    requires v < Pow2(8 * n)
    ensures BE(BEBytes(v, n)) == v
    decreases n
  {
    if n > 0 {
      Pow2Values();
      Pow2Add(8, 8 * n - 8);
      BEofBEBytes(v / 0x100, n - 1);
      assert BEBytes(v, n)[..n - 1] == BEBytes(v / 0x100, n - 1);
    }
  }

  /* The sign of memcmp: the first differing byte decides. */
  function Memcmp(a: seq<byte>, b: seq<byte>): int
    requires |a| == |b|
  {
    if a == [] then 0
    else if a[0] != b[0] then a[0] as int - b[0] as int
    else Memcmp(a[1..], b[1..])
  }

  lemma {:induction false} BEConcat(a: seq<byte>, b: seq<byte>)
    ensures BE(a + b) == BE(a) * Pow2(8 * |b|) + BE(b)
  {
    if b == [] {
      assert a + b == a;
    } else {
      var n := |b| - 1;
      BEConcat(a, b[..n]);
      assert (a + b)[..|a + b| - 1] == a + b[..n];
      BytePow2(n);
      ConcatAlgebra(BE(a), Pow2(8 * n), BE(b[..n]));
    }
  }

  lemma BytePow2(n: nat)
    ensures Pow2(8 * (n + 1)) == 0x100 * Pow2(8 * n)
  {
    hide Pow2;
    Pow2Values();
    Pow2Add(8, 8 * n);
  }

  lemma ConcatAlgebra(x: int, p: int, y: int)
    ensures (x * p + y) * 0x100 == x * (0x100 * p) + y * 0x100
  {
  }

  lemma {:induction false} BEBound(s: seq<byte>)
    ensures BE(s) < Pow2(8 * |s|)
  {
    if s != [] {
      BEBound(s[..|s| - 1]);
      BytePow2(|s| - 1);
    }
  }

  lemma BEHead(s: seq<byte>)
    requires s != []
    ensures BE(s) == s[0] * Pow2(8 * (|s| - 1)) + BE(s[1..])
    ensures BE(s[1..]) < Pow2(8 * (|s| - 1))
  {
    hide BE, Pow2;
    assert s == [s[0]] + s[1..];
    BEConcat([s[0]], s[1..]);
    BEOne(s[0]);
    BEBound(s[1..]);
  }

  lemma BEOne(x: byte)
    ensures BE([x]) == x
  {
    assert [x][..0] == [];
  }

  /* memcmp orders equally long strings as big-endian numbers. */
  lemma {:induction false} MemcmpIsOrder(a: seq<byte>, b: seq<byte>)
    requires |a| == |b|
    ensures Memcmp(a, b) < 0 <==> BE(a) < BE(b)
    ensures Memcmp(a, b) == 0 <==> a == b
    ensures Memcmp(a, b) > 0 <==> BE(a) > BE(b)
  {
    hide BE, Pow2;
    if a != [] {
      BEHead(a);
      BEHead(b);
      MemcmpIsOrder(a[1..], b[1..]);
      assert a == [a[0]] + a[1..] && b == [b[0]] + b[1..];
      HeadDecides(a[0], b[0], Pow2(8 * (|a| - 1)), BE(a[1..]), BE(b[1..]));
    }
  }

  lemma HeadDecides(x: int, y: int, p: nat, u: nat, v: nat)
    requires u < p && v < p
    ensures x < y ==> x * p + u < y * p + v
    ensures x > y ==> x * p + u > y * p + v
  {
    MulGap(x - y, p);
    assert (x - y) * p == x * p - y * p;
  }

  // ---------- the timestamp ----------

  type stamp = s: seq<byte> | |s| == 12 witness [0, 0, 0, 0, 0, 0, 0, 0, 0, 0, 0, 0]

  const EPOCH: nat := 0x4000_0000_0000_000a

  /* Seconds from 2^62 + 10 and a sub-second part of a thousand per millisecond. */
  function Stamp(millis: dword): (s: stamp)
  {
    BEBytes(EPOCH + millis / 1000, 8) + BEBytes(millis % 1000 * 1000, 4)
  }

  lemma StampNumber(millis: dword)
    ensures BE(Stamp(millis)) == (EPOCH + millis / 1000) * B + millis % 1000 * 1000
  {
    Pow2Values();
    Pow2Add(32, 32);
    BEofBEBytes(EPOCH + millis / 1000, 8);
    BEofBEBytes(millis % 1000 * 1000, 4);
    BEConcat(BEBytes(EPOCH + millis / 1000, 8), BEBytes(millis % 1000 * 1000, 4));
  }

  /* The TAI64 label of the seconds, which begins at 2^62 and ten seconds, and the part below a second. */
  lemma StampFields(millis: dword)
    ensures BE(Stamp(millis)[..8]) == 0x4000_0000_0000_0000 + 10 + millis / 1000
    ensures BE(Stamp(millis)[8..]) == millis % 1000 * 1000
  {
    hide BE, BEBytes, Pow2;
    Pow2Values();
    Pow2Add(32, 32);
    var s, n := EPOCH + millis / 1000, millis % 1000 * 1000;
    assert Stamp(millis)[..8] == BEBytes(s, 8) && Stamp(millis)[8..] == BEBytes(n, 4);
    BEofBEBytes(s, 8);
    BEofBEBytes(n, 4);
  }

  /* Comparing stamps is comparing clocks, for every 64-bit millisecond count. */
  lemma StampsOrderLikeClocks(m: dword, n: dword)
    ensures Memcmp(Stamp(m), Stamp(n)) < 0 <==> m < n
    ensures Memcmp(Stamp(m), Stamp(n)) == 0 <==> m == n
    ensures Memcmp(Stamp(m), Stamp(n)) > 0 <==> m > n
  {
    hide Stamp, Memcmp, BE;
    MemcmpIsOrder(Stamp(m), Stamp(n));
    StampNumber(m);
    StampNumber(n);
    ClockNumbers(m, n);
    ClockNumbers(n, m);
  }

  lemma ClockNumbers(m: dword, n: dword)
    ensures m < n ==> (EPOCH + m / 1000) * B + m % 1000 * 1000 < (EPOCH + n / 1000) * B + n % 1000 * 1000
  {
    var i, j := m as int / 1000, n as int / 1000;
    assert m == 1000 * i + m % 1000 && n == 1000 * j + n % 1000;
    assert m < n ==> i <= j;
  }

  /* U64TO8_BIG(output, seconds); U32TO8_BIG(output + 8, nanos). */
  method Now(output: array<byte>, millis: dword)
    requires output.Length == 12
    modifies output
    ensures output[..] == Stamp(millis)
  {
    hide BEBytes;
    var seconds: dword := EPOCH + millis / 1000;
    var nanos: word := millis % 1000 * 1000;
    StoreBig(output, 0, 8, seconds);
    StoreBig(output, 8, 4, nanos);
    assert output[..] == output[0..8] + output[8..12];
  }

  method StoreBig(output: array<byte>, p: nat, n: nat, v: nat)
    requires p + n <= output.Length
    modifies output
    ensures output[p..p + n] == BEBytes(v, n)
    ensures forall k :: 0 <= k < output.Length && !(p <= k < p + n) ==> output[k] == old(output[k])
  {
    ghost var w := BEBytes(v, n);
    var x, i := v, n;
    while i > 0
      invariant 0 <= i <= n
      invariant BEBytes(x, i) + output[p + i..p + n] == w
      invariant forall k :: 0 <= k < output.Length && !(p <= k < p + n) ==> output[k] == old(output[k])
    {
      i := i - 1;
      output[p + i] := x % 0x100;
      assert output[p + i..p + n] == [x % 0x100] + output[p + i + 1..p + n];
      x := x / 0x100;
    }
    assert output[p..p + n] == [] + output[p + 0..p + n];
  }
}
