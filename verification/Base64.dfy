/**
 The base64 decoder and encoder of wireguard.c on C buffers.
 */
module Base64 {
  import opened Words

  // ---------- the alphabet ----------

  const UPPER_A: string := "ABCDEFGHIJKLM"
  const UPPER_N: string := "NOPQRSTUVWXYZ"
  const LOWER_A: string := "abcdefghijklm"
  const LOWER_N: string := "nopqrstuvwxyz"
  const DIGITS: string := "0123456789+/"

  /* base64_lookup */
  const LOOKUP: string := UPPER_A + UPPER_N + LOWER_A + LOWER_N + DIGITS

  /* The sextet a character stands for, or 64. */
  function Sextet(c: char): (i: nat)
    ensures i <= 64
  {
    if 'A' <= c <= 'Z' then (c - 'A') as int
    else if 'a' <= c <= 'z' then 26 + (c - 'a') as int
    else if '0' <= c <= '9' then 52 + (c - '0') as int
    else if c == '+' then 62
    else if c == '/' then 63
    else 64
  }

  lemma Rows(i: nat)
    requires i < 13
    ensures UPPER_A[i] == 'A' + i as char && UPPER_N[i] == 'N' + i as char
    ensures LOWER_A[i] == 'a' + i as char && LOWER_N[i] == 'n' + i as char
    ensures i < 12 ==> DIGITS[i] == if i < 10 then '0' + i as char else if i == 10 then '+' else '/'
  {
  }

  lemma RowLengths()
    ensures |UPPER_A| == |UPPER_N| == |LOWER_A| == |LOWER_N| == 13 && |DIGITS| == 12
  {
  }

  lemma InFive<T>(a: seq<T>, b: seq<T>, c: seq<T>, d: seq<T>, e: seq<T>, i: nat)
    requires |a| == |b| == |c| == |d| == 13 && |e| == 12 && i < 64
    ensures
      (a + b + c + d + e)[i] ==
      if i < 13 then a[i % 13] else if i < 26 then b[i % 13] else if i < 39 then c[i % 13]
      else if i < 52 then d[i % 13] else e[i % 13]
  {
  }

  /* The table and the sextets are inverse to each other. */
  lemma LookupSextet(i: nat)
    requires i < 64
    ensures |LOOKUP| == 64 && Sextet(LOOKUP[i]) == i && LOOKUP[i] != '='
  {
    hide UPPER_A, UPPER_N, LOWER_A, LOWER_N, DIGITS;
    RowLengths();
    InFive(UPPER_A, UPPER_N, LOWER_A, LOWER_N, DIGITS, i);
    Rows(i % 13);
  }

  lemma SextetLookup(c: char)
    requires Sextet(c) < 64
    ensures |LOOKUP| == 64 && LOOKUP[Sextet(c)] == c
  {
    hide LOOKUP;
    LookupSextet(Sextet(c));
    hide Sextet;
    SameSextet(c, LOOKUP[Sextet(c)]);
  }

  lemma SameSextet(c: char, d: char)
    requires Sextet(c) == Sextet(d) < 64
    ensures c == d
  {
  }

  /* strchr in the table */
  method Find(c: char) returns (i: nat)
    ensures i == Sextet(c)
  {
    hide LOOKUP;
    LookupSextet(0);
    i := 0;
    while i < 64 && LOOKUP[i] != c
      invariant i <= 64
      invariant forall k :: 0 <= k < i ==> LOOKUP[k] != c
    {
      i := i + 1;
    }
    if i < 64 {
      LookupSextet(i);
    }
    if Sextet(c) < 64 {
      SextetLookup(c);
    }
  }

  // ---------- encoding ----------

  function Char(v: nat, shift: nat): char
    requires shift == 1 || shift == 0x40 || shift == 0x1000 || shift == 0x4_0000
  {
    LookupSextet(v / shift % 64);
    LOOKUP[v / shift % 64]
  }

  /* The first bytes of a group as one number, missing ones read as zero. */
  function Value(b: seq<byte>): (v: nat)
    requires 1 <= |b|
    ensures v < 0x100_0000
  {
    b[0] as int * 0x1_0000 + (if |b| > 1 then b[1] as int * 0x100 else 0) + (if |b| > 2 then b[2] else 0)
  }

  /* Four characters for a number of 24 bits, the last two possibly padding. */
  function Four(v: nat, third: bool, fourth: bool): (s: string)
    ensures |s| == 4
  {
    [Char(v, 0x4_0000), Char(v, 0x1000), if third then Char(v, 0x40) else '=', if fourth then Char(v, 1) else '=']
  }

  function Group(b: seq<byte>): (s: string)
    requires 1 <= |b|
    ensures |s| == 4
  {
    Four(Value(b), |b| > 1, |b| > 2)
  }

  function Encode(b: seq<byte>): (s: string)
    ensures |s| == EncodedLength(|b|)
  {
    hide *;
    EncodedStep(|b|);
    if b == [] then ""
    else if |b| <= 3 then Group(b)
    else Group(b[..3]) + Encode(b[3..])
  }

  /* 4 ceil(n / 3) */
  function EncodedLength(n: nat): nat
  {
    4 * ((n + 2) / 3)
  }

  lemma EncodedStep(n: nat)
    ensures n == 0 ==> EncodedLength(n) == 0
    ensures 1 <= n <= 3 ==> EncodedLength(n) == 4
    ensures n > 3 ==> EncodedLength(n) == 4 + EncodedLength(n - 3)
  {
  }

  /* The 3 - n % 3 of the program, with 3 taken for 0. */
  function PaddingOf(n: nat): nat
  {
    (3 - n % 3) % 3
  }

  /* How much output is left, and which of the next four characters are padding. */
  lemma LengthStep(n: nat, r: nat, w: nat)
    requires r < n && r % 3 == 0 && w + EncodedLength(n - r) == EncodedLength(n)
    ensures
      var r', len := if r + 3 <= n then r + 3 else n, EncodedLength(n);
      && w + 4 + EncodedLength(n - r') == len && w + 4 <= len && (r' < n ==> r' % 3 == 0)
      && (w + 2 < len - PaddingOf(n) <==> r' - r > 1) && (w + 3 < len - PaddingOf(n) <==> r' - r > 2)
  {
  }

  lemma LengthAndPadding(n: nat)
    ensures 4 * ((n + 2) / 3) == EncodedLength(n)
    ensures PaddingOf(n) == if 3 - n % 3 > 2 then 0 else 3 - n % 3
  {
  }

  /* wireguard_base64_encode; outLen is the size of the buffer, the new one the length written. */
  method Base64Encode(inp: array<byte>, inLen: nat, out: array<char>, outLen: nat) returns (result: bool, outLen': nat)
    requires inLen <= inp.Length && outLen <= out.Length && EncodedLength(inLen) < 0x8000_0000
    modifies out
    ensures result <==> outLen > EncodedLength(inLen)
    ensures result ==> outLen' == EncodedLength(inLen) && out[..outLen'] == Encode(inp[..inLen]) && out[outLen'] == '\0'
    ensures !result ==> outLen' == outLen && out[..] == old(out[..])
    ensures forall k :: EncodedLength(inLen) < k < out.Length ==> out[k] == old(out[k])
  {
    hide Encode, EncodedLength, PaddingOf;
    result, outLen' := false, outLen;
    var readOffset, writeOffset := 0, 0;
    var len := 4 * ((inLen + 2) / 3);
    var padding := 3 - inLen % 3;
    if padding > 2 {
      padding := 0;
    }
    LengthAndPadding(inLen);
    ghost var all := inp[..inLen];
    if outLen > len {
      assert inp[0..inLen] == all && out[..0] == [];
      while readOffset < inLen
        invariant 0 <= readOffset <= inLen && 0 <= writeOffset && writeOffset + EncodedLength(inLen - readOffset) == len
        invariant readOffset < inLen ==> readOffset % 3 == 0
        invariant out[..writeOffset] + Encode(inp[readOffset..inLen]) == Encode(all)
        invariant forall k :: len < k < out.Length ==> out[k] == old(out[k])
      {
        readOffset, writeOffset := EncodeGroup(inp, readOffset, inLen, out, writeOffset, len, padding);
      }
      EncodedStep(0);
      assert |Encode(inp[inLen..inLen])| == 0;
      out[len] := '\0';
      outLen' := len;
      result := true;
    }
  }

  /* One pass of the loop: what is written plus what is left stays the whole encoding. */
  method EncodeGroup(inp: array<byte>, r: nat, inLen: nat, out: array<char>, w: nat, len: nat, padding: nat)
    returns (readOffset: nat, writeOffset: nat)
    requires r < inLen <= inp.Length && r % 3 == 0 && w + EncodedLength(inLen - r) == EncodedLength(inLen)
    requires len == EncodedLength(inLen) < out.Length && padding == PaddingOf(inLen)
    modifies out
    ensures r < readOffset <= inLen && (readOffset < inLen ==> readOffset % 3 == 0)
    ensures writeOffset + EncodedLength(inLen - readOffset) == len
    ensures out[..writeOffset] + Encode(inp[readOffset..inLen]) == old(out[..w]) + Encode(inp[r..inLen])
    ensures forall k :: len <= k < out.Length ==> out[k] == old(out[k])
  {
    hide Four, Value, Encode;
    LengthStep(inLen, r, w);
    hide EncodedLength, PaddingOf;
    ghost var before, bytes := out[..w], inp[..];
    var tmp;
    tmp, readOffset := ReadThree(inp, r, inLen);
    Pieces(bytes, r, readOffset, inLen);
    writeOffset := WriteFour(out, w, tmp, len - padding);
    assert inp[..] == bytes;
    NextGroup(bytes[r..inLen], readOffset - r);
    assert out[..writeOffset] == before + out[w..writeOffset];
  }

  lemma Pieces<T>(m: seq<T>, a: nat, b: nat, c: nat)
    requires a <= b <= c <= |m|
    ensures m[a..c][..b - a] == m[a..b] && m[a..c][b - a..] == m[b..c]
  {
    SliceSlice(m, a, c, 0, b - a);
    SliceSlice(m, a, c, b - a, c - a);
  }

  /* Up to three bytes as one number of 24 bits. */
  method ReadThree(inp: array<byte>, start: nat, inLen: nat) returns (tmp: word, readOffset: nat)
    requires start < inLen <= inp.Length
    ensures readOffset == (if start + 3 <= inLen then start + 3 else inLen) && tmp == Value(inp[start..readOffset])
  {
    readOffset := start;
    var byte1: byte, byte2: byte, byte3: byte := 0, 0, 0;
    if readOffset < inLen {
      byte1 := inp[readOffset];
      readOffset := readOffset + 1;
    }
    if readOffset < inLen {
      byte2 := inp[readOffset];
      readOffset := readOffset + 1;
    }
    if readOffset < inLen {
      byte3 := inp[readOffset];
      readOffset := readOffset + 1;
    }
    tmp := Join(byte1, byte2, byte3);
  }

  /* Four characters, of which those from position full on are padding. */
  method WriteFour(out: array<char>, start: nat, tmp: nat, full: int) returns (writeOffset: nat)
    requires start + 4 <= out.Length
    modifies out
    ensures writeOffset == start + 4 && out[start..writeOffset] == Four(tmp, start + 2 < full, start + 3 < full)
    ensures forall k :: 0 <= k < out.Length && !(start <= k < start + 4) ==> out[k] == old(out[k])
  {
    hide Char;
    writeOffset := start;
    out[writeOffset] := Char(tmp, 0x4_0000);
    writeOffset := writeOffset + 1;
    out[writeOffset] := Char(tmp, 0x1000);
    writeOffset := writeOffset + 1;
    out[writeOffset] := if writeOffset < full then Char(tmp, 0x40) else '=';
    writeOffset := writeOffset + 1;
    out[writeOffset] := if writeOffset < full then Char(tmp, 1) else '=';
    writeOffset := writeOffset + 1;
  }

  /* (byte1 << 16) | (byte2 << 8) | byte3 */
  method Join(byte1: byte, byte2: byte, byte3: byte) returns (tmp: word)
    ensures tmp == byte1 as int * 0x1_0000 + byte2 as int * 0x100 + byte3
  {
    hide Or, Pow2;
    Pow2Values();
    OrDisjoint(byte1 as int * 0x100, byte2 as int * 0x100 / 0x100 * 0x100, 16);
    OrDisjoint(byte1, byte2 as int * 0x100, 16);
    OrDisjoint(byte1 as int * 0x100 + byte2, byte3, 8);
    tmp := Or(Or(byte1 as int * 0x1_0000, byte2 as int * 0x100), byte3);
  }

  /* The next group of what is left to encode. */
  lemma NextGroup(rest: seq<byte>, n: nat)
    requires rest != [] && n == if |rest| < 3 then |rest| else 3
    ensures Encode(rest) == Group(rest[..n]) + Encode(rest[n..])
  {
    hide Group;
    if |rest| <= 3 {
      assert rest[..n] == rest && Encode(rest[n..]) == "";
    }
  }

  /* Group i of the text stands for the bytes from 3 i on. */
  lemma {:induction false} EncodeAt(b: seq<byte>, i: nat)
    requires 3 * i < |b|
    ensures 4 * i + 4 <= EncodedLength(|b|)
    ensures Encode(b)[4 * i..4 * i + 4] == Group(if 3 * i + 3 <= |b| then b[3 * i..3 * i + 3] else b[3 * i..])
  {
    hide Group, EncodedLength;
    EncodedStep(|b|);
    if i > 0 {
      EncodeAt(b[3..], i - 1);
      assert Encode(b) == Group(b[..3]) + Encode(b[3..]);
      var t := Encode(b[3..]);
      assert Encode(b)[4 * i..4 * i + 4] == t[4 * (i - 1)..4 * (i - 1) + 4];
      SameRest(b, i);
    } else if |b| <= 3 {
      assert Encode(b) == Group(b) && Encode(b)[0..4] == Encode(b);
      assert b[0..] == b && (|b| == 3 ==> b[0..3] == b);
    } else {
      assert Encode(b) == Group(b[..3]) + Encode(b[3..]);
      assert Encode(b)[0..4] == Group(b[..3]) && b[0..3] == b[..3];
    }
  }

  lemma SameRest(b: seq<byte>, i: nat)
    requires 0 < i && 3 * i < |b|
    ensures b[3..][3 * (i - 1)..] == b[3 * i..]
    ensures 3 * i + 3 <= |b| ==> b[3..][3 * (i - 1)..3 * (i - 1) + 3] == b[3 * i..3 * i + 3]
  {
  }

  /* Section 4 of RFC 4648: the bits of three bytes, six by six from the top, with padding for missing bytes. */
  lemma EncodeBits(b: seq<byte>, i: nat)
    requires 3 * i < |b|
    ensures 4 * i + 4 <= |Encode(b)|
    ensures
      var c := Encode(b)[4 * i..4 * i + 4];
      var n, x := |b| - 3 * i, b[3 * i] as int;
      var y, z := if n > 1 then b[3 * i + 1] as int else 0, if n > 2 then b[3 * i + 2] as int else 0;
      && Sextet(c[0]) == x / 4 && Sextet(c[1]) == x % 4 * 16 + y / 16
      && (if n > 1 then Sextet(c[2]) == y % 16 * 4 + z / 64 else c[2] == '=')
      && (if n > 2 then Sextet(c[3]) == z % 64 else c[3] == '=')
  {
    hide Encode, Group, Sextet;
    EncodeAt(b, i);
    GroupBits(if 3 * i + 3 <= |b| then b[3 * i..3 * i + 3] else b[3 * i..]);
  }

  lemma GroupBits(g: seq<byte>)
    requires 1 <= |g| <= 3
    ensures
      var c, x := Group(g), g[0] as int;
      var y, z := if |g| > 1 then g[1] as int else 0, if |g| > 2 then g[2] as int else 0;
      && Sextet(c[0]) == x / 4 && Sextet(c[1]) == x % 4 * 16 + y / 16
      && (if |g| > 1 then Sextet(c[2]) == y % 16 * 4 + z / 64 else c[2] == '=')
      && (if |g| > 2 then Sextet(c[3]) == z % 64 else c[3] == '=')
  {
    hide LOOKUP, Sextet;
    var x, y, z := g[0] as int, if |g| > 1 then g[1] as int else 0, if |g| > 2 then g[2] as int else 0;
    SixBits(x, y, z);
    LookupSextet(x / 4);
    LookupSextet(x % 4 * 16 + y / 16);
    LookupSextet(y % 16 * 4 + z / 64);
    LookupSextet(z % 64);
  }

  lemma SixBits(x: int, y: int, z: int)
    requires 0 <= x < 256 && 0 <= y < 256 && 0 <= z < 256
    ensures
      var v := x * 0x1_0000 + y * 0x100 + z;
      && v / 0x4_0000 % 64 == x / 4 && v / 0x1000 % 64 == x % 4 * 16 + y / 16
      && v / 0x40 % 64 == y % 16 * 4 + z / 64 && v / 1 % 64 == z % 64
  {
    var a, b, c, d, e, f := x / 4, x % 4, y / 16, y % 16, z / 64, z % 64;
    FourDigits(a, b * 16 + c, d * 4 + e, f);
  }

  lemma FourDigits(a: int, b: int, c: int, d: int)
    requires 0 <= a < 64 && 0 <= b < 64 && 0 <= c < 64 && 0 <= d < 64
    ensures
      var v := a * 0x4_0000 + b * 0x1000 + c * 0x40 + d;
      v / 0x4_0000 % 64 == a && v / 0x1000 % 64 == b && v / 0x40 % 64 == c && v / 1 % 64 == d
  {
    var v := a * 0x4_0000 + b * 0x1000 + c * 0x40 + d;
    DivModUnique(v, 0x4_0000, a, b * 0x1000 + c * 0x40 + d);
    DivModUnique(v, 0x1000, a * 64 + b, c * 0x40 + d);
    DivModUnique(v, 0x40, a * 0x1000 + b * 64 + c, d);
    DivModUnique(a * 64 + b, 64, a, b);
    DivModUnique(a * 0x1000 + b * 64 + c, 64, a * 64 + b, c);
    DivModUnique(v, 64, a * 0x1000 + b * 64 + c, d);
  }

  // ---------- decoding ----------

  /* The variables of the decoder's loop; stopped says that it has broken off. */
  datatype Decoder = Decoder(accum: word, chars: nat, bytes: int, out: seq<byte>, stopped: bool)

  const FIRST: Decoder := Decoder(0, 0, 3, [], false)

  /* The one to three bytes of a finished group; a count below one still gives one. */
  function Finished(accum: word, bytes: int): (s: seq<byte>)
    ensures |s| == if bytes > 2 then 3 else if bytes > 1 then 2 else 1
  {
    [accum / 0x1_0000 % 0x100] + (if bytes > 1 then [accum / 0x100 % 0x100] else [])
        + (if bytes > 2 then [accum % 0x100] else [])
  }

  /* accum = (accum << 6) | bits, and the end of a group. */
  function Shift(s: Decoder, bits: nat, cap: nat): Decoder
    requires bits < 64
  {
    var accum := (s.accum as int * 64 + bits) % B;
    if s.chars + 1 != 4 then s.(accum := accum, chars := s.chars + 1)
    else if |s.out| + s.bytes > cap then s.(stopped := true)
    else s.(accum := 0, chars := 0, out := s.out + Finished(accum, s.bytes))
  }

  /* Whether a character may come now, its six bits, and the byte count after it. */
  function Read(c: char, bytes: int): (r: (bool, nat, int))
    ensures r.1 < 64
  {
    if c == '=' then (bytes >= 1, 0, bytes - 1)
    else if bytes != 3 || Sextet(c) == 64 then (false, 0, bytes)
    else (true, Sextet(c), bytes)
  }

  /* One character. */
  function Feed(s: Decoder, c: char, cap: nat): Decoder
  {
    var (ok, bits, bytes) := Read(c, s.bytes);
    if s.stopped then s else if !ok then s.(stopped := true) else Shift(s.(bytes := bytes), bits, cap)
  }

  function FeedAll(s: Decoder, text: string, cap: nat): Decoder
    decreases |text|
  {
    if text == "" then s else FeedAll(Feed(s, text[0], cap), text[1..], cap)
  }

  /* The verdict on a whole string and the bytes written, for a buffer of cap bytes. */
  function Decode(text: string, cap: nat): (bool, seq<byte>)
  {
    var s := FeedAll(FIRST, text, cap);
    (!s.stopped && s.chars == 0, s.out)
  }

  lemma {:induction false} FeedConcat(s: Decoder, a: string, b: string, cap: nat)
    ensures FeedAll(s, a + b, cap) == FeedAll(FeedAll(s, a, cap), b, cap)
    decreases |a|
  {
    if a == "" {
      assert a + b == b;
    } else {
      assert (a + b)[1..] == a[1..] + b;
      FeedConcat(Feed(s, a[0], cap), a[1..], b, cap);
    }
  }

  lemma {:induction false} StoppedStays(s: Decoder, text: string, cap: nat)
    requires s.stopped
    ensures FeedAll(s, text, cap) == s
    decreases |text|
  {
    if text != "" {
      StoppedStays(s, text[1..], cap);
    }
  }

  // ---------- decoding undoes encoding ----------

  lemma FeedCons(s: Decoder, c: char, rest: string, cap: nat)
    ensures FeedAll(s, [c] + rest, cap) == FeedAll(Feed(s, c, cap), rest, cap)
  {
    hide Feed;
    assert ([c] + rest)[1..] == rest;
  }

  lemma FeedFour(s: Decoder, g: string, rest: string, cap: nat)
    requires |g| == 4
    ensures FeedAll(s, g + rest, cap) ==
      FeedAll(Feed(Feed(Feed(Feed(s, g[0], cap), g[1], cap), g[2], cap), g[3], cap), rest, cap)
  {
    hide Feed, FeedAll;
    assert g + rest == [g[0]] + ([g[1]] + ([g[2]] + ([g[3]] + rest)));
    FeedCons(s, g[0], [g[1]] + ([g[2]] + ([g[3]] + rest)), cap);
    FeedCons(Feed(s, g[0], cap), g[1], [g[2]] + ([g[3]] + rest), cap);
    FeedCons(Feed(Feed(s, g[0], cap), g[1], cap), g[2], [g[3]] + rest, cap);
    FeedCons(Feed(Feed(Feed(s, g[0], cap), g[1], cap), g[2], cap), g[3], rest, cap);
  }

  lemma CharSextet(v: nat, shift: nat)
    requires shift == 1 || shift == 0x40 || shift == 0x1000 || shift == 0x4_0000
    ensures Sextet(Char(v, shift)) == v / shift % 64 && Char(v, shift) != '='
  {
    LookupSextet(v / shift % 64);
  }

  /* The group of one to three bytes makes a decoder at the start of a group append those bytes. */
  lemma GroupDecodes(b: seq<byte>, o: seq<byte>, cap: nat)
    requires 1 <= |b| <= 3 && |o| + |b| <= cap
    ensures
      var s, g := Decoder(0, 0, 3, o, false), Group(b);
      Feed(Feed(Feed(Feed(s, g[0], cap), g[1], cap), g[2], cap), g[3], cap) == Decoder(0, 0, |b|, o + b, false)
  {
    hide Char, Sextet, Value, Finished, Feed;
    var v, k, g := Value(b), |b|, Group(b);
    GroupSextets(v);
    ValueBytes(b);
    CharSextet(v, 0x4_0000);
    CharSextet(v, 0x1000);
    CharSextet(v, 0x40);
    CharSextet(v, 1);
    assert v / 1 == v;
    var n := if k > 1 then 3 else 2;
    var x1, x2, x3 := v / 0x4_0000, v / 0x1000, v / 0x40;
    FeedChar(Decoder(0, 0, 3, o, false), g[0], x1, cap);
    FeedChar(Decoder(x1, 1, 3, o, false), g[1], x2 % 64, cap);
    FeedChar(Decoder(x2, 2, 3, o, false), g[2], x3 % 64, cap);
    FeedChar(Decoder(x3, 3, n, o, false), g[3], v % 64, cap);
  }

  /* One character of a group: a sextet, or padding that stands for zero bits. */
  lemma FeedChar(s: Decoder, c: char, bits: nat, cap: nat)
    requires bits < 64 && !s.stopped && s.accum < 0x4_0000
    requires if c == '=' then s.bytes >= 1 && bits == 0 else s.bytes == 3 && Sextet(c) == bits
    ensures
      Feed(s, c, cap)
      == var accum := s.accum as int * 64 + bits;
         var bytes := if c == '=' then s.bytes - 1 else 3;
         if s.chars + 1 != 4 then s.(accum := accum, chars := s.chars + 1, bytes := bytes)
         else if |s.out| + bytes > cap then s.(bytes := bytes, stopped := true)
         else Decoder(0, 0, bytes, s.out + Finished(accum, bytes), false)
  {
    hide Sextet, Finished;
  }

  /* The sextets of a 24-bit number, put together again. */
  lemma GroupSextets(v: nat)
    requires v < 0x100_0000
    ensures v / 0x4_0000 == v / 0x4_0000 % 64
    ensures v / 0x1000 == v / 0x4_0000 * 64 + v / 0x1000 % 64
    ensures v / 0x40 == v / 0x1000 * 64 + v / 0x40 % 64
    ensures v == v / 0x40 * 64 + v % 64
  {
  }

  lemma ValueBytes(b: seq<byte>)
    requires 1 <= |b| <= 3
    ensures |b| < 3 ==> Value(b) % 64 == 0
    ensures |b| < 2 ==> Value(b) / 0x40 % 64 == 0
    ensures Finished(Value(b), |b|) == b
  {
    var x, y, z := b[0] as int, if |b| > 1 then b[1] as int else 0, if |b| > 2 then b[2] as int else 0;
    var v := Value(b);
    assert v == x * 0x1_0000 + y * 0x100 + z;
    DivModUnique(v, 0x100, x * 0x100 + y, z);
    DivModUnique(x * 0x100 + y, 0x100, x, y);
    DivModUnique(v, 0x1_0000, x, y * 0x100 + z);
    if |b| < 3 {
      DivModUnique(v, 0x40, x * 0x400 + y * 4, 0);
    }
    if |b| < 2 {
      DivModUnique(x * 0x400, 0x40, x * 0x10, 0);
    }
  }

  /* Decoding undoes encoding, for every byte sequence and every buffer that can hold it. */
  lemma {:induction false} RoundTrip(b: seq<byte>, cap: nat)
    requires |b| <= cap
    ensures Decode(Encode(b), cap) == (true, b)
  {
    hide Encode, FeedAll;
    RoundTripFrom(b, [], cap);
    assert [] + b == b;
  }

  lemma {:induction false} RoundTripFrom(b: seq<byte>, o: seq<byte>, cap: nat)
    requires |o| + |b| <= cap
    ensures
      var s := FeedAll(Decoder(0, 0, 3, o, false), Encode(b), cap);
      !s.stopped && s.chars == 0 && s.out == o + b
    decreases |b|
  {
    hide Group, Feed, LOOKUP;
    if b == [] {
      assert o + b == o;
    } else if |b| <= 3 {
      GroupDecodes(b, o, cap);
      FeedFour(Decoder(0, 0, 3, o, false), Group(b), "", cap);
      assert Group(b) + "" == Group(b);
    } else {
      GroupDecodes(b[..3], o, cap);
      FeedFour(Decoder(0, 0, 3, o, false), Group(b[..3]), Encode(b[3..]), cap);
      RoundTripFrom(b[3..], o + b[..3], cap);
      assert o + b[..3] + b[3..] == o + b;
    }
  }

  // ---------- the decoder on C buffers ----------

  /* What one character can do to the bytes written. */
  lemma FeedGrows(s: Decoder, c: char, cap: nat)
    ensures s.out <= Feed(s, c, cap).out && |Feed(s, c, cap).out| <= |s.out| + 3
    ensures !s.stopped && |s.out| <= |Feed(s, c, cap).out| && s.bytes >= 0 ==> Feed(s, c, cap).bytes >= 0
  {
    hide Sextet, Finished;
  }

  lemma {:induction false} FeedAllGrows(s: Decoder, text: string, cap: nat)
    ensures s.out <= FeedAll(s, text, cap).out
    decreases |text|
  {
    hide Feed;
    if text != "" {
      FeedGrows(s, text[0], cap);
      FeedAllGrows(Feed(s, text[0], cap), text[1..], cap);
    }
  }

  // ---------- how much the decoder writes ----------

  /* k groups of four characters of the alphabet, then a group with three padding characters. */
  predicate ThreePads(text: string, k: nat)
  {
    && 4 * k + 4 <= |text|
    && (forall i :: 0 <= i <= 4 * k ==> Sextet(text[i]) < 64)
    && text[4 * k + 1] == '=' && text[4 * k + 2] == '=' && text[4 * k + 3] == '='
  }

  /* Whole groups fill the buffer exactly and a group with three padding characters follows: that
     group is accounted for with no byte and still yields one. */
  predicate Overruns(text: string, cap: nat)
  {
    cap % 3 == 0 && ThreePads(text, cap / 3)
  }

  /* A decoder that has seen too much padding to complete its group writes nothing more. */
  lemma {:induction false} NeverFinishes(s: Decoder, text: string, cap: nat)
    requires s.chars < 4 && s.bytes < 3 && s.bytes < 4 - s.chars
    ensures FeedAll(s, text, cap).out == s.out
    ensures s.stopped ==> FeedAll(s, text, cap).stopped
    ensures FeedAll(s, text, cap).stopped || FeedAll(s, text, cap).chars == s.chars + |text|
    decreases |text|
  {
    hide Sextet, Finished;
    if s.stopped {
      StoppedStays(s, text, cap);
    } else if text != "" {
      NeverFinishes(Feed(s, text[0], cap), text[1..], cap);
    }
  }

  /* How many characters of the alphabet a group starts with, when only padding follows them. */
  function Shape(g: string): (n: int)
    requires |g| == 4
    ensures -1 <= n <= 4
  {
    if Sextet(g[0]) == 64 then -1
    else if Sextet(g[1]) == 64 then if g[1] == '=' && g[2] == '=' && g[3] == '=' then 1 else -1
    else if Sextet(g[2]) == 64 then if g[2] == '=' && g[3] == '=' then 2 else -1
    else if Sextet(g[3]) == 64 then if g[3] == '=' then 3 else -1
    else 4
  }

  /* What a group does to a decoder at the start of a group. */
  lemma GroupOutcome(o: seq<byte>, g: string, cap: nat)
    requires |g| == 4
    ensures
      var s := Decoder(0, 0, 3, o, false);
      var s4 := Feed(Feed(Feed(Feed(s, g[0], cap), g[1], cap), g[2], cap), g[3], cap);
      var n := Shape(g);
      if n < 0 || |o| + n - 1 > cap then s4.stopped && s4.out == o
      else !s4.stopped && s4.chars == 0 && s4.accum == 0 && s4.bytes == n - 1
           && |s4.out| == |o| + if n == 1 then 1 else n - 1
  {
    var s := Decoder(0, 0, 3, o, false);
    PadSextet();
    hide Sextet, Finished;
    var s1 := Feed(s, g[0], cap);
    var s2 := Feed(s1, g[1], cap);
    var s3 := Feed(s2, g[2], cap);
    assert s1.out == s2.out == s3.out == o;
    assert Sextet(g[0]) == 64 ==> Feed(s3, g[3], cap).stopped;
  }

  lemma PadSextet()
    ensures Sextet('=') == 64
  {
  }

  lemma {:induction false} WritesFrom(o: seq<byte>, text: string, cap: nat)
    requires |o| <= cap && |o| % 3 == 0
    ensures
      var out := FeedAll(Decoder(0, 0, 3, o, false), text, cap).out;
      && |out| <= cap + 1
      && (|out| > cap <==> cap % 3 == 0 && ThreePads(text, (cap - |o|) / 3))
    decreases |text|
  {
    hide Sextet, Feed, FeedAll;
    var s := Decoder(0, 0, 3, o, false);
    if |text| < 4 {
      TooShort(s, text, cap);
    } else {
      var g, rest, k := text[..4], text[4..], (cap - |o|) / 3;
      var s4 := Feed(Feed(Feed(Feed(s, g[0], cap), g[1], cap), g[2], cap), g[3], cap);
      FeedFour(s, g, rest, cap);
      assert g + rest == text;
      GroupOutcome(o, g, cap);
      PadSextet();
      GroupOfThreePads(text, k);
      if s4.stopped {
        StoppedStays(s4, rest, cap);
      } else if s4.bytes < 3 {
        NeverFinishes(s4, rest, cap);
      } else {
        WritesFrom(s4.out, rest, cap);
      }
    }
  }

  /* Where the first group of a text stands to its three padding characters. */
  lemma GroupOfThreePads(text: string, k: nat)
    requires |text| >= 4
    ensures k == 0 ==> (ThreePads(text, k) <==> Shape(text[..4]) == 1)
    ensures k > 0 ==> (ThreePads(text, k) <==> Shape(text[..4]) == 4 && ThreePads(text[4..], k - 1))
  {
    PadSextet();
    hide Sextet;
    if k > 0 && Shape(text[..4]) == 4 && ThreePads(text[4..], k - 1) {
      forall i | 0 <= i <= 4 * k
        ensures Sextet(text[i]) < 64
      {
        assert i >= 4 ==> text[i] == text[4..][i - 4];
      }
    }
    if k > 0 && ThreePads(text, k) {
      assert forall i :: 0 <= i <= 4 * k - 4 ==> text[4..][i] == text[i + 4];
    }
  }

  lemma {:induction false} TooShort(s: Decoder, text: string, cap: nat)
    requires !s.stopped && s.chars + |text| < 4
    ensures FeedAll(s, text, cap).out == s.out
    ensures FeedAll(s, text, cap).stopped || FeedAll(s, text, cap).chars == s.chars + |text|
    decreases |text|
  {
    hide Sextet, Finished;
    if text != "" {
      var s1 := Feed(s, text[0], cap);
      if s1.stopped {
        StoppedStays(s1, text[1..], cap);
      } else {
        TooShort(s1, text[1..], cap);
      }
    }
  }

  /* For every string: the bytes written exceed the size given, by one, exactly when groups of three
     bytes fill it and a group with three padding characters follows. */
  lemma WritesExactly(text: string, cap: nat)
    ensures |Decode(text, cap).1| <= cap + 1
    ensures |Decode(text, cap).1| > cap <==> Overruns(text, cap)
  {
    hide FeedAll, ThreePads;
    WritesFrom([], text, cap);
  }

  /* The smallest such string. */
  lemma ThreePadsYieldByte()
    ensures |Decode("A===", 0).1| == 1 && Overruns("A===", 0)
  {
    hide Decode;
    WritesExactly("A===", 0);
  }

  // ---------- which strings decode, and to what ----------

  function TrailingPads(text: string): (p: nat)
    ensures p <= |text|
    ensures forall i :: |text| - p <= i < |text| ==> text[i] == '='
    ensures p < |text| ==> text[|text| - p - 1] != '='
  {
    if text == "" || text[|text| - 1] != '=' then 0 else 1 + TrailingPads(text[..|text| - 1])
  }

  predicate OfAlphabet(text: string)
  {
    forall i :: 0 <= i < |text| ==> Sextet(text[i]) < 64
  }

  /* Whole groups of the alphabet, at most three paddings at the very end, and room for what the text is
     accounted for: three bytes for every group, one less for every padding. */
  predicate Acceptable(text: string, room: int)
  {
    var p := TrailingPads(text);
    && |text| % 4 == 0 && p <= 3 && OfAlphabet(text[..|text| - p])
    && (text != "" ==> |text| / 4 * 3 - p <= room)
  }

  /* The group by group form. */
  predicate Accepted(text: string, room: int)
    decreases |text|
  {
    text == "" || (|text| >= 4 && var n := Shape(text[..4]);
                   n > 0 && n - 1 <= room && if n == 4 then Accepted(text[4..], room - 3) else |text| == 4)
  }

  lemma ShapeIs(g: string)
    requires |g| == 4
    ensures Shape(g) > 0 <==> TrailingPads(g) <= 3 && OfAlphabet(g[..4 - TrailingPads(g)])
    ensures Shape(g) > 0 ==> Shape(g) == 4 - TrailingPads(g)
  {
    PadSextet();
    SextetNotPad(g[0]);
    SextetNotPad(g[1]);
    SextetNotPad(g[2]);
    SextetNotPad(g[3]);
    var p := TrailingPads(g);
    hide Sextet, TrailingPads;
  }

  lemma SextetNotPad(c: char)
    ensures Sextet(c) <= 64 && (Sextet(c) < 64 ==> c != '=')
  {
  }

  lemma PadsOfRest(text: string)
    requires |text| >= 8
    ensures TrailingPads(text[4..]) < |text| - 4 ==> TrailingPads(text) == TrailingPads(text[4..])
    ensures TrailingPads(text[4..]) == |text| - 4 ==> TrailingPads(text) >= |text| - 4
  {
    var p, q := TrailingPads(text), TrailingPads(text[4..]);
    hide TrailingPads;
    assert forall i :: |text| - q <= i < |text| ==> text[i] == text[4..][i - 4] == '=';
    assert q < |text| - 4 ==> text[|text| - q - 1] == text[4..][|text| - 4 - q - 1];
  }

  lemma {:induction false} AcceptedIs(text: string, room: int)
    ensures Accepted(text, room) <==> Acceptable(text, room)
    decreases |text|
  {
    if 4 <= |text| {
      var g, rest := text[..4], text[4..];
      ShapeIs(g);
      if |text| < 8 {
        AcceptedShort(text, room);
      } else {
        AcceptedIs(rest, room - 3);
        PadsOfRest(text);
        AcceptedLong(text, room);
      }
    }
  }

  lemma AcceptedShort(text: string, room: int)
    requires 4 <= |text| < 8
    ensures Accepted(text, room) <==> Acceptable(text, room)
  {
    hide Sextet, Shape, TrailingPads;
    var g := text[..4];
    ShapeIs(g);
    if |text| == 4 {
      assert g == text && text[4..] == "";
    } else if Shape(g) == 4 {
      assert 0 < |text[4..]| < 4;
    }
  }

  lemma AcceptedLong(text: string, room: int)
    requires |text| >= 8 && (Accepted(text[4..], room - 3) <==> Acceptable(text[4..], room - 3))
    ensures Accepted(text, room) <==> Acceptable(text, room)
  {
    hide Sextet, Shape, TrailingPads, OfAlphabet;
    var g, rest := text[..4], text[4..];
    PadsOfRest(text);
    AllSextets(g);
    LongLength(|text|);
    var p := TrailingPads(rest);
    if p <= 3 {
      var head := rest[..|rest| - p];
      assert text[..|text| - p] == g + head;
      AlphabetJoin(g, head);
    }
  }

  lemma LongLength(n: nat)
    requires n >= 8
    ensures n / 4 * 3 == (n - 4) / 4 * 3 + 3 && n % 4 == (n - 4) % 4
  {
  }

  lemma AlphabetJoin(a: string, b: string)
    ensures OfAlphabet(a + b) <==> OfAlphabet(a) && OfAlphabet(b)
  {
    hide Sextet;
    if OfAlphabet(a + b) {
      assert forall i :: 0 <= i < |a| ==> a[i] == (a + b)[i];
      assert forall i :: 0 <= i < |b| ==> b[i] == (a + b)[|a| + i];
    }
  }

  lemma AllSextets(g: string)
    requires |g| == 4
    ensures Shape(g) == 4 <==> OfAlphabet(g)
  {
    hide Sextet;
  }

  /* The six bits of a character, none for padding. */
  function Digit(c: char): (d: nat)
    ensures d < 64
  {
    Sextet(c) % 64
  }

  /* The 24 bits of a group. */
  function GroupNumber(g: string): (v: nat)
    requires |g| == 4
    ensures v < 0x100_0000
  {
    Digit(g[0]) * 0x4_0000 + Digit(g[1]) * 0x1000 + Digit(g[2]) * 0x40 + Digit(g[3])
  }

  /* The bytes of an accepted text: three for a full group, otherwise one less than the characters the last
     group has, but at least one. */
  function Bytes(text: string): (b: seq<byte>)
    decreases |text|
  {
    if |text| < 4 then [] else Finished(GroupNumber(text[..4]), Shape(text[..4]) - 1) + Bytes(text[4..])
  }

  /* The bytes of a group are its bits, eight by eight from the top. */
  lemma GroupBytes(g: string, k: int)
    requires |g| == 4
    ensures
      var f, a, b, c, d := Finished(GroupNumber(g), k), Digit(g[0]), Digit(g[1]), Digit(g[2]), Digit(g[3]);
      && |f| == (if k > 2 then 3 else if k > 1 then 2 else 1)
      && f[0] == a * 4 + b / 16 && (k > 1 ==> f[1] == b % 16 * 16 + c / 4) && (k > 2 ==> f[2] == c % 4 * 64 + d)
  {
    hide Digit;
    var a, b, c, d := Digit(g[0]), Digit(g[1]), Digit(g[2]), Digit(g[3]);
    ThreeBytes(a * 4 + b / 16, b % 16 * 16 + c / 4, c % 4 * 64 + d);
    Regrouped(a, b, c, d);
  }

  lemma ThreeBytes(x: int, y: int, z: int)
    requires 0 <= x < 256 && 0 <= y < 256 && 0 <= z < 256
    ensures
      var v := x * 0x1_0000 + y * 0x100 + z;
      v / 0x1_0000 % 0x100 == x && v / 0x100 % 0x100 == y && v % 0x100 == z
  {
    var v := x * 0x1_0000 + y * 0x100 + z;
    DivModUnique(v, 0x100, x * 0x100 + y, z);
    DivModUnique(x * 0x100 + y, 0x100, x, y);
    DivModUnique(v, 0x1_0000, x, y * 0x100 + z);
  }

  lemma Regrouped(a: nat, b: nat, c: nat, d: nat)
    requires a < 64 && b < 64 && c < 64 && d < 64
    ensures a * 0x4_0000 + b * 0x1000 + c * 0x40 + d
         == (a * 4 + b / 16) * 0x1_0000 + (b % 16 * 16 + c / 4) * 0x100 + (c % 4 * 64 + d)
    ensures a * 4 + b / 16 < 256 && b % 16 * 16 + c / 4 < 256 && c % 4 * 64 + d < 256
  {
    assert b == b / 16 * 16 + b % 16 && c == c / 4 * 4 + c % 4;
  }

  lemma GroupWrites(o: seq<byte>, g: string, cap: nat)
    requires |g| == 4 && Shape(g) > 0 && |o| + Shape(g) - 1 <= cap
    ensures
      var s := Decoder(0, 0, 3, o, false);
      Feed(Feed(Feed(Feed(s, g[0], cap), g[1], cap), g[2], cap), g[3], cap)
      == Decoder(0, 0, Shape(g) - 1, o + Finished(GroupNumber(g), Shape(g) - 1), false)
  {
    hide Sextet, Finished, Feed, Digit;
    PadSextet();
    DigitOf(g[0]);
    DigitOf(g[1]);
    DigitOf(g[2]);
    DigitOf(g[3]);
    var a, b, c, d, n := Digit(g[0]), Digit(g[1]), Digit(g[2]), Digit(g[3]), Shape(g);
    var b1, b2 := if n < 2 then 2 else 3, if n < 2 then 1 else if n < 3 then 2 else 3;
    FeedChar(Decoder(0, 0, 3, o, false), g[0], a, cap);
    FeedChar(Decoder(a, 1, 3, o, false), g[1], b, cap);
    FeedChar(Decoder(a * 64 + b, 2, b1, o, false), g[2], c, cap);
    FeedChar(Decoder(a * 0x1000 + b * 64 + c, 3, b2, o, false), g[3], d, cap);
  }

  lemma DigitOf(c: char)
    ensures Sextet(c) < 64 ==> Digit(c) == Sextet(c) && c != '='
    ensures Digit('=') == 0
  {
  }

  lemma ShapeOfSome(o: seq<byte>, g: string, cap: nat)
    requires |g| == 4
    requires
      var s := Decoder(0, 0, 3, o, false);
      !Feed(Feed(Feed(Feed(s, g[0], cap), g[1], cap), g[2], cap), g[3], cap).stopped
    ensures Shape(g) > 0 && |o| + Shape(g) - 1 <= cap
  {
    hide Sextet, Feed, Finished;
    GroupOutcome(o, g, cap);
    hide Shape;
    ShapeNotZero(g);
  }

  lemma ShapeNotZero(g: string)
    requires |g| == 4
    ensures Shape(g) != 0
  {
    hide Sextet;
  }

  lemma {:induction false} DecodesFrom(o: seq<byte>, text: string, cap: nat)
    ensures
      var s := FeedAll(Decoder(0, 0, 3, o, false), text, cap);
      && (!s.stopped && s.chars == 0 <==> Accepted(text, cap - |o|))
      && (Accepted(text, cap - |o|) ==> s.out == o + Bytes(text))
    decreases |text|
  {
    hide Sextet, Feed, FeedAll, Shape, GroupNumber, Finished;
    var s := Decoder(0, 0, 3, o, false);
    if |text| < 4 {
      TooShort(s, text, cap);
      if text == "" {
        FeedNone(s, cap);
        assert o + Bytes("") == o;
      }
    } else {
      var g, rest := text[..4], text[4..];
      var s4 := Feed(Feed(Feed(Feed(s, g[0], cap), g[1], cap), g[2], cap), g[3], cap);
      FeedFour(s, g, rest, cap);
      assert g + rest == text;
      GroupOutcome(o, g, cap);
      if s4.stopped {
        StoppedStays(s4, rest, cap);
      } else {
        var piece := Finished(GroupNumber(g), Shape(g) - 1);
        ShapeOfSome(o, g, cap);
        GroupWrites(o, g, cap);
        if Shape(g) < 4 {
          NeverFinishes(s4, rest, cap);
          if rest == "" {
            FeedNone(s4, cap);
            assert Bytes(text) == piece;
          }
        } else {
          DecodesFrom(s4.out, rest, cap);
          assert o + piece + Bytes(rest) == o + (piece + Bytes(rest));
        }
      }
    }
  }

  /* For every string and size: the verdict, and what an accepted string decodes to. */
  lemma DecodesExactly(text: string, cap: nat)
    ensures Decode(text, cap).0 <==> Acceptable(text, cap)
    ensures Acceptable(text, cap) ==> Decode(text, cap).1 == Bytes(text)
  {
    hide FeedAll, Acceptable, Accepted, Bytes;
    DecodesFrom([], text, cap);
    AcceptedIs(text, cap);
    assert [] + Bytes(text) == Bytes(text);
  }

  /* The characters before the terminator. */
  function Text(s: seq<char>): (t: string)
    ensures |t| <= |s| && t == s[..|t|] && '\0' !in t
    ensures |t| < |s| ==> s[|t|] == '\0'
  {
    if s == [] || s[0] == '\0' then "" else [s[0]] + Text(s[1..])
  }

  lemma {:induction false} TextOf(t: string, tail: seq<char>)
    requires '\0' !in t
    ensures Text(t + ['\0'] + tail) == t
  {
    if t != "" {
      assert (t + ['\0'] + tail)[1..] == t[1..] + ['\0'] + tail;
      TextOf(t[1..], tail);
    }
  }

  lemma GroupText(b: seq<byte>)
    requires 1 <= |b| <= 3
    ensures '\0' !in Group(b)
  {
    var g, v := Group(b), Value(b);
    CharSextet(v, 0x4_0000);
    CharSextet(v, 0x1000);
    CharSextet(v, 0x40);
    CharSextet(v, 1);
    assert Sextet('\0') == 64;
    hide Char, Sextet, Value;
  }

  lemma {:induction false} EncodeText(b: seq<byte>)
    ensures '\0' !in Encode(b)
  {
    hide Group;
    if b == [] {
    } else if |b| <= 3 {
      GroupText(b);
    } else {
      GroupText(b[..3]);
      EncodeText(b[3..]);
    }
  }

  /* What the encoder leaves in a buffer, read back by the decoder. */
  lemma EncodedReadsBack(b: seq<byte>, tail: seq<char>, cap: nat)
    requires |b| <= cap
    ensures
      var text := Text(Encode(b) + ['\0'] + tail);
      !Overruns(text, cap) && Decode(text, cap) == (true, b)
  {
    hide Encode, Decode, Overruns;
    EncodeText(b);
    TextOf(Encode(b), tail);
    RoundTrip(b, cap);
    WritesExactly(Encode(b), cap);
  }

  method StrLen(str: array<char>) returns (n: nat)
    requires '\0' in str[..]
    ensures n < str.Length && n == |Text(str[..])|
  {
    ghost var t := Text(str[..]);
    assert '\0' in str[..] && str[..][..|t|] == t;
    n := 0;
    while str[n] != '\0'
      invariant n <= |t| < str.Length
      decreases str.Length - n
    {
      assert n != |t|;
      n := n + 1;
    }
    assert forall k :: 0 <= k < |t| ==> t[k] == str[k] && t[k] != '\0';
  }

  method ReadBits(c: char, byteCount: int) returns (ok: bool, bits: nat, byteCount': int)
    ensures (ok, bits, byteCount') == Read(c, byteCount)
  {
    hide Sextet;
    byteCount' := byteCount;
    if c == '=' {
      bits := 0;
      byteCount' := byteCount - 1;
      ok := byteCount' >= 0;
    } else {
      ok, bits := false, 0;
      if byteCount == 3 {
        var ptr := Find(c);
        if ptr < 64 {
          ok, bits := true, ptr;
        }
      }
    }
  }

  /* accum = (accum << 6) | bits on 32 bits */
  lemma AccumStep(accum: word, bits: nat)
    requires bits < 64
    ensures Or(accum as int * 64 % B, bits) == (accum as int * 64 + bits) % B
  {
    hide Or, Pow2;
    Pow2Values();
    var q, r := accum as int / 0x400_0000, accum as int % 0x400_0000;
    OrDisjoint(r, bits, 6);
    DivModUnique(accum as int * 64, B, q, r * 64);
    DivModUnique(accum as int * 64 + bits, B, q, r * 64 + bits);
  }

  /* The one to three bytes of a group. */
  method WriteBytes(out: array<byte>, start: nat, accum: word, byteCount: int) returns (len: nat)
    requires start + |Finished(accum, byteCount)| <= out.Length
    modifies out
    ensures len == start + |Finished(accum, byteCount)| && out[..len] == old(out[..start]) + Finished(accum, byteCount)
    ensures forall k :: len <= k < out.Length ==> out[k] == old(out[k])
  {
    len := start;
    out[len] := accum / 0x1_0000 % 0x100;
    len := len + 1;
    if byteCount > 1 {
      out[len] := accum / 0x100 % 0x100;
      len := len + 1;
    }
    if byteCount > 2 {
      out[len] := accum % 0x100;
      len := len + 1;
    }
  }

  /* Six more bits, and the bytes of the group they complete unless these exceed the size given. */
  method TakeSextet(out: array<byte>, outLen: nat, ghost s: Decoder, accum: word, charCount: nat, byteCount: int,
                    len: nat, bits: nat)
    returns (ok: bool, accum': word, charCount': nat, len': nat)
    requires bits < 64 && charCount < 4 && len <= out.Length && |Shift(s, bits, outLen).out| <= out.Length
    requires s == Decoder(accum, charCount, byteCount, out[..len], false)
    modifies out
    ensures ok == !Shift(s, bits, outLen).stopped && len <= len' <= out.Length
    ensures ok ==> charCount' < 4
    ensures ok ==> Shift(s, bits, outLen) == Decoder(accum', charCount', byteCount, out[..len'], false)
    ensures !ok ==> len' == len && out[..] == old(out[..]) && Shift(s, bits, outLen).out == s.out
    ensures forall k :: len' <= k < out.Length ==> out[k] == old(out[k])
  {
    hide Finished, Or;
    AccumStep(accum, bits);
    accum', charCount', len' := Or(accum as int * 64 % B, bits), charCount + 1, len;
    if charCount' == 4 {
      if len + byteCount > outLen {
        return false, accum', charCount', len';
      }
      len' := WriteBytes(out, len, accum', byteCount);
      charCount', accum' := 0, 0;
    }
    ok := true;
  }

  /* The loop's next state, and that it is final once it has stopped. */
  lemma FeedNext(text: string, x: nat, cap: nat)
    requires x < |text|
    ensures
      var s := Feed(FeedAll(FIRST, text[..x], cap), text[x], cap);
      && FeedAll(FIRST, text[..x + 1], cap) == s && s.out <= FeedAll(FIRST, text, cap).out
      && (s.stopped ==> FeedAll(FIRST, text, cap) == s)
  {
    var s := FeedAll(FIRST, text[..x], cap);
    hide FeedAll, Feed;
    FeedConcat(FIRST, text[..x], [text[x]], cap);
    FeedCons(s, text[x], "", cap);
    FeedNone(Feed(s, text[x], cap), cap);
    assert text[..x] + [text[x]] == text[..x + 1] && [text[x]] + "" == [text[x]];
    FeedConcat(FIRST, text[..x + 1], text[x + 1..], cap);
    assert text[..x + 1] + text[x + 1..] == text;
    FeedAllGrows(Feed(s, text[x], cap), text[x + 1..], cap);
    if Feed(s, text[x], cap).stopped {
      StoppedStays(Feed(s, text[x], cap), text[x + 1..], cap);
    }
  }

  lemma FeedNone(s: Decoder, cap: nat)
    ensures FeedAll(s, "", cap) == s
  {
  }

  /* wireguard_base64_decode */
  method Base64Decode(str: array?<char>, out: array<byte>, outLen: nat) returns (result: bool, outLen': nat)
    requires outLen <= out.Length
    requires str != null ==>
      && '\0' in str[..] && |Text(str[..])| < 0x8000_0000
      && (Overruns(Text(str[..]), outLen) ==> outLen < out.Length)
    modifies out
    ensures str == null ==> !result && outLen' == outLen && out[..] == old(out[..])
    ensures str != null ==> outLen' <= out.Length && (result, out[..outLen']) == Decode(Text(str[..]), outLen)
    ensures str != null ==> forall k :: outLen' <= k < out.Length ==> out[k] == old(out[k])
  {
    hide FeedAll, Finished, Overruns, Read, Shift, Text;
    if str == null {
      return false, outLen;
    }
    result := true;
    var accum: word, charCount: nat, byteCount, len: nat := 0, 0, 3, 0;
    ghost var text := Text(str[..]);
    WritesExactly(text, outLen);
    FeedNone(FIRST, outLen);
    var inlen := StrLen(str);
    var x := 0;
    while x < inlen
      invariant 0 <= x <= inlen == |text| && text == str[..inlen] && result && len <= out.Length
      invariant FeedAll(FIRST, text[..x], outLen) == Decoder(accum, charCount, byteCount, out[..len], false)
      invariant charCount < 4
      invariant forall k :: len <= k < out.Length ==> out[k] == old(out[k])
    {
      var c := str[x];
      FeedNext(text, x, outLen);
      var ok, bits;
      ok, bits, byteCount := ReadBits(c, byteCount);
      ghost var s := FeedAll(FIRST, text[..x], outLen).(bytes := byteCount);
      if !ok {
        result := false;
        break;
      }
      ok, accum, charCount, len := TakeSextet(out, outLen, s, accum, charCount, byteCount, len, bits);
      if !ok {
        result := false;
        break;
      }
      x := x + 1;
    }
    assert text[..inlen] == text;
    if charCount != 0 {
      result := false;
    }
    outLen' := len;
  }
}
