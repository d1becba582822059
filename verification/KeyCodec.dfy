/** The 8-byte strings under which keys and log positions are stored: byte-swapped on the way
    into memory, so that byte order is numeric order. */
module KeyCodec {
  import opened Bytes

  const U64_LIMIT: nat := 0x1_0000_0000_0000_0000

  type Key = k: int | 0 <= k < U64_LIMIT

  /** The n low-order bytes of v as a little-endian machine keeps them in memory. */
  function Little(v: nat, n: nat): (r: seq<byte>)
    ensures |r| == n
  {
    if n == 0 then [] else [(v % 256) as byte] + Little(v / 256, n - 1)
  }

  function FromLittle(s: seq<byte>): (v: nat) {
    if s == [] then 0 else s[0] as int + 256 * FromLittle(s[1..])
  }

  /** The n low-order bytes of v, most significant first. */
  function Big(v: nat, n: nat): (r: seq<byte>)
    ensures |r| == n
  {
    if n == 0 then [] else Big(v / 256, n - 1) + [(v % 256) as byte]
  }

  /** htonl and ntohl on a little-endian machine. */
  function Swap32(w: nat): (r: nat)
    requires w < 0x1_0000_0000
    ensures r < 0x1_0000_0000
  {
    w % 256 * 0x100_0000 + w / 256 % 256 * 0x1_0000 + w / 0x1_0000 % 256 * 0x100 + w / 0x100_0000
  }

  /** htonll and ntohll: both halves swapped, and swapped with each other. */
  function Swap64(v: Key): (r: Key)
  {
    HalvesFit(v);
    var high := Swap32(v / 0x1_0000_0000);
    var low := Swap32(v % 0x1_0000_0000);
    low * 0x1_0000_0000 + high
  }

  lemma HalvesFit(v: Key)
    ensures 0 <= v / 0x1_0000_0000 < 0x1_0000_0000 && 0 <= v % 0x1_0000_0000 < 0x1_0000_0000
  {
  }

  function UllToString(v: Key): (s: seq<byte>)
    ensures |s| == 8
  {
    Little(Swap64(v), 8)
  }

  function StringToUll(s: seq<byte>): Key
    requires |s| >= 8
  {
    FromLittleBound(s[..8]);
    assert Pow256(4) * Pow256(4) == Pow256(8) by { assert Pow256(4) == 0x1_0000_0000; }
    Swap64(FromLittle(s[..8]))
  }

  function Pow256(n: nat): nat {
    if n == 0 then 1 else 256 * Pow256(n - 1)
  }

  lemma {:induction false} FromLittleBound(s: seq<byte>)
    ensures FromLittle(s) < Pow256(|s|)
  {
    if s != [] {
      FromLittleBound(s[1..]);
    }
  }

  lemma {:induction false} LittleRoundTrip(v: nat, n: nat)
    requires v < Pow256(n)
    ensures FromLittle(Little(v, n)) == v
  {
    if n > 0 {
      LittleRoundTrip(v / 256, n - 1);
      assert Little(v, n)[1..] == Little(v / 256, n - 1);
    }
  }

  function Quad(a: nat, b: nat, c: nat, d: nat): nat {
    a + 0x100 * b + 0x1_0000 * c + 0x100_0000 * d
  }

  lemma DivideTwice(q: nat)
    ensures q / 0x1_0000 == q / 256 / 256 && q / 0x100_0000 == q / 256 / 256 / 256
  {
  }

  lemma QuadDigits(a: nat, b: nat, c: nat, d: nat)
    requires a < 256 && b < 256 && c < 256 && d < 256
    ensures var q := Quad(a, b, c, d);
      && q < 0x1_0000_0000
      && q % 256 == a && q / 256 % 256 == b && q / 0x1_0000 % 256 == c && q / 0x100_0000 == d
  {
    hide Quad;
    QuadIs(a, b, c, d);
    LowByte(a, b + 256 * (c + 256 * d));
    LowByte(b, c + 256 * d);
    LowByte(c, d);
    DivideTwice(Quad(a, b, c, d));
  }

  lemma QuadIs(a: nat, b: nat, c: nat, d: nat)
    requires a < 256 && b < 256 && c < 256 && d < 256
    ensures Quad(a, b, c, d) == a + 256 * (b + 256 * (c + 256 * d)) < 0x1_0000_0000
  {
  }

  lemma LowByte(a: nat, x: nat)
    requires a < 256
    ensures (a + 256 * x) % 256 == a && (a + 256 * x) / 256 == x
  {
  }

  lemma WordDigits(w: nat)
    requires w < 0x1_0000_0000
    ensures w == Quad(w % 256, w / 256 % 256, w / 0x1_0000 % 256, w / 0x100_0000)
    ensures w / 0x100_0000 < 256
  {
    DivideTwice(w);
  }

  lemma SwapDigits(w: nat)
    requires w < 0x1_0000_0000
    ensures Swap32(w) == Quad(w / 0x100_0000, w / 0x1_0000 % 256, w / 256 % 256, w % 256)
  {
  }

  lemma SwapTwice32(w: nat)
    requires w < 0x1_0000_0000
    ensures Swap32(w) < 0x1_0000_0000 && Swap32(Swap32(w)) == w
  {
    WordDigits(w);
    SwapDigits(w);
    QuadDigits(w / 0x100_0000, w / 0x1_0000 % 256, w / 256 % 256, w % 256);
    SwapDigits(Swap32(w));
    hide Swap32, Quad;
  }

  lemma SwapTwice64(v: Key)
    ensures Swap64(Swap64(v)) == v
  {
    var high, low := v / 0x1_0000_0000, v % 0x1_0000_0000;
    SwapTwice32(high);
    SwapTwice32(low);
    var s := Swap64(v);
    assert s / 0x1_0000_0000 == Swap32(low) && s % 0x1_0000_0000 == Swap32(high);
  }

  /** Decoding undoes encoding. */
  lemma KeyRoundTrip(v: Key)
    ensures StringToUll(UllToString(v)) == v
  {
    var s := UllToString(v);
    assert s[..8] == s;
    assert Pow256(8) == U64_LIMIT by {
      assert Pow256(4) == 0x1_0000_0000;
      assert Pow256(8) == 256 * 256 * 256 * 256 * Pow256(4);
    }
    LittleRoundTrip(Swap64(v), 8);
    SwapTwice64(v);
  }

  lemma StringsDiffer(a: Key, b: Key)
    ensures UllToString(a) == UllToString(b) <==> a == b
  {
    KeyRoundTrip(a);
    KeyRoundTrip(b);
    hide UllToString, StringToUll;
  }

  // ------------------------------------------------------------------ byte order is numeric order

  lemma FourBytes(v: nat)
    requires v < 0x1_0000_0000
    ensures v / 0x100_0000 < 256
    ensures Little(v, 4) == [(v % 256) as byte, (v / 256 % 256) as byte, (v / 0x1_0000 % 256) as byte, (v / 0x100_0000) as byte]
    ensures Big(v, 4) == [(v / 0x100_0000) as byte, (v / 0x1_0000 % 256) as byte, (v / 256 % 256) as byte, (v % 256) as byte]
  {
    var v1, v2, v3 := v / 256, v / 256 / 256, v / 256 / 256 / 256;
    assert v2 == v / 0x1_0000 && v3 == v / 0x100_0000 && v3 % 256 == v3;
    assert Little(v3, 1) == [v3 as byte] && Little(v2, 2) == [(v2 % 256) as byte] + Little(v3, 1);
    assert Little(v1, 3) == [(v1 % 256) as byte] + Little(v2, 2);
    assert Big(v3, 1) == [v3 as byte] && Big(v2, 2) == Big(v3, 1) + [(v2 % 256) as byte];
    assert Big(v1, 3) == Big(v2, 2) + [(v1 % 256) as byte];
  }

  lemma LittleOfSwap32(w: nat)
    requires w < 0x1_0000_0000
    ensures Swap32(w) < 0x1_0000_0000
    ensures Little(Swap32(w), 4) == Big(w, 4)
  {
    SwapTwice32(w);
    SwapDigits(w);
    WordDigits(w);
    QuadDigits(w / 0x100_0000, w / 0x1_0000 % 256, w / 256 % 256, w % 256);
    FourBytes(w);
    FourBytes(Swap32(w));
    hide Swap32, Quad, Little, Big;
  }

  /** The lowest byte of a number that goes on above a. */
  lemma Carry(a: nat, b: nat, n: nat)
    requires n > 0 && a < Pow256(n)
    ensures var v := a + Pow256(n) * b;
      a / 256 < Pow256(n - 1) && v % 256 == a % 256 && v / 256 == a / 256 + Pow256(n - 1) * b
  {
    var p := Pow256(n - 1);
    var x := p * b;
    assert Pow256(n) == 256 * p;
    hide Pow256;
    assert 256 * p * b == 256 * x;
    CarryLinear(a, x);
  }

  lemma CarryLinear(a: nat, x: nat)
    ensures (a + 256 * x) % 256 == a % 256 && (a + 256 * x) / 256 == a / 256 + x
  {
  }

  lemma NoBytes(b: nat)
    ensures Pow256(0) * b == b && Pow256(0) == 1
  {
  }

  lemma {:induction false} LittleSplit(a: nat, b: nat, n: nat, m: nat)
    requires a < Pow256(n)
    ensures Little(a + Pow256(n) * b, n + m) == Little(a, n) + Little(b, m)
    decreases n
  {
    hide Pow256;
    if n == 0 {
      NoBytes(b);
      assert Little(a, 0) + Little(b, m) == Little(b, m);
    } else {
      Carry(a, b, n);
      LittleSplit(a / 256, b, n - 1, m);
    }
  }

  lemma {:induction false} BigSplit(a: nat, b: nat, n: nat, m: nat)
    requires a < Pow256(n)
    ensures Big(a + Pow256(n) * b, n + m) == Big(b, m) + Big(a, n)
    decreases n
  {
    hide Pow256;
    if n == 0 {
      NoBytes(b);
      assert Big(b, m) + Big(a, 0) == Big(b, m);
    } else {
      Carry(a, b, n);
      BigSplit(a / 256, b, n - 1, m);
    }
  }

  lemma Halves(v: Key)
    ensures var high, low := v / 0x1_0000_0000, v % 0x1_0000_0000;
      && high < 0x1_0000_0000 && low < Pow256(4) && Pow256(4) == 0x1_0000_0000
      && v == low + Pow256(4) * high
      && Swap32(high) < Pow256(4)
      && Swap64(v) == Swap32(high) + Pow256(4) * Swap32(low)
  {
    var p := Pow256(4);
    assert p == 0x1_0000_0000;
    SwapTwice32(v / 0x1_0000_0000);
    hide Pow256, Swap32;
  }

  /** The stored string is the key's big-endian representation. */
  lemma StringIsBigEndian(v: Key)
    ensures UllToString(v) == Big(v, 8)
  {
    hide Swap32, Swap64, Little, Big, Pow256;
    var high, low := v / 0x1_0000_0000, v % 0x1_0000_0000;
    Halves(v);
    LittleOfSwap32(high);
    LittleOfSwap32(low);
    LittleSplit(Swap32(high), Swap32(low), 4, 4);
    BigSplit(low, high, 4, 4);
  }

  /** Lexicographic order of equally long byte strings, the order the key-value store sorts by. */
  ghost predicate BytesLess(a: seq<byte>, b: seq<byte>)
    requires |a| == |b|
    decreases |a|
  {
    a != [] && (a[0] < b[0] || (a[0] == b[0] && BytesLess(a[1..], b[1..])))
  }

  lemma {:induction false} PrefixDecides(a: seq<byte>, b: seq<byte>, x: byte, y: byte)
    requires |a| == |b|
    ensures BytesLess(a + [x], b + [y]) <==> BytesLess(a, b) || (a == b && x < y)
    decreases |a|
  {
    if a == [] {
      assert a + [x] == [x] && b + [y] == [y];
    } else {
      assert (a + [x])[1..] == a[1..] + [x] && (b + [y])[1..] == b[1..] + [y];
      PrefixDecides(a[1..], b[1..], x, y);
      assert a == [a[0]] + a[1..] && b == [b[0]] + b[1..];
    }
  }

  lemma {:induction false} BigOrder(a: nat, b: nat, n: nat)
    requires a < Pow256(n) && b < Pow256(n)
    ensures BytesLess(Big(a, n), Big(b, n)) <==> a < b
    ensures Big(a, n) == Big(b, n) <==> a == b
  {
    if n > 0 {
      BigOrder(a / 256, b / 256, n - 1);
      PrefixDecides(Big(a / 256, n - 1), Big(b / 256, n - 1), (a % 256) as byte, (b % 256) as byte);
      var p, q := Big(a / 256, n - 1), Big(b / 256, n - 1);
      assert Big(a, n)[..n - 1] == p && Big(b, n)[..n - 1] == q;
      assert Big(a, n)[n - 1] == (a % 256) as byte && Big(b, n)[n - 1] == (b % 256) as byte;
      assert a == 256 * (a / 256) + a % 256 && b == 256 * (b / 256) + b % 256;
    }
  }

  /** Byte order of the stored strings is numeric order of the keys. */
  lemma StringOrder(a: Key, b: Key)
    ensures BytesLess(UllToString(a), UllToString(b)) <==> a < b
  {
    StringIsBigEndian(a);
    StringIsBigEndian(b);
    assert Pow256(8) == U64_LIMIT by {
      assert Pow256(4) == 0x1_0000_0000;
      assert Pow256(8) == 256 * 256 * 256 * 256 * Pow256(4);
    }
    BigOrder(a, b, 8);
  }
}
