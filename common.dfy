/** Shared vocabulary of the model: bytes, 32-byte digests, powers of two,
    the 4-byte big-endian integer codec used by the address buffer, and the
    two Python string/bytes conversions the drafts rely on (`str.encode()` and
    `bytes.hex()`). */
module Common {

  type byte = x: int | 0 <= x < 256

  /** Output of the hash primitive: always 32 bytes. */
  type Digest = s: seq<byte> | |s| == 32 witness Zeros(32)

  datatype Option<T> = None | Some(value: T)

  /** 2^32: the first value `int.to_bytes(4, 'big')` refuses. */
  const TwoTo32: int := 0x1_0000_0000

  function Zeros(n: nat): seq<byte> {
    seq(n, _ => 0)
  }

  function Pow2(n: nat): (r: nat)
    ensures r >= 1
  {
    if n == 0 then 1 else 2 * Pow2(n - 1)
  }

  lemma {:induction false} Pow2Add(m: nat, n: nat)
    ensures Pow2(m + n) == Pow2(m) * Pow2(n)
  {
    if n > 0 {
      Pow2Add(m, n - 1);
      assert Pow2(m + n) == 2 * Pow2(m + n - 1);
    }
  }

  lemma {:induction false} Pow2Strict(m: nat, n: nat)
    requires m < n
    ensures Pow2(m) < Pow2(n)
  {
    if m + 1 < n {
      Pow2Strict(m, n - 1);
    }
  }

  /** Four more doublings: one more hexadecimal digit. */
  lemma Pow2Plus4(n: nat)
    ensures Pow2(n + 4) == 16 * Pow2(n)
  {
    assert Pow2(n + 4) == 2 * Pow2(n + 3);
    assert Pow2(n + 3) == 2 * Pow2(n + 2);
    assert Pow2(n + 2) == 2 * Pow2(n + 1);
  }

  lemma Pow2Of32()
    ensures Pow2(32) == TwoTo32
  {
    assert Pow2(2) == 4;
    Pow2Add(2, 2);
    Pow2Add(4, 4);
    Pow2Add(8, 8);
    Pow2Add(16, 16);
  }

  /** `int.from_bytes(bs, byteorder='big')`: the unsigned big-endian value. */
  function BeValue(bs: seq<byte>): nat {
    if bs == [] then 0 else 256 * BeValue(bs[..|bs| - 1]) + bs[|bs| - 1]
  }

  /** n bytes hold a value below 2^(8n). */
  lemma {:induction false} BeValueBound(bs: seq<byte>)
    ensures BeValue(bs) < Pow2(8 * |bs|)
  {
    if bs != [] {
      var p := bs[..|bs| - 1];
      BeValueBound(p);
      Pow2Add(8 * |p|, 8);
      assert Pow2(8) == 256 by { Pow2Add(4, 4); assert Pow2(4) == 16; }
      assert 8 * |p| + 8 == 8 * |bs|;
      assert BeValue(bs) <= 256 * (Pow2(8 * |p|) - 1) + 255;
    }
  }

  /** The value of four bytes, written out. */
  lemma BeValueOfFour(s: seq<byte>)
    requires |s| == 4
    ensures BeValue(s) == ((s[0] as int * 256 + s[1] as int) * 256 + s[2] as int) * 256 + s[3] as int
  {
    var p1, p2, p3 := s[..1], s[..2], s[..3];
    assert p1[..0] == [];
    assert BeValue(p1) == s[0];
    assert p2[..1] == p1;
    assert BeValue(p2) == s[0] as int * 256 + s[1] as int;
    assert p3[..2] == p2;
    assert BeValue(p3) == BeValue(p2) * 256 + s[2] as int;
    assert s[..3] == p3;
  }

  /** `x.to_bytes(4, byteorder='big')` for the values it accepts. */
  function Be32(x: int): (r: seq<byte>)
    requires 0 <= x < TwoTo32
    ensures |r| == 4
  {
    [x / 0x100_0000, (x / 0x1_0000) % 256, (x / 256) % 256, x % 256]
  }

  /** Reading back what `to_bytes` wrote gives the value written. */
  lemma Be32RoundTrip(x: int)
    requires 0 <= x < TwoTo32
    ensures BeValue(Be32(x)) == x
  {
    var q, p := x / 0x1_0000, x / 256;
    DivMod(x, 0x100_0000, q / 256, (q % 256) * 0x1_0000 + x % 0x1_0000);
    DivMod(x, 0x1_0000, p / 256, (p % 256) * 256 + x % 256);
    BeValueOfFour(Be32(x));
  }

  /** The other direction of the codec: four bytes read and written back are the same bytes. */
  lemma Be32OfBeValue(s: seq<byte>)
    requires |s| == 4
    ensures BeValue(s) < TwoTo32 && Be32(BeValue(s)) == s
  {
    BeValueOfFour(s);
    var a, b, c, d := s[0] as int, s[1] as int, s[2] as int, s[3] as int;
    var v := BeValue(s);
    assert v == a * 0x100_0000 + (b * 0x1_0000 + c * 256 + d);
    DivMod(v, 0x100_0000, a, b * 0x1_0000 + c * 256 + d);
    DivMod(v, 0x1_0000, a * 256 + b, c * 256 + d);
    DivMod(a * 256 + b, 256, a, b);
    DivMod(v, 256, (a * 256 + b) * 256 + c, d);
    DivMod((a * 256 + b) * 256 + c, 256, a * 256 + b, c);
  }

  /** Euclidean division recovers the quotient and remainder it was built from. */
  lemma DivMod(v: int, k: int, q: int, r: int)
    requires 0 < k && 0 <= r < k && v == q * k + r
    ensures v / k == q && v % k == r
  {
    var q', r' := v / k, v % k;
    assert (q - q') * k == r' - r;
    if q > q' {
      MulAtLeast(q - q', k);
    } else if q < q' {
      MulAtLeast(q' - q, k);
    }
  }

  /** A solver aid: the nonlinear step x * k >= k, which Dafny does not find
      on its own inside larger proofs. */
  lemma MulAtLeast(x: int, k: int)
    requires 1 <= x && 0 < k
    ensures x * k >= k
  {
  }

  /** UTF-8 encoding of one Unicode scalar value (Python's `str.encode()`). */
  function Utf8Char(c: char): (r: seq<byte>)
    ensures 1 <= |r| <= 4
    ensures (c as int < 0x80) <==> r == [c as int]
  {
    var v := c as int;
    if v < 0x80 then [v]
    else if v < 0x800 then [0xC0 + v / 0x40, 0x80 + v % 0x40]
    else if v < 0x1_0000 then [0xE0 + v / 0x1000, 0x80 + (v / 0x40) % 0x40, 0x80 + v % 0x40]
    else [0xF0 + v / 0x4_0000, 0x80 + (v / 0x1000) % 0x40, 0x80 + (v / 0x40) % 0x40, 0x80 + v % 0x40]
  }

  function Utf8(s: string): seq<byte> {
    if s == [] then [] else Utf8(s[..|s| - 1]) + Utf8Char(s[|s| - 1])
  }

  /** The last element of a + b and what comes before it, for a nonempty b. */
  lemma SnocSplit<T>(a: seq<T>, b: seq<T>)
    requires b != []
    ensures (a + b)[..|a + b| - 1] == a + b[..|b| - 1]
    ensures (a + b)[|a + b| - 1] == b[|b| - 1]
  {
  }

  /** A slice inside the first part of a + b. */
  lemma SliceOfLeft<T>(a: seq<T>, b: seq<T>, lo: int, hi: int)
    requires 0 <= lo <= hi <= |a|
    ensures (a + b)[lo..hi] == a[lo..hi]
  {
  }

  /** A prefix of the first part of a + b. */
  lemma TakeOfLeft<T>(a: seq<T>, b: seq<T>, n: int)
    requires 0 <= n <= |a|
    ensures (a + b)[..n] == a[..n]
  {
  }

  /** A slice that ends where a known prefix q ends is the tail of q. */
  lemma SliceOfPrefix<T>(s: seq<T>, q: seq<T>, lo: int, hi: int)
    requires 0 <= lo <= hi <= |s| && s[..hi] == q
    ensures s[lo..hi] == q[lo..]
  {
  }

  /** The second part of a + b, cut back out. */
  lemma SliceOfRight<T>(a: seq<T>, b: seq<T>, lo: int, hi: int)
    requires lo == |a| && hi == |a| + |b|
    ensures (a + b)[lo..hi] == b
  {
  }

  /** Encoding a concatenation encodes each part. */
  lemma {:induction false} Utf8Append(a: string, b: string)
    ensures Utf8(a + b) == Utf8(a) + Utf8(b)
    decreases |b|
  {
    if b == [] {
      assert a + b == a;
    } else {
      var p := b[..|b| - 1];
      SnocSplit(a, b);
      Utf8Append(a, p);
    }
  }

  predicate IsAscii(s: string) {
    forall i | 0 <= i < |s| :: s[i] as int < 0x80
  }

  /** On ASCII text, encoding keeps one byte per character. */
  lemma {:induction false} Utf8Ascii(s: string)
    requires IsAscii(s)
    ensures |Utf8(s)| == |s|
    ensures forall i | 0 <= i < |s| :: Utf8(s)[i] == s[i] as int
  {
    if s != [] {
      var p := s[..|s| - 1];
      assert IsAscii(p) by {
        forall i | 0 <= i < |p| ensures p[i] as int < 0x80 { assert p[i] == s[i]; }
      }
      Utf8Ascii(p);
      assert Utf8(s) == Utf8(p) + [s[|s| - 1] as int];
    }
  }

  predicate IsHexDigit(c: char) {
    '0' <= c <= '9' || 'a' <= c <= 'f'
  }

  /** The lower-case hexadecimal digit of 0 <= v < 16. */
  function HexDigit(v: nat): (c: char)
    requires v < 16
    ensures IsHexDigit(c)
  {
    if v < 10 then ('0' as int + v) as char else ('a' as int + v - 10) as char
  }

  predicate IsHex(s: string) {
    forall i | 0 <= i < |s| :: IsHexDigit(s[i])
  }

  /** `bytes.hex()`: two lower-case hexadecimal digits per byte, high nibble first. */
  function HexOf(bs: seq<byte>): (r: string)
    ensures |r| == 2 * |bs| && IsHex(r)
  {
    if bs == [] then []
    else HexOf(bs[..|bs| - 1]) + [HexDigit(bs[|bs| - 1] / 16), HexDigit(bs[|bs| - 1] % 16)]
  }

  /** Hexadecimal digits are ASCII characters. */
  lemma HexIsAscii(s: string)
    requires IsHex(s)
    ensures IsAscii(s)
  {
  }

  /** The decimal digit of 0 <= d < 10. */
  function DecimalDigit(d: nat): (c: char)
    requires d < 10
    ensures '0' <= c <= '9'
  {
    "0123456789"[d]
  }

  /** `str(n)` for n >= 0: decimal digits, most significant first, no leading zero. */
  function Decimal(n: nat): (r: string)
    ensures 1 <= |r|
    ensures forall i | 0 <= i < |r| :: '0' <= r[i] <= '9'
  {
    if n < 10 then [DecimalDigit(n)] else Decimal(n / 10) + [DecimalDigit(n % 10)]
  }

  /** `str(n)` of a Python integer: a minus sign before the digits of -n when n is negative. */
  function Str(n: int): (r: string)
    ensures 1 <= |r|
    ensures (r[0] == '-') <==> n < 0
  {
    if n < 0 then "-" + Decimal(-n) else Decimal(n)
  }

  /** Number of passes of `for i in range(n)`. */
  function Passes(n: int): nat {
    if n < 0 then 0 else n
  }

  /** Python's `x ^ 1`: x with its lowest bit flipped (for negative x too,
      in two's complement). The result is the other child of the parent
      x // 2. */
  function XorOne(x: int): (r: int)
    ensures r != x && r / 2 == x / 2
    ensures 0 <= x ==> 0 <= r
  {
    if x % 2 == 0 then x + 1 else x - 1
  }
}
