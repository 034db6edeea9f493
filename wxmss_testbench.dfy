/** The string-based hash helpers of testbenchwxmss.py, built on the
    hand-written SHA-256 compression function of module Sha256.

    A value handed between the helpers is either a Python string or a list
    of 32-bit words (a digest): `HashInput`. `hash_format` turns either into
    one 16-word block without the padding of section 5.1.1 of FIPS 180-4:
    the UTF-8 bytes of the text, written as hexadecimal and read back eight
    digits at a time, then zero words up to 16, then cut at 16. Everything
    past the first 64 bytes of the text is therefore ignored. */
module WxmssTestbench {
  import opened Common
  import opened Sha256

  /** A Python integer below 2^32, as `get_digest` returns them. */
  type Word = x: int | 0 <= x < TwoTo32

  datatype HashInput = Text(s: string) | Words(ws: seq<Word>)

  function Min(x: int, y: int): int {
    if x <= y then x else y
  }

  /** The value of one lower-case hexadecimal digit. The helpers only ever
      read digits that `bytes.hex()` or `f"{x:08x}"` wrote, so the value of
      any other character (where Python's `int(.., 16)` would raise) is
      never used; it is 0 here. */
  function DigitValue(c: char): (v: nat)
    ensures v < 16
    ensures IsHexDigit(c) ==> HexDigit(v) == c
  {
    if '0' <= c <= '9' then c as int - '0' as int
    else if 'a' <= c <= 'f' then c as int - 'a' as int + 10
    else 0
  }

  lemma DigitOfHex(v: nat)
    requires v < 16
    ensures DigitValue(HexDigit(v)) == v
  {
  }

  /** `int(digits, 16)` for a string of lower-case hexadecimal digits. */
  function HexValue(s: string): nat
  {
    if s == [] then 0 else 16 * HexValue(s[..|s| - 1]) + DigitValue(s[|s| - 1])
  }

  /** m digits hold a value below 16^m. */
  lemma {:induction false} HexValueBound(s: string)
    ensures HexValue(s) < Pow2(4 * |s|)
  {
    if s != [] {
      var p := s[..|s| - 1];
      HexValueBound(p);
      Pow2Plus4(4 * |p|);
      assert 4 * |p| + 4 == 4 * |s|;
    }
  }

  /** The last m hexadecimal digits of v, most significant first. */
  function HexN(v: nat, m: nat): (r: string)
    ensures |r| == m && IsHex(r)
  {
    if m == 0 then [] else HexN(v / 16, m - 1) + [HexDigit(v % 16)]
  }

  /** Reading m digits back gives v whenever v fits in m digits. */
  lemma {:induction false} HexNValue(v: nat, m: nat)
    requires v < Pow2(4 * m)
    ensures HexValue(HexN(v, m)) == v
  {
    if m > 0 {
      var q := Pow2(4 * (m - 1));
      Pow2Plus4(4 * (m - 1));
      assert 4 * (m - 1) + 4 == 4 * m;
      assert v / 16 < q;
      HexNValue(v / 16, m - 1);
      var r := HexN(v, m);
      assert r[..|r| - 1] == HexN(v / 16, m - 1);
      DigitOfHex(v % 16);
    }
  }

  /** `f"{x:08x}"` of a word: exactly eight lower-case digits. */
  function Hex8(x: Word): (r: string)
    ensures |r| == 8 && IsHex(r)
  {
    HexN(x, 8)
  }

  /** The eight digits read back give the word. */
  lemma Hex8RoundTrip(x: Word)
    ensures HexValue(Hex8(x)) == x
  {
    Pow2Of32();
    assert 4 * 8 == 32;
    HexNValue(x, 8);
  }

  /** The words of a list, eight digits each, joined without separator. */
  function JoinHex(ws: seq<Word>): (r: string)
    ensures |r| == 8 * |ws| && IsHex(r)
  {
    if ws == [] then [] else JoinHex(ws[..|ws| - 1]) + Hex8(ws[|ws| - 1])
  }

  lemma {:induction false} JoinHexAt(ws: seq<Word>, i: nat)
    requires i < |ws|
    ensures JoinHex(ws)[8 * i..8 * i + 8] == Hex8(ws[i])
  {
    var p := ws[..|ws| - 1];
    var jp := JoinHex(p);
    assert JoinHex(ws) == jp + Hex8(ws[|p|]);
    if i < |p| {
      JoinHexAt(p, i);
      assert JoinHex(ws)[8 * i..8 * i + 8] == jp[8 * i..8 * i + 8];
    } else {
      assert JoinHex(ws)[8 * i..8 * i + 8] == JoinHex(ws)[|jp|..];
    }
  }

  lemma {:induction false} JoinHexAppend(ws: seq<Word>, vs: seq<Word>)
    ensures JoinHex(ws + vs) == JoinHex(ws) + JoinHex(vs)
    decreases |vs|
  {
    if vs == [] {
      assert ws + vs == ws;
    } else {
      var p := vs[..|vs| - 1];
      assert (ws + vs)[..|ws + vs| - 1] == ws + p;
      JoinHexAppend(ws, p);
    }
  }

  /** `hash_unformat(x)`: a string as it is, a list as its words' digits. */
  function Unformat(x: HashInput): string {
    match x
    case Text(s) => s
    case Words(ws) => JoinHex(ws)
  }

  /** A list is rendered as eight digits per word, from which each word can be
      read back; a string comes back unchanged. */
  lemma UnformatWords(ws: seq<Word>, i: nat)
    requires i < |ws|
    ensures |Unformat(Words(ws))| == 8 * |ws|
    ensures HexValue(Unformat(Words(ws))[8 * i..8 * i + 8]) == ws[i]
  {
    JoinHexAt(ws, i);
    Hex8RoundTrip(ws[i]);
  }

  lemma UnformatText(s: string)
    ensures Unformat(Text(s)) == s
  {
  }

  /** The values of consecutive pieces of eight digits; the last piece may be
      shorter, and is read as it stands. */
  function Chunks(hex: string): seq<nat>
    decreases |hex|
  {
    if hex == [] then []
    else if |hex| <= 8 then [HexValue(hex)]
    else [HexValue(hex[..8])] + Chunks(hex[8..])
  }

  /** The first piece and the pieces of the rest. */
  lemma ChunksStep(hex: string)
    requires hex != []
    ensures Chunks(hex) == [HexValue(hex[..Min(8, |hex|)])] + Chunks(hex[Min(8, |hex|)..])
  {
    if |hex| <= 8 {
      assert hex[..|hex|] == hex;
      assert hex[|hex|..] == [];
    }
  }

  /** The pieces from digit i on: the piece at i, then the pieces after it. */
  lemma ChunksFrom(hex: string, i: nat)
    requires i < |hex|
    ensures Chunks(hex[i..]) == [HexValue(hex[i..Min(i + 8, |hex|)])] + Chunks(hex[Min(i + 8, |hex|)..])
  {
    var rest := hex[i..];
    ChunksStep(rest);
    assert rest[..Min(8, |rest|)] == hex[i..Min(i + 8, |hex|)];
    assert rest[Min(8, |rest|)..] == hex[Min(i + 8, |hex|)..];
  }

  /** Piece i is the value of digits 8i .. 8i + 7 (fewer for the last one),
      there are |hex| / 8 pieces rounded up, and each is below 2^32. */
  lemma {:induction false} ChunksAt(hex: string, i: nat)
    ensures |Chunks(hex)| == (|hex| + 7) / 8
    ensures i < |Chunks(hex)| ==> Chunks(hex)[i] == HexValue(hex[8 * i..Min(8 * i + 8, |hex|)])
    decreases |hex|
  {
    if 0 < |hex| <= 8 {
      assert hex[0..|hex|] == hex;
    }
    if |hex| > 8 {
      var rest := hex[8..];
      ChunksAt(rest, if i > 0 then i - 1 else 0);
      if 0 < i < |Chunks(hex)| {
        assert rest[8 * (i - 1)..Min(8 * (i - 1) + 8, |rest|)] == hex[8 * i..Min(8 * i + 8, |hex|)];
      }
    }
  }

  lemma ChunksBound(hex: string)
    ensures forall i | 0 <= i < |Chunks(hex)| :: Chunks(hex)[i] < TwoTo32
  {
    forall i | 0 <= i < |Chunks(hex)| ensures Chunks(hex)[i] < TwoTo32 {
      ChunksAt(hex, i);
      PieceBound(hex[8 * i..Min(8 * i + 8, |hex|)]);
    }
  }

  /** At most eight digits fit in 32 bits. */
  lemma PieceBound(piece: string)
    requires |piece| <= 8
    ensures HexValue(piece) < TwoTo32
  {
    HexValueBound(piece);
    Pow2Of32();
    if |piece| < 8 {
      Pow2Strict(4 * |piece|, 32);
    }
  }

  /** Pieces of a prefix whose length is a multiple of eight are the first
      pieces of the whole. */
  lemma {:induction false} ChunksAppend(a: string, b: string)
    requires |a| % 8 == 0
    ensures Chunks(a + b) == Chunks(a) + Chunks(b)
    decreases |a|
  {
    if a == [] {
      assert a + b == b;
    } else {
      assert (a + b)[..8] == a[..8];
      assert (a + b)[8..] == a[8..] + b;
      ChunksAppend(a[8..], b);
      if |a| == 8 {
        assert a[..8] == a && a[8..] == [];
      }
      if b == [] {
        assert a + b == a;
      }
    }
  }

  /** Zero words up to 16, then the first 16. */
  function Pad16(ws: seq<nat>): (r: seq<nat>)
    ensures |r| == 16
    ensures forall i | 0 <= i < 16 :: r[i] == if i < |ws| then ws[i] else 0
  {
    if |ws| >= 16 then ws[..16] else ws + seq(16 - |ws|, _ => 0)
  }

  /** The digits `hash_format` splits: `hash_unformat` of a list, then
      `.encode().hex()`. */
  function FormatHex(x: HashInput): (r: string)
    ensures |r| == 2 * |Utf8(Unformat(x))|
  {
    HexOf(Utf8(Unformat(x)))
  }

  /** The block `hash_format` returns. */
  function FormatWords(x: HashInput): (r: seq<nat>)
    ensures |r| == 16 && forall i | 0 <= i < 16 :: r[i] < TwoTo32
  {
    ChunksBound(FormatHex(x));
    Pad16(Chunks(FormatHex(x)))
  }

  lemma {:induction false} HexOfAppend(a: seq<byte>, b: seq<byte>)
    ensures HexOf(a + b) == HexOf(a) + HexOf(b)
    decreases |b|
  {
    if b == [] {
      assert a + b == a;
    } else {
      var p := b[..|b| - 1];
      SnocSplit(a, b);
      HexOfAppend(a, p);
    }
  }

  /** The digits of bytes i .. j - 1 are digits 2i .. 2j - 1 of the whole. */
  lemma HexOfSlice(bs: seq<byte>, i: nat, j: nat)
    requires i <= j <= |bs|
    ensures HexOf(bs)[2 * i..2 * j] == HexOf(bs[i..j])
  {
    var a, m, c := bs[..i], bs[i..j], bs[j..];
    SplitThree(bs, i, j);
    HexOfThree(a, m, c);
    MiddleSlice(HexOf(a), HexOf(m), HexOf(c), 2 * i, 2 * j);
  }

  /** A sequence is its three slices cut at i and j, joined again. */
  lemma SplitThree<T>(s: seq<T>, i: nat, j: nat)
    requires i <= j <= |s|
    ensures s == s[..i] + s[i..j] + s[j..]
  {
  }

  lemma HexOfThree(a: seq<byte>, m: seq<byte>, c: seq<byte>)
    ensures HexOf(a + m + c) == HexOf(a) + HexOf(m) + HexOf(c)
  {
    HexOfAppend(a + m, c);
    HexOfAppend(a, m);
  }

  /** The middle part of a three-part concatenation, cut back out. */
  lemma MiddleSlice<T>(x: seq<T>, y: seq<T>, z: seq<T>, lo: int, hi: int)
    requires lo == |x| && hi == |x| + |y|
    ensures (x + y + z)[lo..hi] == y
  {
    var s := x + y + z;
    forall k | 0 <= k < |y| ensures s[lo..hi][k] == y[k] {
      assert s[|x| + k] == y[k];
    }
  }

  /** Two digits per byte, high nibble first, read back: the big-endian value. */
  lemma {:induction false} HexOfValue(bs: seq<byte>)
    ensures HexValue(HexOf(bs)) == BeValue(bs)
  {
    if bs != [] {
      var p, b := bs[..|bs| - 1], bs[|bs| - 1];
      HexOfValue(p);
      var h := HexOf(bs);
      var hp := h[..|h| - 1];
      assert hp[..|hp| - 1] == HexOf(p);
      DigitOfHex(b / 16);
      DigitOfHex(b % 16);
      assert HexValue(hp) == 16 * BeValue(p) + b / 16;
    }
  }

  /** Word i of the block is the big-endian value of bytes 4i .. 4i + 3 of
      the encoded text; past its end a word is 0, and a last group of fewer
      than four bytes is read as it stands, without being shifted into the
      high bytes. There is no 0x80 marker and no length field. */
  lemma FormatPacksBytes(x: HashInput, i: nat)
    requires i < 16
    ensures var bs := Utf8(Unformat(x));
      FormatWords(x)[i] == BeValue(bs[Min(4 * i, |bs|)..Min(4 * i + 4, |bs|)])
  {
    var bs := Utf8(Unformat(x));
    var hex := FormatHex(x);
    ChunksAt(hex, i);
    if i < |Chunks(hex)| {
      HexOfSlice(bs, 4 * i, Min(4 * i + 4, |bs|));
      assert hex[8 * i..Min(8 * i + 8, |hex|)] == HexOf(bs[4 * i..Min(4 * i + 4, |bs|)]);
      HexOfValue(bs[4 * i..Min(4 * i + 4, |bs|)]);
    } else {
      assert bs[Min(4 * i, |bs|)..Min(4 * i + 4, |bs|)] == [];
    }
  }

  /** `hash_format(input_string)`, with its two loops. */
  method HashFormat(x: HashInput) returns (block: seq<nat>)
    ensures block == FormatWords(x)
  {
    var hex := FormatHex(x);
    block := SplitWords(hex);
    ghost var built := block;
    while |block| < 16
      invariant |built| < 16 ==> |block| <= 16 && block == built + seq(|block| - |built|, _ => 0)
      invariant |built| >= 16 ==> block == built
    {
      block := block + [0];
    }
    PadCut(built, block);
    block := block[..16];
  }

  /** The first loop of `hash_format`: one value per eight digits. */
  method SplitWords(hex: string) returns (block: seq<nat>)
    ensures block == Chunks(hex)
  {
    block := [];
    var i := 0;
    while i < |hex|
      invariant 0 <= i
      invariant block + Chunks(hex[Min(i, |hex|)..]) == Chunks(hex)
    {
      ChunksFrom(hex, i);
      var piece := hex[i..Min(i + 8, |hex|)];
      var v := HexValue(piece);
      assert (block + [v]) + Chunks(hex[Min(i + 8, |hex|)..]) == block + Chunks(hex[i..]);
      block := block + [v];
      i := i + 8;
    }
    assert hex[Min(i, |hex|)..] == [];
  }

  /** What the padding loop of `hash_format` leaves, cut to 16 words, is the
      built block padded to 16 words. */
  lemma PadCut(built: seq<nat>, block: seq<nat>)
    requires |block| >= 16
    requires |built| < 16 ==> block == built + seq(|block| - |built|, _ => 0)
    requires |built| >= 16 ==> block == built
    ensures block[..16] == Pad16(built)
  {
    forall k | 0 <= k < 16 ensures block[..16][k] == Pad16(built)[k] {
      if k < |built| {
        assert block[k] == built[k];
      }
    }
  }

  /** Only the first 64 bytes reach the block: text after an ASCII prefix of
      at least 64 characters, whose length is a multiple of four, changes
      nothing. */
  lemma FormatIgnoresTail(a: string, b: string)
    requires IsAscii(a) && |a| % 4 == 0 && 64 <= |a|
    ensures FormatWords(Text(a + b)) == FormatWords(Text(a))
  {
    var ua, ub := Utf8(a), Utf8(b);
    Utf8Ascii(a);
    Utf8Append(a, b);
    HexOfAppend(ua, ub);
    var k := |a| / 4;
    assert |HexOf(ua)| == 8 * k;
    DivMod(8 * k, 8, k, 0);
    PadIgnoresTail(HexOf(ua), HexOf(ub));
  }

  /** Digits after the first 128 change no word of the block. */
  lemma PadIgnoresTail(ha: string, hb: string)
    requires |ha| % 8 == 0 && 128 <= |ha|
    ensures Pad16(Chunks(ha + hb)) == Pad16(Chunks(ha))
  {
    ChunksAppend(ha, hb);
    ChunksAt(ha, 0);
    var ca := Chunks(ha);
    assert (ca + Chunks(hb))[..16] == ca[..16];
  }

  /** The 16 words of a block as the 32-bit words `next` takes. */
  function Block(ws: seq<nat>): (b: seq<bv32>)
    requires |ws| == 16 && forall i | 0 <= i < 16 :: ws[i] < TwoTo32
    ensures |b| == 16
  {
    seq(16, i requires 0 <= i < 16 => ws[i] as bv32)
  }

  /** The digest words as the Python integers `get_digest` returns. */
  function DigestWords(hs: seq<bv32>): (r: seq<Word>)
    ensures |r| == |hs|
  {
    seq(|hs|, i requires 0 <= i < |hs| => hs[i] as int)
  }

  /** What `F_global`, `PRF_global` and `H_global` return: one compression
      of the formatted block from the SHA-256 initial values. */
  function F(x: HashInput): (r: seq<Word>)
    ensures |r| == 8
  {
    DigestWords(Compress(IV(Mode256), Block(FormatWords(x))))
  }

  /** `F_global(input_string)`: a fresh `SHA256()` object, `init()`, then
      `next` on the formatted block. */
  method FGlobal(x: HashInput) returns (r: seq<Word>)
    ensures r == F(x)
  {
    var sha := new Engine(Mode256);
    sha.Init();
    var formatted := HashFormat(x);
    var block := Block(formatted);
    assert block[..16] == block;
    sha.Next(block);
    var digest := sha.GetDigest();
    r := DigestWords(digest);
  }

  /** `PRF_global(seed, index)`: the same computation on the seed alone; the
      index is never read. */
  method PrfGlobal(seed: HashInput, index: string) returns (r: seq<Word>)
    ensures r == F(seed)
  {
    var sha := new Engine(Mode256);
    sha.Init();
    var formatted := HashFormat(seed);
    var block := Block(formatted);
    assert block[..16] == block;
    sha.Next(block);
    var digest := sha.GetDigest();
    r := DigestWords(digest);
  }

  /** `H_global(value)`: the same computation again. The body repeats
      `FGlobal` because `H_global` repeats the body of `F_global` line for line
      (testbenchwxmss.py:189-213). */
  method HGlobal(value: HashInput) returns (r: seq<Word>)
    ensures r == F(value)
  {
    var sha := new Engine(Mode256);
    sha.Init();
    var formatted := HashFormat(value);
    var block := Block(formatted);
    assert block[..16] == block;
    sha.Next(block);
    var digest := sha.GetDigest();
    r := DigestWords(digest);
  }

  /** `hash_format` unformats a list itself, so hashing a list is hashing
      its text. */
  lemma HashSeesText(ws: seq<Word>)
    ensures F(Words(ws)) == F(Text(JoinHex(ws)))
  {
  }

  /** `hash_format` keeps only the first 64 bytes, so an ASCII text that
      fills the block decides the digest whatever follows it. */
  lemma HashReadsFirstBlock(a: string, b: string)
    requires IsAscii(a) && |a| % 4 == 0 && 64 <= |a|
    ensures F(Text(a + b)) == F(Text(a))
  {
    FormatIgnoresTail(a, b);
  }

  /** Hashing a digest followed by more words hashes the digest alone: its
      64 digits fill the block. */
  lemma HashReadsFirstDigest(l: seq<Word>, r: seq<Word>)
    requires |l| == 8
    ensures F(Words(l + r)) == F(Words(l))
  {
    var a, b := JoinHex(l), JoinHex(r);
    JoinHexAppend(l, r);
    HexIsAscii(a);
    HashSeesText(l + r);
    HashSeesText(l);
    HashReadsFirstBlock(a, b);
  }
}
