/** The 32-byte address buffer of SWtestbench.py and testbenchdraft.py
    (both files define the same `ADRS` class over a `bytearray(32)`).

    Layout, as the setters write it (each word a 4-byte big-endian integer):
      bytes  0..3   layer address
      bytes  4..15  tree address (never written by these drafts)
      bytes 16..19  type
      bytes 20..23  key-pair address
      bytes 24..27  tree height
      bytes 28..31  tree index
    `int.to_bytes(4, 'big')` raises OverflowError for a value outside
    [0, 2^32); a setter that raises leaves the buffer as it was.

    Every 32-byte buffer is the encoding of exactly one `Fields` value
    (`Encode` and `Decode` are inverse bijections), so the class keeps the
    bytes and states what each method does to the decoded fields; a setter
    puts `Be32(x)` into its field. */
module AddressBytes {
  import opened Common

  const Size: nat := 32

  /** A value `to_bytes(4, 'big')` accepts. */
  predicate Fits(x: int) {
    0 <= x < TwoTo32
  }

  type Word = x: int | 0 <= x < TwoTo32

  /** Every key-pair address the subtree under (i, z) writes fits in four
      bytes: its leaves are i * 2^z .. (i + 1) * 2^z - 1, all below 2^32
      exactly when z <= 32 and i < 2^(32 - z). */
  predicate SubtreeFits(i: nat, z: nat) {
    z <= 32 && i < Pow2(32 - z)
  }

  lemma SubtreeFitsFacts(i: nat, z: nat)
    requires SubtreeFits(i, z)
    ensures Fits(i) && Fits(z)
    ensures z > 0 ==> SubtreeFits(2 * i, z - 1) && SubtreeFits(2 * i + 1, z - 1)
  {
    Pow2Of32();
    if z > 0 {
      Pow2Strict(32 - z, 32);
      assert Pow2(32 - (z - 1)) == 2 * Pow2(32 - z);
    }
  }

  /** One 4-byte word of the buffer. */
  type Bytes4 = s: seq<byte> | |s| == 4 witness Zeros(4)

  type TreeBytes = s: seq<byte> | |s| == 12 witness Zeros(12)

  /** The buffer, field by field, each field the bytes it occupies. */
  datatype Fields = Fields(layer: Bytes4, tree: TreeBytes, typ: Bytes4, keyPair: Bytes4, height: Bytes4, index: Bytes4)

  /** The bytes of the buffer whose fields are `f`. */
  function Encode(f: Fields): (r: seq<byte>)
    ensures |r| == Size
  {
    f.layer + (f.tree + (f.typ + (f.keyPair + (f.height + f.index))))
  }

  /** The fields of a 32-byte buffer. */
  function Decode(s: seq<byte>): Fields
    requires |s| == Size
  {
    Fields(s[0..4], s[4..16], s[16..20], s[20..24], s[24..28], s[28..32])
  }

  /** Decoding an encoded buffer gives back its fields. */
  lemma DecodeEncode(f: Fields)
    ensures Decode(Encode(f)) == f
  {
    var r4 := f.height + f.index;
    var r3 := f.keyPair + r4;
    var r2 := f.typ + r3;
    var r1 := f.tree + r2;
    var s := Encode(f);
    assert s == f.layer + r1;
    assert s[4..] == r1 && r1[12..] == r2 && r2[4..] == r3 && r3[4..] == r4;
    assert s[4..16] == r1[..12] == f.tree;
    assert s[16..20] == r2[..4] == f.typ;
    assert s[20..24] == r3[..4] == f.keyPair;
    assert s[24..28] == r4[..4] == f.height;
    assert s[28..32] == r4[4..] == f.index;
  }

  /** Encoding the decoded fields gives back the buffer: no 32-byte buffer is
      outside the model. */
  lemma EncodeDecode(s: seq<byte>)
    requires |s| == Size
    ensures Encode(Decode(s)) == s
  {
    assert s == s[0..4] + s[4..16] + s[16..20] + s[20..24] + s[24..28] + s[28..32];
  }

  /** Distinct fields give distinct buffers, so the bytes `prf`, `h_t` and
      `h_h` hash carry every field. */
  lemma EncodeInjective(f: Fields, g: Fields)
    requires Encode(f) == Encode(g)
    ensures f == g
  {
    DecodeEncode(f);
    DecodeEncode(g);
  }

  /** A word that a setter wrote reads back as the value written, and distinct
      values give distinct words. */
  lemma WordRoundTrip(x: Word, y: Word)
    ensures BeValue(Be32(x)) == x
    ensures Be32(x) == Be32(y) ==> x == y
  {
    Be32RoundTrip(x);
    Be32RoundTrip(y);
  }

  /** The byte offsets of the five words a setter writes. */
  predicate WordOffset(off: nat) {
    off == 0 || off == 16 || off == 20 || off == 24 || off == 28
  }

  /** The fields with the word at byte offset `off` replaced by b. */
  function WithWordAt(f: Fields, off: nat, b: Bytes4): Fields
    requires WordOffset(off)
  {
    if off == 0 then f.(layer := b)
    else if off == 16 then f.(typ := b)
    else if off == 20 then f.(keyPair := b)
    else if off == 24 then f.(height := b)
    else f.(index := b)
  }

  /** Storing a word over bytes off..off+3 of an encoded buffer encodes the
      fields with that one word replaced. */
  lemma StoreWord(f: Fields, off: nat, b: Bytes4)
    requires WordOffset(off)
    ensures Encode(f)[..off] + b + Encode(f)[off + 4..] == Encode(WithWordAt(f, off, b))
  {
    var s := Encode(f);
    if off == 0 {
      assert s[4..] == f.tree + f.typ + f.keyPair + f.height + f.index;
    } else if off == 16 {
      assert s[..16] == f.layer + f.tree;
      assert s[20..] == f.keyPair + f.height + f.index;
    } else if off == 20 {
      assert s[..20] == f.layer + f.tree + f.typ;
      assert s[24..] == f.height + f.index;
    } else if off == 24 {
      assert s[..24] == f.layer + f.tree + f.typ + f.keyPair;
      assert s[28..] == f.index;
    } else {
      assert s[..28] == f.layer + f.tree + f.typ + f.keyPair + f.height;
      assert s[32..] == [];
    }
  }

  /** The fields of the buffer `ADRS()` creates: all zero. */
  const Zero: Fields := Fields(Zeros(4), Zeros(12), Zeros(4), Zeros(4), Zeros(4), Zeros(4))

  /** What `set_type_and_clear(t)` leaves: type t, key pair, height and index zero. */
  function TypeAndClear(f: Fields, t: Bytes4): (r: Fields)
    ensures r.layer == f.layer && r.tree == f.tree && r.typ == t
    ensures r.keyPair == Zeros(4) && r.height == Zeros(4) && r.index == Zeros(4)
  {
    f.(typ := t, keyPair := Zeros(4), height := Zeros(4), index := Zeros(4))
  }

  class Adrs {
    const a: array<byte>
    /** The fields the buffer encodes. */
    ghost var view: Fields

    ghost predicate Valid()
      reads this, a
    {
      a.Length == Size && a[..] == Encode(view)
    }

    /** `ADRS()`: 32 zero bytes. */
    constructor ()
      ensures Valid() && fresh(a) && view == Zero
    {
      a := new byte[Size](_ => 0);
      view := Zero;
      new;
      assert Encode(Zero) == Zeros(Size);
    }

    /** An object over a new buffer holding the bytes of `f`: what `copy()` builds. */
    constructor Of(bytes: seq<byte>, ghost f: Fields)
      requires bytes == Encode(f)
      ensures Valid() && fresh(a) && view == f
    {
      a := new byte[Size](i requires 0 <= i < Size => bytes[i]);
      view := f;
    }

    /** The slice assignment `a[off:off+4] = b`. */
    method Store(off: nat, b: Bytes4)
      requires a.Length == Size && off + 4 <= Size
      modifies a
      ensures a[..] == old(a[..])[..off] + b + old(a[..])[off + 4..]
    {
      a[off], a[off + 1], a[off + 2], a[off + 3] := b[0], b[1], b[2], b[3];
    }

    /** The body every setter shares: store x at off, or raise (`ok` false) and
        change nothing. `off` is the offset of one field. */
    method SetWord(off: nat, x: int) returns (ok: bool)
      requires Valid() && WordOffset(off)
      modifies this, a
      ensures Valid()
      ensures ok <==> Fits(x)
      ensures ok ==> view == WithWordAt(old(view), off, Be32(x))
      ensures !ok ==> view == old(view) && a[..] == old(a[..])
    {
      ok := Fits(x);
      if ok {
        var b := Be32(x);
        StoreWord(view, off, b);
        Store(off, b);
        view := WithWordAt(view, off, b);
      }
    }

    method SetLayerAddress(x: int) returns (ok: bool)
      requires Valid()
      modifies this, a
      ensures Valid() && (ok <==> Fits(x))
      ensures ok ==> view == old(view).(layer := Be32(x))
      ensures !ok ==> view == old(view)
    {
      ok := SetWord(0, x);
    }

    method SetKeyPairAddress(x: int) returns (ok: bool)
      requires Valid()
      modifies this, a
      ensures Valid() && (ok <==> Fits(x))
      ensures ok ==> view == old(view).(keyPair := Be32(x))
      ensures !ok ==> view == old(view)
    {
      ok := SetWord(20, x);
    }

    /** `get_key_pair_address()`: the key-pair word read as a big-endian
        integer, which writing back with `to_bytes(4, 'big')` reproduces. */
    method GetKeyPairAddress() returns (x: int)
      requires Valid()
      ensures x == BeValue(view.keyPair)
      ensures Fits(x) && Be32(x) == view.keyPair
    {
      assert a[20..24] == Encode(view)[20..24] == view.keyPair;
      x := BeValue(a[20..24]);
      Be32OfBeValue(view.keyPair);
    }

    method SetTreeIndex(x: int) returns (ok: bool)
      requires Valid()
      modifies this, a
      ensures Valid() && (ok <==> Fits(x))
      ensures ok ==> view == old(view).(index := Be32(x))
      ensures !ok ==> view == old(view)
    {
      ok := SetWord(28, x);
    }

    method SetTreeHeight(x: int) returns (ok: bool)
      requires Valid()
      modifies this, a
      ensures Valid() && (ok <==> Fits(x))
      ensures ok ==> view == old(view).(height := Be32(x))
      ensures !ok ==> view == old(view)
    {
      ok := SetWord(24, x);
    }

    /** Writes the type into bytes 16..19, then zeroes bytes 20..31 one at a time. */
    method SetTypeAndClear(t: int) returns (ok: bool)
      requires Valid()
      modifies this, a
      ensures Valid() && (ok <==> Fits(t))
      ensures ok ==> view == TypeAndClear(old(view), Be32(t))
      ensures !ok ==> view == old(view)
    {
      ok := SetWord(16, t);
      if !ok {
        return;
      }
      ghost var g := view;
      ghost var typed := Encode(g);
      ghost var prefix := g.layer + g.tree + g.typ;
      assert typed == prefix + (g.keyPair + g.height + g.index);
      for i := 0 to 12
        invariant a[..20] == typed[..20]
        invariant forall k | 20 <= k < 20 + i :: a[k] == 0
      {
        a[20 + i] := 0;
      }
      view := TypeAndClear(g, g.typ);
      ghost var r := Encode(view);
      assert r == prefix + (Zeros(4) + Zeros(4) + Zeros(4));
      assert a[..] == r by {
        assert r[..20] == prefix == typed[..20];
        forall k | 0 <= k < Size ensures a[k] == r[k] {
          if k < 20 {
            assert a[k] == a[..20][k] == r[..20][k];
          } else {
            assert r[20..] == Zeros(12);
            assert r[k] == r[20..][k - 20];
          }
        }
      }
    }

    /** `copy()`: a new object over a new buffer holding the same bytes. */
    method Copy() returns (c: Adrs)
      requires Valid()
      ensures fresh(c) && fresh(c.a) && c.Valid() && c.view == view
    {
      c := new Adrs.Of(a[..], view);
    }
  }
}
