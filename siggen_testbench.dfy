/** XMSS key generation and FORS signing of SigGenTestBench.py over the
    four-field address record.

    Every hash in this file reads its address through `str(adrs).encode()`.
    `ADRS` defines no `__str__`, so that string is Python's default object
    representation, which names the object's identity and none of its
    fields. The parameter `repr` stands for it: a function of the object
    reference alone. Since `wots_pkgen` and `fors_sk_gen` hash fresh copies,
    whose identities no caller can name, the model states the addresses these
    methods leave behind, the index arithmetic and the lengths, but no
    formula for the hash values. SHA-256 is the parameter `sha`. */
module SigGenTestbench {
  import opened Common
  import opened AddressFields

  class Xmss {
    const sha: seq<byte> -> Digest
    const repr: Adrs -> seq<byte>
    const n: int
    const w: int
    const hp: int
    const d: int

    constructor (sha: seq<byte> -> Digest, repr: Adrs -> seq<byte>, n: int, w: int, hp: int, d: int)
      ensures this.sha == sha && this.repr == repr
      ensures this.n == n && this.w == w && this.hp == hp && this.d == d
    {
      this.sha := sha;
      this.repr := repr;
      this.n := n;
      this.w := w;
      this.hp := hp;
      this.d := d;
    }

    function Prf(pkSeed: seq<byte>, skSeed: seq<byte>, adrs: Adrs): Digest {
      sha(pkSeed + skSeed + repr(adrs))
    }

    function Hh(pkSeed: seq<byte>, adrs: Adrs, nodes: seq<byte>): Digest {
      sha(pkSeed + repr(adrs) + nodes)
    }

    /** `sk_adrs` of `wots_pkgen`: a copy typed WOTS_PRF with the caller's key
        pair written back. */
    method SkCopy(adrs: Adrs) returns (c: Adrs)
      ensures fresh(c) && c.View() == WotsPrfAdrs(adrs.View(), 0)
    {
      c := adrs.Copy();
      c.SetTypeAndClear(WOTS_PRF);
      c.SetKeyPairAddress(adrs.keyPair);
    }

    /** `wots_pkgen(sk_seed, pk_seed, adrs)`: n passes, each hashing 32 bytes
        onto `tmp`; the caller's record only has its tree index rewritten. */
    method WotsPkgen(skSeed: seq<byte>, pkSeed: seq<byte>, adrs: Adrs) returns (pk: Digest)
      modifies adrs
      ensures adrs.View() == WotsAfter(old(adrs.View()), n)
    {
      ghost var f := adrs.View();
      var skAdrs := SkCopy(adrs);
      var tmp: seq<byte> := [];
      for i := 0 to Passes(n)
        invariant fresh(skAdrs)
        invariant skAdrs.View() == WotsPrfAdrs(f, if i == 0 then 0 else i - 1)
        invariant adrs.View() == WotsAfter(f, i)
        invariant |tmp| == 32 * i
      {
        skAdrs.SetTreeIndex(i);
        var sk := Prf(pkSeed, skSeed, skAdrs);
        adrs.SetTreeIndex(i);
        tmp := tmp + Hh(pkSeed, adrs, sk);
      }
      var wotspkAdrs := adrs.Copy();
      wotspkAdrs.SetTypeAndClear(WOTS_PK);
      pk := Hh(pkSeed, wotspkAdrs, tmp);
    }

    /** `xmss_node(sk_seed, i, z, pk_seed, adrs)`: the same address walk as in
        help.py, ending at the node's TREE address with key pair
        (i + 1) * 2^z - 1. */
    method XmssNode(skSeed: seq<byte>, i: int, z: nat, pkSeed: seq<byte>, adrs: Adrs) returns (node: Digest)
      modifies adrs
      ensures adrs.View() == XmssNodeAfter(n, i, z)
      decreases z
    {
      if z == 0 {
        adrs.SetTypeAndClear(WOTS_HASH);
        adrs.SetKeyPairAddress(i);
        node := WotsPkgen(skSeed, pkSeed, adrs);
      } else {
        var lnode := XmssNode(skSeed, 2 * i, z - 1, pkSeed, adrs);
        var rnode := XmssNode(skSeed, 2 * i + 1, z - 1, pkSeed, adrs);
        LastLeafOfRightChild(i, z);
        adrs.SetTypeAndClear(TREE);
        adrs.SetTreeHeight(z);
        adrs.SetTreeIndex(i);
        var left: seq<byte> := lnode;
        node := Hh(pkSeed, adrs, left + rnode);
      }
    }

    /** `slh_keygen_internal(sk_seed, sk_prf, pk_seed)`: one 32-byte root
        ends both keys, and pk is the last part of sk. */
    method SlhKeygenInternal(skSeed: seq<byte>, skPrf: seq<byte>, pkSeed: seq<byte>) returns (pk: seq<byte>, sk: seq<byte>)
      requires 0 <= hp
      ensures |pk| == |pkSeed| + 32 && pk[..|pkSeed|] == pkSeed
      ensures sk == skSeed + skPrf + pk
    {
      var adrs := new Adrs();
      var pkRoot := XmssNode(skSeed, 0, hp, pkSeed, adrs);
      sk := skSeed + skPrf + pkSeed + pkRoot;
      pk := pkSeed + pkRoot;
      assert sk == skSeed + skPrf + pk;
    }
  }

  /** `int.from_bytes(md[i:i + 1], 'big')`: byte i, or 0 past the end. */
  function ByteAt(md: seq<byte>, i: nat): byte {
    if i < |md| then md[i] else 0
  }

  /** `base_2b(md, a, k)`: k indices, index i being byte i of md reduced
      modulo 2^a. This reduces whole bytes; it does not cut md into a-bit
      strings. */
  function Base2b(md: seq<byte>, a: nat, k: int): (r: seq<nat>)
    ensures |r| == Passes(k)
    ensures forall i | 0 <= i < |r| :: r[i] < Pow2(a)
  {
    var p := Pow2(a);
    seq(Passes(k), i requires 0 <= i => ByteAt(md, i) % p)
  }

  /** Indices past the end of md are 0. */
  lemma Base2bPastEnd(md: seq<byte>, a: nat, k: int, i: nat)
    requires |md| <= i < Passes(k)
    ensures Base2b(md, a, k)[i] == 0
  {
    DivMod(0, Pow2(a), 0, 0);
  }

  /** For a >= 8 the reduction does nothing: the indices are the bytes of md. */
  lemma Base2bWide(md: seq<byte>, a: nat, k: int, i: nat)
    requires 8 <= a && i < Passes(k)
    ensures Base2b(md, a, k)[i] == ByteAt(md, i)
  {
    var b, p := ByteAt(md, i), Pow2(a);
    assert Pow2(8) == 256 by { Pow2Add(4, 4); assert Pow2(4) == 16; }
    Pow2Add(8, a - 8);
    MulAtLeast(Pow2(a - 8), 256);
    DivMod(b, p, 0, b);
  }

  /** For a < 8, index i is the low a bits of byte i: the two differ by a
      multiple of 2^a. */
  lemma Base2bLowBits(md: seq<byte>, a: nat, k: int, i: nat)
    requires i < Passes(k)
    ensures (ByteAt(md, i) - Base2b(md, a, k)[i]) % Pow2(a) == 0
  {
    var b, p := ByteAt(md, i), Pow2(a);
    DivMod(b - b % p, p, b / p, 0);
  }

  /** `x << m` for x >= 0: x doubled m times. */
  function Shl(x: nat, m: nat): nat {
    if m == 0 then x else 2 * Shl(x, m - 1)
  }

  /** `x >> m` for x >= 0: x halved m times, rounding down each time. */
  function Shr(x: nat, m: nat): nat {
    if m == 0 then x else Shr(x / 2, m - 1)
  }

  /** `<<` is multiplication by 2^m. */
  lemma {:induction false} ShlIsMul(x: nat, m: nat)
    ensures Shl(x, m) == x * Pow2(m)
  {
    if m > 0 {
      ShlIsMul(x, m - 1);
      MulAssoc(x, 2, Pow2(m - 1));
      MulAssoc(2, x, Pow2(m - 1));
    }
  }

  /** Halving and then dividing by q is dividing by 2q. */
  lemma HalveThenDivide(x: nat, q: nat)
    requires 1 <= q
    ensures x / 2 / q == x / (2 * q)
  {
    var h := x / 2;
    var r := 2 * (h % q) + x % 2;
    assert x == 2 * (q * (h / q) + h % q) + x % 2;
    MulAssoc(2, q, h / q);
    assert x == (2 * q) * (h / q) + r;
    DivMod(x, 2 * q, h / q, r);
  }

  /** `>>` is division by 2^m, rounding down. */
  lemma {:induction false} ShrIsDiv(x: nat, m: nat)
    ensures Shr(x, m) == x / Pow2(m)
  {
    if m > 0 {
      ShrIsDiv(x / 2, m - 1);
      HalveThenDivide(x, Pow2(m - 1));
    }
  }

  /** Shifting x + 1 left by m steps lands 2^m after shifting x. */
  lemma {:induction false} ShlNext(x: nat, m: nat)
    ensures Shl(x + 1, m) == Shl(x, m) + Pow2(m)
  {
    if m > 0 {
      ShlNext(x, m - 1);
    }
  }

  /** A value below 2^(m + j) shifted right by j is below 2^m. */
  lemma {:induction false} ShrBelow(x: nat, m: nat, j: nat)
    requires x < Pow2(m + j)
    ensures Shr(x, j) < Pow2(m)
  {
    if j > 0 {
      assert Pow2(m + j) == 2 * Pow2(m + (j - 1));
      ShrBelow(x / 2, m, j - 1);
    }
  }

  /** Shifting right by j passes over a multiple of 2^j intact:
      (x << (m + j)) + y, shifted right by j, is (x << m) + (y >> j). */
  lemma {:induction false} ShrOverShl(x: nat, m: nat, j: nat, y: nat)
    ensures Shr(Shl(x, m + j) + y, j) == Shl(x, m) + Shr(y, j)
  {
    if j > 0 {
      assert Shl(x, m + j) == 2 * Shl(x, m + (j - 1));
      assert (Shl(x, m + j) + y) / 2 == Shl(x, m + (j - 1)) + y / 2;
      ShrOverShl(x, m, j - 1, y / 2);
    }
  }

  /** `(i << a) + idx`: the secret of leaf idx of tree i, counted across all
      k trees. */
  function LeafIndex(i: nat, a: nat, idx: nat): nat {
    Shl(i, a) + idx
  }

  /** `(i << (a - j)) + ((idx >> j) ^ 1)`: the level-j node of the
      authentication path of leaf idx in tree i, counted across the trees. */
  function AuthIndex(i: nat, a: nat, j: nat, idx: nat): nat
    requires j < a
  {
    Shl(i, a - j) + XorOne(Shr(idx, j))
  }

  /** The leaf lies in tree i: i * 2^a <= leaf < (i + 1) * 2^a. */
  lemma LeafIndexInTree(i: nat, a: nat, idx: nat)
    requires idx < Pow2(a)
    ensures i * Pow2(a) <= LeafIndex(i, a, idx) < (i + 1) * Pow2(a)
  {
    ShlIsMul(i, a);
    ShlIsMul(i + 1, a);
    ShlNext(i, a);
  }

  /** Every authentication node lies in tree i at its own level:
      i * 2^(a - j) <= node < (i + 1) * 2^(a - j). */
  lemma AuthIndexInTree(i: nat, a: nat, j: nat, idx: nat)
    requires idx < Pow2(a) && j < a
    ensures i * Pow2(a - j) <= AuthIndex(i, a, j, idx) < (i + 1) * Pow2(a - j)
  {
    var m := a - j;
    ShlIsMul(i, m);
    ShlIsMul(i + 1, m);
    ShlNext(i, m);
    assert m + j == a;
    ShrBelow(idx, m, j);
    assert Pow2(m) == 2 * Pow2(m - 1);
  }

  /** The level-j authentication node is the sibling of the level-j ancestor
      of the leaf: shifting the leaf index right by j and flipping the lowest
      bit gives the same node. */
  lemma AuthIsSibling(i: nat, a: nat, j: nat, idx: nat)
    requires j < a
    ensures AuthIndex(i, a, j, idx) == XorOne(Shr(LeafIndex(i, a, idx), j))
  {
    var m := a - j;
    assert m + j == a;
    ShrOverShl(i, m, j, idx);
    assert Shl(i, m) == 2 * Shl(i, m - 1);
  }

  class Fors {
    const sha: seq<byte> -> Digest
    const repr: Adrs -> seq<byte>
    const n: int
    const a: nat
    const k: int

    constructor (sha: seq<byte> -> Digest, repr: Adrs -> seq<byte>, n: int, a: nat, k: int)
      ensures this.sha == sha && this.repr == repr && this.n == n && this.a == a && this.k == k
    {
      this.sha := sha;
      this.repr := repr;
      this.n := n;
      this.a := a;
      this.k := k;
    }

    function Prf(pkSeed: seq<byte>, skSeed: seq<byte>, adrs: Adrs): Digest {
      sha(pkSeed + skSeed + repr(adrs))
    }

    function Hf(pkSeed: seq<byte>, adrs: Adrs, m: seq<byte>): Digest {
      sha(pkSeed + repr(adrs) + m)
    }

    function Hh(pkSeed: seq<byte>, adrs: Adrs, nodes: seq<byte>): Digest {
      sha(pkSeed + repr(adrs) + nodes)
    }

    /** `sk_adrs` of `fors_sk_gen`: a copy typed FORS_PRF, the caller's key
        pair written back, tree index idx. */
    method SkCopy(adrs: Adrs, idx: int) returns (c: Adrs)
      ensures fresh(c) && c.View() == Fields(adrs.keyPair, 0, idx, FORS_PRF)
    {
      c := adrs.Copy();
      c.SetTypeAndClear(FORS_PRF);
      c.SetKeyPairAddress(adrs.keyPair);
      c.SetTreeIndex(idx);
    }

    /** `fors_sk_gen(sk_seed, pk_seed, adrs, idx)`: hashes a copy and leaves
        the caller's record alone. */
    method ForsSkGen(skSeed: seq<byte>, pkSeed: seq<byte>, adrs: Adrs, idx: int) returns (sk: Digest)
      ensures adrs.View() == old(adrs.View())
    {
      var skAdrs := SkCopy(adrs, idx);
      sk := Prf(pkSeed, skSeed, skAdrs);
    }

    /** `fors_node(sk_seed, i, z, pk_seed, adrs)`: the record ends with height
        z and tree index i; its type and key pair are never touched. */
    method ForsNode(skSeed: seq<byte>, i: int, z: nat, pkSeed: seq<byte>, adrs: Adrs) returns (node: Digest)
      modifies adrs
      ensures adrs.View() == old(adrs.View()).(height := z, index := i)
      decreases z
    {
      if z == 0 {
        var sk := ForsSkGen(skSeed, pkSeed, adrs, i);
        adrs.SetTreeHeight(0);
        adrs.SetTreeIndex(i);
        node := Hf(pkSeed, adrs, sk);
      } else {
        var lnode := ForsNode(skSeed, 2 * i, z - 1, pkSeed, adrs);
        var rnode := ForsNode(skSeed, 2 * i + 1, z - 1, pkSeed, adrs);
        adrs.SetTreeHeight(z);
        adrs.SetTreeIndex(i);
        var left: seq<byte> := lnode;
        node := Hh(pkSeed, adrs, left + rnode);
      }
    }

    /** Where `fors_sign` leaves the caller's record f after the first i
        trees: each `fors_node` call writes its own height and index, so the
        record holds those of the last authentication node, the one of height
        a - 1 of tree i - 1; with no tree, or trees of height 0, no call is
        made and f is as it was. */
    function SignedAdrs(f: Fields, indices: seq<nat>, i: nat): (r: Fields)
      requires i <= |indices|
      ensures r.keyPair == f.keyPair && r.typ == f.typ
      ensures i == 0 || a == 0 ==> r == f
      ensures i > 0 && a > 0 ==> r.height == a - 1
      ensures i > 0 && a > 0 && indices[i - 1] < Pow2(a) ==> 2 * (i - 1) <= r.index < 2 * i
    {
      if i == 0 || a == 0 then f
      else if indices[i - 1] < Pow2(a) then
        AuthIndexInTree(i - 1, a, a - 1, indices[i - 1]);
        f.(height := a - 1, index := AuthIndex(i - 1, a, a - 1, indices[i - 1]))
      else f.(height := a - 1, index := AuthIndex(i - 1, a, a - 1, indices[i - 1]))
    }

    /** `fors_sign(message, sk_seed, pk_seed, adrs)`: per tree, the secret of
        the selected leaf and a authentication nodes, each 32 bytes; the
        caller's record ends at the address of the last authentication node,
        with its type and key pair as they were. */
    method ForsSign(message: string, skSeed: seq<byte>, pkSeed: seq<byte>, adrs: Adrs) returns (sigFors: seq<byte>)
      modifies adrs
      ensures |sigFors| == 32 * (Passes(k) * (a + 1))
      ensures adrs.keyPair == old(adrs.keyPair) && adrs.typ == old(adrs.typ)
      ensures adrs.View() == SignedAdrs(old(adrs.View()), Base2b(sha(Utf8(message)), a, k), Passes(k))
    {
      sigFors := [];
      var md := sha(Utf8(message));
      var indices := Base2b(md, a, k);
      ghost var f := adrs.View();
      for i := 0 to Passes(k)
        invariant |sigFors| == 32 * (i * (a + 1))
        invariant adrs.View() == SignedAdrs(f, indices, i)
      {
        var sk := ForsSkGen(skSeed, pkSeed, adrs, LeafIndex(i, a, indices[i]));
        sigFors := sigFors + sk;
        for j := 0 to a
          invariant |sigFors| == 32 * (i * (a + 1) + 1 + j)
          invariant j == 0 ==> adrs.View() == SignedAdrs(f, indices, i)
          invariant j > 0 ==> adrs.View() == f.(height := j - 1, index := AuthIndex(i, a, j - 1, indices[i]))
        {
          var node := ForsNode(skSeed, AuthIndex(i, a, j, indices[i]), j, pkSeed, adrs);
          sigFors := sigFors + node;
        }
        assert i * (a + 1) + 1 + a == (i + 1) * (a + 1);
      }
    }
  }
}
