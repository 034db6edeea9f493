/** The XMSS and FORS key generation of help.py over the four-field address
    record.

    Every hash reads the address through `str(adrs.__dict__).encode()`,
    which is the parameter `enc` here (a function of the four fields and
    nothing else); SHA-256 is the parameter `sha`. Both classes end key
    generation by hashing the secret key with the fixed message
    `b'Example message'` (`sign_message`). */
module HelpTestbench {
  import opened Common
  import opened AddressFields

  /** The bytes of `b'Example message'`. */
  const ExampleMessage: seq<byte> := [69, 120, 97, 109, 112, 108, 101, 32, 109, 101, 115, 115, 97, 103, 101]

  class Xmss {
    const sha: seq<byte> -> Digest
    const enc: Fields -> seq<byte>
    const n: int
    const w: int
    const hp: int
    const d: int

    constructor (sha: seq<byte> -> Digest, enc: Fields -> seq<byte>, n: int, w: int, hp: int, d: int)
      ensures this.sha == sha && this.enc == enc
      ensures this.n == n && this.w == w && this.hp == hp && this.d == d
    {
      this.sha := sha;
      this.enc := enc;
      this.n := n;
      this.w := w;
      this.hp := hp;
      this.d := d;
    }

    function Prf(pkSeed: seq<byte>, skSeed: seq<byte>, f: Fields): Digest {
      sha(pkSeed + skSeed + enc(f))
    }

    function Hh(pkSeed: seq<byte>, f: Fields, nodes: seq<byte>): Digest {
      sha(pkSeed + enc(f) + nodes)
    }

    /** `sign_message(private_key, message)`. */
    function SignMessage(sk: seq<byte>, message: seq<byte>): Digest {
      sha(sk + message)
    }

    /** `tmp` after i passes of the `wots_pkgen` loop, for the caller's record f:
        pass j hashes, under f with tree index j, the `prf` output for secret j. */
    function WotsTmp(skSeed: seq<byte>, pkSeed: seq<byte>, f: Fields, i: nat): seq<byte>
      decreases i, skSeed
    {
      if i == 0 then []
      else
        WotsTmp(skSeed, pkSeed, f, i - 1)
          + Hh(pkSeed, f.(index := i - 1), Prf(pkSeed, skSeed, WotsPrfAdrs(f, i - 1)))
    }

    lemma {:induction false} WotsTmpLength(skSeed: seq<byte>, pkSeed: seq<byte>, f: Fields, i: nat)
      ensures |WotsTmp(skSeed, pkSeed, f, i)| == 32 * i
      decreases i
    {
      if i > 0 {
        WotsTmpLength(skSeed, pkSeed, f, i - 1);
      }
    }

    /** Block j of `tmp`: the hash, under the caller's record with tree index
        j, of secret j, whose address carries type WOTS_PRF, the caller's key
        pair and tree index j. Later passes never rewrite an earlier block. */
    lemma {:induction false} WotsTmpBlock(skSeed: seq<byte>, pkSeed: seq<byte>, f: Fields, i: nat, j: nat)
      requires j < i
      ensures |WotsTmp(skSeed, pkSeed, f, i)| == 32 * i
      ensures WotsTmp(skSeed, pkSeed, f, i)[32 * j..32 * j + 32]
        == Hh(pkSeed, f.(index := j), Prf(pkSeed, skSeed, Fields(f.keyPair, 0, j, WOTS_PRF)))
      decreases i
    {
      WotsTmpLength(skSeed, pkSeed, f, i);
      WotsTmpLength(skSeed, pkSeed, f, i - 1);
      var prev := WotsTmp(skSeed, pkSeed, f, i - 1);
      var last := Hh(pkSeed, f.(index := i - 1), Prf(pkSeed, skSeed, WotsPrfAdrs(f, i - 1)));
      assert WotsTmp(skSeed, pkSeed, f, i) == prev + last;
      if j < i - 1 {
        WotsTmpBlock(skSeed, pkSeed, f, i - 1, j);
        assert (prev + last)[32 * j..32 * j + 32] == prev[32 * j..32 * j + 32];
      } else {
        assert (prev + last)[32 * j..32 * j + 32] == last;
      }
    }

    /** The WOTS+ public key for the caller's record f: `tmp` of all `n`
        passes, compressed under the WOTS_PK copy. */
    function WotsPk(skSeed: seq<byte>, pkSeed: seq<byte>, f: Fields): Digest {
      Hh(pkSeed, WotsPkAdrs(f), WotsTmp(skSeed, pkSeed, f, Passes(n)))
    }

    /** `wots_pkgen(sk_seed, pk_seed, adrs)`. */
    method WotsPkgen(skSeed: seq<byte>, pkSeed: seq<byte>, adrs: Adrs) returns (pk: Digest)
      modifies adrs
      ensures pk == WotsPk(skSeed, pkSeed, old(adrs.View()))
      ensures adrs.View() == WotsAfter(old(adrs.View()), n)
    {
      ghost var f := adrs.View();
      var skAdrs := adrs.Copy();
      skAdrs.SetTypeAndClear(WOTS_PRF);
      skAdrs.SetKeyPairAddress(adrs.keyPair);
      var tmp: seq<byte> := [];
      for i := 0 to Passes(n)
        invariant fresh(skAdrs)
        invariant skAdrs.keyPair == f.keyPair && skAdrs.height == 0 && skAdrs.typ == WOTS_PRF
        invariant adrs.View() == WotsAfter(f, i)
        invariant tmp == WotsTmp(skSeed, pkSeed, f, i)
      {
        skAdrs.SetTreeIndex(i);
        var sk := Prf(pkSeed, skSeed, skAdrs.View());
        adrs.SetTreeIndex(i);
        tmp := tmp + Hh(pkSeed, adrs.View(), sk);
      }
      var wotspkAdrs := adrs.Copy();
      wotspkAdrs.SetTypeAndClear(WOTS_PK);
      WotsPkAdrsAfterLoop(f, n);
      pk := Hh(pkSeed, wotspkAdrs.View(), tmp);
    }

    /** The value of `xmss_node(sk_seed, i, z, pk_seed, adrs)`. It depends on
        i and z only: a leaf overwrites every field of the caller's record
        before it hashes, and an inner node hashes its TREE address, whose key
        pair is the last leaf's. */
    function NodeValue(skSeed: seq<byte>, pkSeed: seq<byte>, i: int, z: nat): Digest
      decreases z, 1, skSeed
    {
      if z == 0 then WotsPk(skSeed, pkSeed, LeafAdrs(i))
      else Hh(pkSeed, TreeAdrs(i, z), ChildValues(skSeed, pkSeed, i, z))
    }

    /** `lnode + rnode` of node (i, z). */
    function ChildValues(skSeed: seq<byte>, pkSeed: seq<byte>, i: int, z: nat): seq<byte>
      requires 0 < z
      decreases z, 0, skSeed
    {
      NodeValue(skSeed, pkSeed, 2 * i, z - 1) + NodeValue(skSeed, pkSeed, 2 * i + 1, z - 1)
    }

    /** `xmss_node(sk_seed, i, z, pk_seed, adrs)`: the caller's record ends
        as the address of the node just computed (for a leaf, as `wots_pkgen`
        left it), with key pair (i + 1) * 2^z - 1. */
    method XmssNode(skSeed: seq<byte>, i: int, z: nat, pkSeed: seq<byte>, adrs: Adrs) returns (node: Digest)
      modifies adrs
      ensures node == NodeValue(skSeed, pkSeed, i, z)
      ensures adrs.View() == XmssNodeAfter(n, i, z)
      decreases z
    {
      if z == 0 {
        adrs.SetTypeAndClear(WOTS_HASH);
        adrs.SetKeyPairAddress(i);
        node := WotsPkgen(skSeed, pkSeed, adrs);
      } else {
        var lnode := XmssNode(skSeed, 2 * i, z - 1, pkSeed, adrs);
        var rnode := XmssNode(skSeed, 2 * i + 1, z - 1, pkSeed, adrs);
        LastLeafOfRightChild(i, z);
        adrs.SetTypeAndClear(TREE);
        adrs.SetTreeHeight(z);
        adrs.SetTreeIndex(i);
        var left: seq<byte> := lnode;
        node := Hh(pkSeed, adrs.View(), left + rnode);
      }
    }

    /** `slh_keygen_internal(sk_seed, sk_prf, pk_seed)`: the root is node
        (0, hp) computed over a fresh record, and the "signature" hashes the
        secret key with `b'Example message'`. */
    method SlhKeygenInternal(skSeed: seq<byte>, skPrf: seq<byte>, pkSeed: seq<byte>)
      returns (pk: seq<byte>, sk: seq<byte>, signature: Digest)
      requires 0 <= hp
      ensures pk == pkSeed + NodeValue(skSeed, pkSeed, 0, hp)
      ensures sk == skSeed + skPrf + pkSeed + NodeValue(skSeed, pkSeed, 0, hp)
      ensures sk[|skSeed| + |skPrf|..] == pk
      ensures signature == SignMessage(sk, ExampleMessage)
    {
      var adrs := new Adrs();
      var pkRoot := XmssNode(skSeed, 0, hp, pkSeed, adrs);
      sk := skSeed + skPrf + pkSeed + pkRoot;
      pk := pkSeed + pkRoot;
      assert sk == (skSeed + skPrf) + pk;
      signature := SignMessage(sk, ExampleMessage);
    }
  }

  class Fors {
    const sha: seq<byte> -> Digest
    const enc: Fields -> seq<byte>
    const n: int
    const a: int
    const k: int

    constructor (sha: seq<byte> -> Digest, enc: Fields -> seq<byte>, n: int, a: int, k: int)
      ensures this.sha == sha && this.enc == enc && this.n == n && this.a == a && this.k == k
    {
      this.sha := sha;
      this.enc := enc;
      this.n := n;
      this.a := a;
      this.k := k;
    }

    function Prf(pkSeed: seq<byte>, skSeed: seq<byte>, f: Fields): Digest {
      sha(pkSeed + skSeed + enc(f))
    }

    function Hf(pkSeed: seq<byte>, f: Fields, m: seq<byte>): Digest {
      sha(pkSeed + enc(f) + m)
    }

    function SignMessage(sk: seq<byte>, message: seq<byte>): Digest {
      sha(sk + message)
    }

    /** The value of `fors_gen_leaf` for a record with key pair kp. Both of its
        addresses come from `set_type_and_clear`, which clears the height and
        the tree index, so nothing but the key pair reaches the hashes. */
    function LeafValue(skSeed: seq<byte>, pkSeed: seq<byte>, kp: int): Digest {
      Hf(pkSeed, Fields(kp, 0, 0, FORS_ROOTS), Prf(pkSeed, skSeed, Fields(kp, 0, 0, FORS_PRF)))
    }

    /** `fors_gen_leaf(sk_seed, pk_seed, adrs)`: the record is left typed
        FORS_ROOTS with height and index zero and its key pair unchanged. */
    method ForsGenLeaf(skSeed: seq<byte>, pkSeed: seq<byte>, adrs: Adrs) returns (leaf: Digest)
      modifies adrs
      ensures leaf == LeafValue(skSeed, pkSeed, old(adrs.keyPair))
      ensures adrs.View() == Fields(old(adrs.keyPair), 0, 0, FORS_ROOTS)
    {
      adrs.SetTypeAndClear(FORS_PRF);
      var sk := Prf(pkSeed, skSeed, adrs.View());
      adrs.SetTypeAndClear(FORS_ROOTS);
      leaf := Hf(pkSeed, adrs.View(), sk);
    }

    /** Where `fors_treehash(sk_seed, pk_seed, s, t, adrs)` leaves the record
        with key pair kp: typed FORS_ROOTS, height t, tree index s // 2^t for
        t > 0; a leaf leaves what `fors_gen_leaf` left. */
    function TreehashAdrs(s: int, t: nat, kp: int): Fields {
      if t == 0 then Fields(kp, 0, 0, FORS_ROOTS) else Fields(kp, t, s / Pow2(t), FORS_ROOTS)
    }

    /** The value of `fors_treehash(sk_seed, pk_seed, s, t, adrs)` for a record
        with key pair kp. */
    function TreehashValue(skSeed: seq<byte>, pkSeed: seq<byte>, s: int, t: nat, kp: int): Digest
      decreases t, 1, skSeed
    {
      if t == 0 then LeafValue(skSeed, pkSeed, kp)
      else Hf(pkSeed, TreehashAdrs(s, t, kp), TreehashChildren(skSeed, pkSeed, s, t, kp))
    }

    /** `lnode + rnode`: the subtrees starting at s and at s + 2^(t - 1). */
    function TreehashChildren(skSeed: seq<byte>, pkSeed: seq<byte>, s: int, t: nat, kp: int): seq<byte>
      requires 0 < t
      decreases t, 0, skSeed
    {
      TreehashValue(skSeed, pkSeed, s, t - 1, kp) + TreehashValue(skSeed, pkSeed, s + Pow2(t - 1), t - 1, kp)
    }

    /** `fors_treehash(sk_seed, pk_seed, s, t, adrs)`. `1 << (t - 1)` is
        2^(t - 1), and `//` by a positive divisor rounds down as `/` does. */
    method ForsTreehash(skSeed: seq<byte>, pkSeed: seq<byte>, s: int, t: nat, adrs: Adrs) returns (node: Digest)
      modifies adrs
      ensures node == TreehashValue(skSeed, pkSeed, s, t, old(adrs.keyPair))
      ensures adrs.View() == TreehashAdrs(s, t, old(adrs.keyPair))
      decreases t
    {
      if t == 0 {
        adrs.SetTreeIndex(s);
        node := ForsGenLeaf(skSeed, pkSeed, adrs);
        return;
      }
      var lnode := ForsTreehash(skSeed, pkSeed, s, t - 1, adrs);
      var rnode := ForsTreehash(skSeed, pkSeed, s + Pow2(t - 1), t - 1, adrs);
      adrs.SetTypeAndClear(FORS_ROOTS);
      adrs.SetTreeHeight(t);
      adrs.SetTreeIndex(s / Pow2(t));
      var left: seq<byte> := lnode;
      node := Hf(pkSeed, adrs.View(), left + rnode);
    }

    /** When 2^t divides s, so that s starts the node s / 2^t of height t,
        the two child starts are multiples of 2^(t - 1) and start the nodes
        2 (s / 2^t) and 2 (s / 2^t) + 1 of height t - 1. */
    lemma ChildStarts(s: int, t: nat)
      requires 0 < t && s % Pow2(t) == 0
      ensures s % Pow2(t - 1) == 0 && (s + Pow2(t - 1)) % Pow2(t - 1) == 0
      ensures s / Pow2(t - 1) == 2 * (s / Pow2(t))
      ensures (s + Pow2(t - 1)) / Pow2(t - 1) == 2 * (s / Pow2(t)) + 1
    {
      var p, q := Pow2(t), Pow2(t - 1);
      var m := s / p;
      assert p == 2 * q;
      assert s == m * p;
      assert s == (2 * m) * q by { MulAssoc(m, 2, q); }
      DivMod(s, q, 2 * m, 0);
      assert s + q == (2 * m + 1) * q;
      DivMod(s + q, q, 2 * m + 1, 0);
    }

    /** The FORS tree node of height t and index i by position (children 2i
        and 2i + 1, as in the index form of the algorithm), with the
        addresses `fors_treehash` hashes. */
    function PositionValue(skSeed: seq<byte>, pkSeed: seq<byte>, i: int, t: nat, kp: int): Digest
      decreases t, skSeed
    {
      if t == 0 then LeafValue(skSeed, pkSeed, kp)
      else Hf(pkSeed, Fields(kp, t, i, FORS_ROOTS),
              PositionValue(skSeed, pkSeed, 2 * i, t - 1, kp) + PositionValue(skSeed, pkSeed, 2 * i + 1, t - 1, kp))
    }

    /** Started at an aligned offset s = i * 2^t, `fors_treehash` computes node
        i of height t by position. */
    lemma TreehashByPosition(skSeed: seq<byte>, pkSeed: seq<byte>, i: int, t: nat, kp: int)
      ensures TreehashValue(skSeed, pkSeed, i * Pow2(t), t, kp) == PositionValue(skSeed, pkSeed, i, t, kp)
    {
      TreehashAt(skSeed, pkSeed, i * Pow2(t), i, t, kp);
    }

    /** The induction behind `TreehashByPosition`, over the start s itself. */
    lemma {:induction false} TreehashAt(skSeed: seq<byte>, pkSeed: seq<byte>, s: int, i: int, t: nat, kp: int)
      requires s == i * Pow2(t)
      ensures TreehashValue(skSeed, pkSeed, s, t, kp) == PositionValue(skSeed, pkSeed, i, t, kp)
      decreases t
    {
      if t > 0 {
        assert s % Pow2(t) == 0 && s / Pow2(t) == i by { DivMod(s, Pow2(t), i, 0); }
        ChildStarts(s, t);
        var q := Pow2(t - 1);
        assert s == (2 * i) * q by { DivMod(s, q, 2 * i, 0); }
        assert s + q == (2 * i + 1) * q;
        TreehashAt(skSeed, pkSeed, s, 2 * i, t - 1, kp);
        TreehashAt(skSeed, pkSeed, s + q, 2 * i + 1, t - 1, kp);
      }
    }

    /** Every leaf of one FORS tree has the same value: `fors_gen_leaf` clears
        the tree index that `fors_treehash` set for it. */
    lemma LeavesAgree(skSeed: seq<byte>, pkSeed: seq<byte>, s: int, s': int, kp: int)
      ensures TreehashValue(skSeed, pkSeed, s, 0, kp) == TreehashValue(skSeed, pkSeed, s', 0, kp)
    {
    }

    /** `fors_pk` after the first m trees: tree i is computed from start 0
        and height a under key pair i. */
    function ForsPk(skSeed: seq<byte>, pkSeed: seq<byte>, m: nat): seq<byte>
      requires 0 <= a
      decreases m, skSeed
    {
      if m == 0 then [] else ForsPk(skSeed, pkSeed, m - 1) + TreehashValue(skSeed, pkSeed, 0, a, m - 1)
    }

    /** `fors_pk` has one 32-byte root per tree, root i in block i. */
    lemma {:induction false} ForsPkBlock(skSeed: seq<byte>, pkSeed: seq<byte>, m: nat, i: nat)
      requires 0 <= a && i < m
      ensures |ForsPk(skSeed, pkSeed, m)| == 32 * m
      ensures ForsPk(skSeed, pkSeed, m)[32 * i..32 * i + 32] == TreehashValue(skSeed, pkSeed, 0, a, i)
      decreases m
    {
      ForsPkLength(skSeed, pkSeed, m - 1);
      var prev := ForsPk(skSeed, pkSeed, m - 1);
      var last := TreehashValue(skSeed, pkSeed, 0, a, m - 1);
      assert ForsPk(skSeed, pkSeed, m) == prev + last;
      if i < m - 1 {
        ForsPkBlock(skSeed, pkSeed, m - 1, i);
        SliceOfLeft(prev, last, 32 * i, 32 * i + 32);
      } else {
        SliceOfRight(prev, last, 32 * i, 32 * i + 32);
      }
    }

    lemma {:induction false} ForsPkLength(skSeed: seq<byte>, pkSeed: seq<byte>, m: nat)
      requires 0 <= a
      ensures |ForsPk(skSeed, pkSeed, m)| == 32 * m
      decreases m
    {
      if m > 0 {
        ForsPkLength(skSeed, pkSeed, m - 1);
      }
    }

    /** `fors_pkgen(sk_seed, pk_seed, adrs)`: k roots, the record left with
        key pair k - 1 and as the last root's `fors_treehash` left it. */
    method ForsPkgen(skSeed: seq<byte>, pkSeed: seq<byte>, adrs: Adrs) returns (forsPk: seq<byte>)
      requires 0 <= a
      modifies adrs
      ensures forsPk == ForsPk(skSeed, pkSeed, Passes(k))
      ensures adrs.View() == if k <= 0 then old(adrs.View()) else TreehashAdrs(0, a, k - 1)
    {
      forsPk := [];
      for i := 0 to Passes(k)
        invariant forsPk == ForsPk(skSeed, pkSeed, i)
        invariant adrs.View() == if i == 0 then old(adrs.View()) else TreehashAdrs(0, a, i - 1)
      {
        adrs.SetKeyPairAddress(i);
        var root := ForsTreehash(skSeed, pkSeed, 0, a, adrs);
        forsPk := forsPk + root;
      }
    }

    /** `fors_keygen_internal(sk_seed, sk_prf, pk_seed)` over a fresh record. */
    method ForsKeygenInternal(skSeed: seq<byte>, skPrf: seq<byte>, pkSeed: seq<byte>)
      returns (pk: seq<byte>, sk: seq<byte>, signature: Digest)
      requires 0 <= a
      ensures pk == pkSeed + ForsPk(skSeed, pkSeed, Passes(k))
      ensures sk == skSeed + skPrf + pkSeed + ForsPk(skSeed, pkSeed, Passes(k))
      ensures sk[|skSeed| + |skPrf|..] == pk
      ensures |pk| == |pkSeed| + 32 * Passes(k)
      ensures signature == SignMessage(sk, ExampleMessage)
    {
      var adrs := new Adrs();
      var forsPk := ForsPkgen(skSeed, pkSeed, adrs);
      ForsPkLength(skSeed, pkSeed, Passes(k));
      sk := skSeed + skPrf + pkSeed + forsPk;
      pk := pkSeed + forsPk;
      assert sk == (skSeed + skPrf) + pk;
      signature := SignMessage(sk, ExampleMessage);
    }
  }
}
