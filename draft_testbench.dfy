/** The XMSS key generation of testbenchdraft.py over the 32-byte address
    buffer.

    This draft is simpler than SWtestbench.py: `wots_pkgen` has no chains
    (pass i hashes the `prf` output once with `h_h` under the caller's
    address with tree index i), the compression address is typed WOTS_PK
    with its key pair cleared, `xmss_node` does not check the requested
    (index, height) against the tree, and `prf` puts the public seed first.
    The type constants are numbered differently too. SHA-256 is the
    parameter `sha`. */
module DraftTestbench {
  import opened Common
  import opened AddressBytes

  const WOTS_PRF: Word := 0
  const WOTS_HASH: Word := 1
  const TREE: Word := 2
  const WOTS_PK: Word := 3

  class Xmss {
    const sha: seq<byte> -> Digest
    const n: int
    const w: int
    const hp: nat
    const d: int

    constructor (sha: seq<byte> -> Digest, n: int, w: int, hp: nat, d: int)
      ensures this.sha == sha && this.n == n && this.w == w && this.hp == hp && this.d == d
    {
      this.sha := sha;
      this.n := n;
      this.w := w;
      this.hp := hp;
      this.d := d;
    }

    /** Every tree index the `wots_pkgen` loop writes (below `n`) fits in four bytes. */
    predicate WotsFits() {
      n <= TwoTo32
    }

    /** Number of passes of the loop `for i in range(self.n)`. */
    function Loops(): nat {
      if n < 0 then 0 else n
    }

    function Prf(pkSeed: seq<byte>, skSeed: seq<byte>, adrs: seq<byte>): Digest {
      sha(pkSeed + skSeed + adrs)
    }

    function Hh(pkSeed: seq<byte>, adrs: seq<byte>, nodes: seq<byte>): Digest {
      sha(pkSeed + adrs + nodes)
    }

    /** `sk_adrs` before the loop: the caller's fields typed WOTS_PRF, with the
        caller's key pair put back. */
    function SkBase(f: Fields): (r: Fields)
      ensures r.layer == f.layer && r.tree == f.tree && r.typ == Be32(WOTS_PRF)
      ensures r.keyPair == f.keyPair && r.height == Zeros(4) && r.index == Zeros(4)
    {
      TypeAndClear(f, Be32(WOTS_PRF)).(keyPair := f.keyPair)
    }

    /** Address of secret value i: type WOTS_PRF, the caller's key pair, index i. */
    function SkAdrs(f: Fields, i: Word): Fields {
      SkBase(f).(index := Be32(i))
    }

    /** The compression address: type WOTS_PK; `set_type_and_clear` has cleared
        the key pair and nothing puts it back. */
    function PkAdrs(f: Fields): Fields {
      TypeAndClear(f, Be32(WOTS_PK))
    }

    /** `tmp` after i passes: pass j hashes the `prf` output of secret address
        j under the caller's fields with index j. */
    function WotsTmp(skSeed: seq<byte>, pkSeed: seq<byte>, f: Fields, i: nat): seq<byte>
      requires i <= TwoTo32
      decreases i, skSeed
    {
      if i == 0 then []
      else
        WotsTmp(skSeed, pkSeed, f, i - 1)
          + Hh(pkSeed, Encode(f.(index := Be32(i - 1))), Prf(pkSeed, skSeed, Encode(SkAdrs(f, i - 1))))
    }

    /** The caller's fields after i passes: the last pass wrote index i - 1. */
    function AfterLoop(f: Fields, i: nat): Fields
      requires i <= TwoTo32
    {
      if i == 0 then f else f.(index := Be32(i - 1))
    }

    /** The public key of the key pair the fields address. */
    function WotsPk(skSeed: seq<byte>, pkSeed: seq<byte>, f: Fields): Digest
      requires WotsFits()
    {
      Hh(pkSeed, Encode(PkAdrs(f)), WotsTmp(skSeed, pkSeed, f, Loops()))
    }

    /** `tmp` holds one 32-byte hash per pass. */
    lemma {:induction false} WotsTmpLength(skSeed: seq<byte>, pkSeed: seq<byte>, f: Fields, i: nat)
      requires i <= TwoTo32
      ensures |WotsTmp(skSeed, pkSeed, f, i)| == 32 * i
    {
      if i > 0 {
        WotsTmpLength(skSeed, pkSeed, f, i - 1);
      }
    }

    /** Later passes only append: `tmp` after m passes is the first 32 * m
        bytes of `tmp` after any i >= m passes. */
    lemma {:induction false} WotsTmpPrefix(skSeed: seq<byte>, pkSeed: seq<byte>, f: Fields, m: nat, i: nat)
      requires m <= i <= TwoTo32
      ensures |WotsTmp(skSeed, pkSeed, f, i)| == 32 * i
      ensures WotsTmp(skSeed, pkSeed, f, i)[..32 * m] == WotsTmp(skSeed, pkSeed, f, m)
      decreases i
    {
      WotsTmpLength(skSeed, pkSeed, f, i);
      WotsTmpLength(skSeed, pkSeed, f, m);
      if m < i {
        WotsTmpPrefix(skSeed, pkSeed, f, m, i - 1);
        var p := WotsTmp(skSeed, pkSeed, f, i - 1);
        var c := Hh(pkSeed, Encode(f.(index := Be32(i - 1))), Prf(pkSeed, skSeed, Encode(SkAdrs(f, i - 1))));
        assert WotsTmp(skSeed, pkSeed, f, i) == p + c;
        TakeOfLeft(p, c, 32 * m);
      }
    }

    /** Block j of `tmp` is what pass j appended: `h_h` under the caller's
        fields with index j of the `prf` output for secret address j. */
    lemma WotsTmpBlock(skSeed: seq<byte>, pkSeed: seq<byte>, f: Fields, i: nat, j: nat)
      requires j < i <= TwoTo32
      ensures |WotsTmp(skSeed, pkSeed, f, i)| == 32 * i
      ensures WotsTmp(skSeed, pkSeed, f, i)[32 * j..32 * j + 32]
        == Hh(pkSeed, Encode(f.(index := Be32(j))), Prf(pkSeed, skSeed, Encode(SkAdrs(f, j))))
    {
      WotsTmpPrefix(skSeed, pkSeed, f, j + 1, i);
      WotsTmpLength(skSeed, pkSeed, f, j);
      var s := WotsTmp(skSeed, pkSeed, f, i);
      var q := WotsTmp(skSeed, pkSeed, f, j + 1);
      var c := Hh(pkSeed, Encode(f.(index := Be32(j))), Prf(pkSeed, skSeed, Encode(SkAdrs(f, j))));
      assert q == WotsTmp(skSeed, pkSeed, f, j) + c;
      SliceOfPrefix(s, q, 32 * j, 32 * j + 32);
      SliceOfRight(WotsTmp(skSeed, pkSeed, f, j), c, 32 * j, 32 * j + 32);
      assert q[32 * j..] == q[32 * j..32 * j + 32];
    }

    /** The body of the loop for pass i; `f` holds the caller's fields before it. */
    method WotsPass(skSeed: seq<byte>, pkSeed: seq<byte>, ghost f: Fields, i: nat, skAdrs: Adrs, adrs: Adrs)
      returns (c: Digest)
      requires skAdrs.Valid() && adrs.Valid() && skAdrs.a != adrs.a && WotsFits() && i < Loops()
      requires skAdrs.view == if i == 0 then SkBase(f) else SkAdrs(f, i - 1)
      requires adrs.view == AfterLoop(f, i)
      modifies skAdrs, skAdrs.a, adrs, adrs.a
      ensures skAdrs.Valid() && skAdrs.view == SkAdrs(f, i)
      ensures adrs.Valid() && adrs.view == AfterLoop(f, i + 1)
      ensures c == Hh(pkSeed, Encode(f.(index := Be32(i))), Prf(pkSeed, skSeed, Encode(SkAdrs(f, i))))
    {
      var _ := skAdrs.SetTreeIndex(i);
      var sk := Prf(pkSeed, skSeed, skAdrs.a[..]);
      var _ := adrs.SetTreeIndex(i);
      c := Hh(pkSeed, adrs.a[..], sk);
    }

    /** The first three lines of `wots_pkgen`: copy the buffer, type it
        WOTS_PRF (clearing key pair, height and index) and put back the
        caller's key pair. */
    method SkCopy(adrs: Adrs) returns (c: Adrs)
      requires adrs.Valid()
      ensures fresh(c) && fresh(c.a) && c.Valid() && c.view == SkBase(adrs.view)
    {
      c := adrs.Copy();
      var _ := c.SetTypeAndClear(WOTS_PRF);
      var kp := adrs.GetKeyPairAddress();
      var _ := c.SetKeyPairAddress(kp);
    }

    /** `wotspk_adrs` of `wots_pkgen`: a copy typed WOTS_PK. */
    method PkCopy(adrs: Adrs) returns (c: Adrs)
      requires adrs.Valid()
      ensures fresh(c) && fresh(c.a) && c.Valid() && c.view == PkAdrs(adrs.view)
    {
      c := adrs.Copy();
      var _ := c.SetTypeAndClear(WOTS_PK);
    }

    /** `wots_pkgen(sk_seed, pk_seed, adrs)`. */
    method WotsPkgen(skSeed: seq<byte>, pkSeed: seq<byte>, adrs: Adrs) returns (pk: Digest)
      requires adrs.Valid() && WotsFits()
      modifies adrs, adrs.a
      ensures pk == WotsPk(skSeed, pkSeed, old(adrs.view))
      ensures adrs.Valid() && adrs.view == AfterLoop(old(adrs.view), Loops())
    {
      ghost var f := adrs.view;
      var skAdrs := SkCopy(adrs);
      var tmp: seq<byte> := [];
      for i := 0 to Loops()
        invariant fresh(skAdrs) && fresh(skAdrs.a) && skAdrs.Valid() && adrs.Valid()
        invariant skAdrs.view == if i == 0 then SkBase(f) else SkAdrs(f, i - 1)
        invariant adrs.view == AfterLoop(f, i)
        invariant tmp == WotsTmp(skSeed, pkSeed, f, i)
      {
        var c := WotsPass(skSeed, pkSeed, f, i, skAdrs, adrs);
        tmp := tmp + c;
      }
      var wotspkAdrs := PkCopy(adrs);
      assert PkAdrs(adrs.view) == PkAdrs(f);
      pk := Hh(pkSeed, wotspkAdrs.a[..], tmp);
    }

    /** The address of leaf i of the tree (layer, tree): type WOTS_HASH, key pair i. */
    function LeafAdrs(layer: Bytes4, tree: TreeBytes, i: Word): Fields {
      Fields(layer, tree, Be32(WOTS_HASH), Be32(i), Zeros(4), Zeros(4))
    }

    /** The address of inner node (i, z): type TREE, key pair 0, height z, index i. */
    function TreeAdrs(layer: Bytes4, tree: TreeBytes, i: Word, z: Word): Fields {
      Fields(layer, tree, Be32(TREE), Zeros(4), Be32(z), Be32(i))
    }

    /** The fields `xmss_node(sk_seed, i, z, pk_seed, adrs)` leaves: a leaf
        leaves what `wots_pkgen` left, an inner node its own TREE address;
        either way the layer and tree words are those of the caller. */
    function NodeAfter(i: nat, z: nat, f: Fields): (r: Fields)
      requires WotsFits() && SubtreeFits(i, z)
      ensures r.layer == f.layer && r.tree == f.tree
    {
      SubtreeFitsFacts(i, z);
      if z == 0 then AfterLoop(LeafAdrs(f.layer, f.tree, i), Loops()) else TreeAdrs(f.layer, f.tree, i, z)
    }

    /** The value of node (i, z) of the tree whose layer and tree words are
        `layer` and `tree`: a leaf is the public key of key pair i; an inner
        node hashes its TREE address with the values of its children. Nothing
        else of the caller's buffer enters it: every path through `xmss_node`
        overwrites the type, key pair, height and index before it hashes. */
    function NodeValue(skSeed: seq<byte>, i: nat, z: nat, pkSeed: seq<byte>, layer: Bytes4, tree: TreeBytes): Digest
      requires WotsFits() && SubtreeFits(i, z)
      decreases z, 1, skSeed
    {
      SubtreeFitsFacts(i, z);
      if z == 0 then WotsPk(skSeed, pkSeed, LeafAdrs(layer, tree, i))
      else Hh(pkSeed, Encode(TreeAdrs(layer, tree, i, z)), ChildValues(skSeed, i, z, pkSeed, layer, tree))
    }

    /** `lnode + rnode`: the values of children 2i and 2i + 1 of node (i, z). */
    function ChildValues(skSeed: seq<byte>, i: nat, z: nat, pkSeed: seq<byte>, layer: Bytes4, tree: TreeBytes): seq<byte>
      requires WotsFits() && SubtreeFits(i, z) && 0 < z
      decreases z, 0, skSeed
    {
      SubtreeFitsFacts(i, z);
      NodeValue(skSeed, 2 * i, z - 1, pkSeed, layer, tree) + NodeValue(skSeed, 2 * i + 1, z - 1, pkSeed, layer, tree)
    }

    /** One step of `NodeValue` above the leaves. */
    lemma NodeValueInner(skSeed: seq<byte>, i: nat, z: nat, pkSeed: seq<byte>, layer: Bytes4, tree: TreeBytes)
      requires WotsFits() && SubtreeFits(i, z) && 0 < z
      ensures Fits(i) && Fits(z)
      ensures SubtreeFits(2 * i, z - 1) && SubtreeFits(2 * i + 1, z - 1)
      ensures NodeValue(skSeed, i, z, pkSeed, layer, tree)
        == Hh(pkSeed, Encode(TreeAdrs(layer, tree, i, z)),
              NodeValue(skSeed, 2 * i, z - 1, pkSeed, layer, tree) + NodeValue(skSeed, 2 * i + 1, z - 1, pkSeed, layer, tree))
    {
      SubtreeFitsFacts(i, z);
    }

    /** `xmss_node(sk_seed, i, z, pk_seed, adrs)`. */
    method XmssNode(skSeed: seq<byte>, i: nat, z: nat, pkSeed: seq<byte>, adrs: Adrs) returns (node: Digest)
      requires adrs.Valid() && WotsFits() && SubtreeFits(i, z)
      modifies adrs, adrs.a
      ensures adrs.Valid()
      ensures node == NodeValue(skSeed, i, z, pkSeed, old(adrs.view.layer), old(adrs.view.tree))
      ensures adrs.view == NodeAfter(i, z, old(adrs.view))
      decreases z, 3
    {
      if z == 0 {
        node := LeafNode(skSeed, i, pkSeed, adrs);
      } else {
        node := InnerNode(skSeed, i, z, pkSeed, adrs);
      }
    }

    /** The `z == 0` branch: the public key of key pair i. */
    method LeafNode(skSeed: seq<byte>, i: nat, pkSeed: seq<byte>, adrs: Adrs) returns (v: Digest)
      requires adrs.Valid() && WotsFits() && SubtreeFits(i, 0)
      modifies adrs, adrs.a
      ensures adrs.Valid()
      ensures v == NodeValue(skSeed, i, 0, pkSeed, old(adrs.view.layer), old(adrs.view.tree))
      ensures adrs.view == NodeAfter(i, 0, old(adrs.view))
    {
      SubtreeFitsFacts(i, 0);
      ghost var f := adrs.view;
      var _ := adrs.SetTypeAndClear(WOTS_HASH);
      var _ := adrs.SetKeyPairAddress(i);
      assert adrs.view == LeafAdrs(f.layer, f.tree, i);
      v := WotsPkgen(skSeed, pkSeed, adrs);
    }

    /** The `z > 0` branch: both children, then `h_h` under the node's TREE address. */
    method InnerNode(skSeed: seq<byte>, i: nat, z: nat, pkSeed: seq<byte>, adrs: Adrs) returns (v: Digest)
      requires adrs.Valid() && WotsFits() && 0 < z && SubtreeFits(i, z)
      modifies adrs, adrs.a
      ensures adrs.Valid()
      ensures v == NodeValue(skSeed, i, z, pkSeed, old(adrs.view.layer), old(adrs.view.tree))
      ensures adrs.view == NodeAfter(i, z, old(adrs.view))
      decreases z, 2
    {
      ghost var f := adrs.view;
      NodeValueInner(skSeed, i, z, pkSeed, f.layer, f.tree);
      var l, r := Children(skSeed, i, z, pkSeed, adrs, f.layer, f.tree);
      var _ := adrs.SetTypeAndClear(TREE);
      var _ := adrs.SetTreeHeight(z);
      var _ := adrs.SetTreeIndex(i);
      assert adrs.view == TreeAdrs(f.layer, f.tree, i, z);
      var left: seq<byte> := l;
      var nodes := left + r;
      v := Hh(pkSeed, adrs.a[..], nodes);
    }

    /** The two recursive calls, left child first; the right child starts from
        the fields the left one left behind, whose layer and tree words are
        still the caller's. */
    method Children(skSeed: seq<byte>, i: nat, z: nat, pkSeed: seq<byte>, adrs: Adrs, ghost layer: Bytes4, ghost tree: TreeBytes)
      returns (l: Digest, r: Digest)
      requires adrs.Valid() && WotsFits() && 0 < z && SubtreeFits(i, z)
      requires adrs.view.layer == layer && adrs.view.tree == tree
      modifies adrs, adrs.a
      ensures l == NodeValue(skSeed, 2 * i, z - 1, pkSeed, layer, tree)
      ensures r == NodeValue(skSeed, 2 * i + 1, z - 1, pkSeed, layer, tree)
      ensures adrs.Valid() && adrs.view.layer == layer && adrs.view.tree == tree
      decreases z, 1
    {
      l := Child(skSeed, i, z, false, pkSeed, adrs, layer, tree);
      r := Child(skSeed, i, z, true, pkSeed, adrs, layer, tree);
    }

    /** One recursive call of node (i, z), for its left or right child, seen
        from the parent: the child's value, and the layer and tree words left
        as they were. */
    method Child(skSeed: seq<byte>, i: nat, z: nat, right: bool, pkSeed: seq<byte>, adrs: Adrs, ghost layer: Bytes4, ghost tree: TreeBytes)
      returns (v: Digest)
      requires adrs.Valid() && WotsFits() && 0 < z && SubtreeFits(i, z)
      requires adrs.view.layer == layer && adrs.view.tree == tree
      modifies adrs, adrs.a
      ensures v == NodeValue(skSeed, if right then 2 * i + 1 else 2 * i, z - 1, pkSeed, layer, tree)
      ensures adrs.Valid() && adrs.view.layer == layer && adrs.view.tree == tree
      decreases z, 0
    {
      SubtreeFitsFacts(i, z);
      v := XmssNode(skSeed, if right then 2 * i + 1 else 2 * i, z - 1, pkSeed, adrs);
    }

    /** The root `slh_keygen_internal` computes: node (0, hp) under a fresh
        buffer whose layer word is d - 1. */
    function Root(skSeed: seq<byte>, pkSeed: seq<byte>): Digest
      requires WotsFits() && hp <= 32 && Fits(d - 1)
    {
      NodeValue(skSeed, 0, hp, pkSeed, Be32(d - 1), Zeros(12))
    }

    /** `slh_keygen_internal(sk_seed, sk_prf, pk_seed)`; `ok` is false when
        `set_layer_address(d - 1)` raises. */
    method SlhKeygenInternal(skSeed: seq<byte>, skPrf: seq<byte>, pkSeed: seq<byte>)
      returns (ok: bool, pk: seq<byte>, sk: seq<byte>)
      requires WotsFits() && hp <= 32
      ensures ok <==> Fits(d - 1)
      ensures ok ==> pk == pkSeed + Root(skSeed, pkSeed)
      ensures ok ==> sk == skSeed + skPrf + pkSeed + Root(skSeed, pkSeed)
      ensures ok ==> sk[|skSeed| + |skPrf|..] == pk
    {
      var adrs := new Adrs();
      ok := adrs.SetLayerAddress(d - 1);
      if !ok {
        return false, [], [];
      }
      var pkRoot := XmssNode(skSeed, 0, hp, pkSeed, adrs);
      sk := skSeed + skPrf + pkSeed + pkRoot;
      pk := pkSeed + pkRoot;
      assert sk == (skSeed + skPrf) + pk;
    }
  }
}
