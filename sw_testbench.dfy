/** The XMSS key generation of SWtestbench.py over the 32-byte address buffer.

    The three hashes are SHA-256 over concatenations; SHA-256 itself is the
    parameter `sha`. This draft's `chain` calls `prf` once per step, for
    every index from `start` to `stop` inclusive, and records the step in the
    tree-index word; its `xmss_node` checks the requested (index, height)
    against the tree height `hp` and answers None outside it.

    The specification functions work on the decoded `Fields` of the buffer;
    the hashes see their encoding. */
module SwTestbench {
  import opened Common
  import opened AddressBytes

  const WOTS_HASH: Word := 0
  const WOTS_PRF: Word := 1
  const WOTS_PK: Word := 2
  const TREE: Word := 3

  class Xmss {
    const sha: seq<byte> -> Digest
    const w: int
    const hp: nat
    const d: int
    const len: int

    constructor (sha: seq<byte> -> Digest, w: int, hp: nat, d: int, length: int)
      ensures this.sha == sha && this.w == w && this.hp == hp && this.d == d && this.len == length
    {
      this.sha := sha;
      this.w := w;
      this.hp := hp;
      this.d := d;
      this.len := length;
    }

    /** Every tree index `wots_pkgen` and `chain` write (below `len` and up to
        `w - 1`) fits in four bytes. */
    predicate WotsFits() {
      len <= TwoTo32 && w <= TwoTo32
    }

    /** Number of passes of the loop `for i in range(self.len)`. */
    function Loops(): nat {
      if len < 0 then 0 else len
    }

    function Prf(pkSeed: seq<byte>, skSeed: seq<byte>, adrs: seq<byte>): Digest {
      sha(skSeed + pkSeed + adrs)
    }

    function Ht(pkSeed: seq<byte>, adrs: seq<byte>, tmp: seq<byte>): Digest {
      sha(pkSeed + adrs + tmp)
    }

    function Hh(pkSeed: seq<byte>, adrs: seq<byte>, nodes: seq<byte>): Digest {
      sha(pkSeed + adrs + nodes)
    }

    /** The value `chain` holds once it has processed the indices start..j-1:
        each index j writes j as tree index and feeds the previous value to
        `prf` in the secret-seed position. */
    function ChainUpTo(sk: seq<byte>, start: int, j: int, pkSeed: seq<byte>, f: Fields): seq<byte>
      requires j <= start || (0 <= start && j <= TwoTo32)
      decreases j - start, pkSeed
    {
      if j <= start then sk
      else Prf(pkSeed, ChainUpTo(sk, start, j - 1, pkSeed, f), Encode(f.(index := Be32(j - 1))))
    }

    /** Running the chain to m and then on to j is running it to j. */
    lemma {:induction false} ChainSplit(sk: seq<byte>, start: int, m: int, j: int, pkSeed: seq<byte>, f: Fields)
      requires 0 <= start <= m <= j <= TwoTo32
      ensures ChainUpTo(sk, start, j, pkSeed, f) == ChainUpTo(ChainUpTo(sk, start, m, pkSeed, f), m, j, pkSeed, f)
      decreases j
    {
      if j > m {
        ChainSplit(sk, start, m, j - 1, pkSeed, f);
      }
    }

    /** A chain that takes at least one step ends on a 32-byte `prf` output;
        one that takes none returns `sk` itself. */
    lemma ChainLength(sk: seq<byte>, start: int, j: int, pkSeed: seq<byte>, f: Fields)
      requires j <= start || (0 <= start && j <= TwoTo32)
      ensures |ChainUpTo(sk, start, j, pkSeed, f)| == if j <= start then |sk| else 32
    {
    }

    /** The chain never looks at the tree index it is handed. */
    lemma {:induction false} ChainIgnoresIndex(sk: seq<byte>, start: int, j: int, pkSeed: seq<byte>, f: Fields, x: Bytes4)
      requires j <= start || (0 <= start && j <= TwoTo32)
      ensures ChainUpTo(sk, start, j, pkSeed, f.(index := x)) == ChainUpTo(sk, start, j, pkSeed, f)
      decreases j - start
    {
      if j > start {
        ChainIgnoresIndex(sk, start, j - 1, pkSeed, f, x);
      }
    }

    /** `chain(sk, start, stop, pk_seed, adrs)`. */
    method Chain(sk: seq<byte>, start: int, stop: int, pkSeed: seq<byte>, adrs: Adrs) returns (tmp: seq<byte>)
      requires adrs.Valid()
      requires stop < start || (0 <= start && stop < TwoTo32)
      modifies adrs, adrs.a
      ensures tmp == ChainUpTo(sk, start, stop + 1, pkSeed, old(adrs.view))
      ensures adrs.Valid()
      ensures adrs.view == if stop < start then old(adrs.view) else old(adrs.view).(index := Be32(stop))
    {
      ghost var f := adrs.view;
      tmp := sk;
      var j := start;
      while j < stop + 1
        invariant j == start || start < j <= stop + 1
        invariant tmp == ChainUpTo(sk, start, j, pkSeed, f)
        invariant adrs.Valid()
        invariant adrs.view == if j == start then f else f.(index := Be32(j - 1))
      {
        var _ := adrs.SetTreeIndex(j);
        tmp := Prf(pkSeed, tmp, adrs.a[..]);
        j := j + 1;
      }
    }

    /** `sk_adrs` before the loop of `wots_pkgen`: the caller's fields typed
        WOTS_PRF, with the caller's key pair put back. */
    function SkBase(f: Fields): (r: Fields)
      ensures r.layer == f.layer && r.tree == f.tree && r.typ == Be32(WOTS_PRF)
      ensures r.keyPair == f.keyPair && r.height == Zeros(4) && r.index == Zeros(4)
    {
      TypeAndClear(f, Be32(WOTS_PRF)).(keyPair := f.keyPair)
    }

    /** Address of the secret value of chain i. */
    function SkAdrs(f: Fields, i: Word): Fields {
      SkBase(f).(index := Be32(i))
    }

    /** Address of the compression: type WOTS_PK with the caller's key pair. */
    function PkAdrs(f: Fields): Fields {
      TypeAndClear(f, Be32(WOTS_PK)).(keyPair := f.keyPair)
    }

    /** The bytes accumulated in `tmp` after i passes of the `wots_pkgen` loop:
        chain i starts from `prf` under the WOTS_PRF address with index i and
        runs under the caller's address with index i. */
    function WotsTmp(skSeed: seq<byte>, pkSeed: seq<byte>, f: Fields, i: nat): seq<byte>
      requires i <= TwoTo32 && WotsFits()
      decreases i, skSeed
    {
      if i == 0 then []
      else
        WotsTmp(skSeed, pkSeed, f, i - 1)
          + ChainUpTo(Prf(pkSeed, skSeed, Encode(SkAdrs(f, i - 1))), 0, w, pkSeed, f.(index := Be32(i - 1)))
    }

    /** Where the caller's fields stand after i passes: the last `chain`
        wrote w - 1, or, when chains take no step, the loop wrote i - 1. */
    function AfterChains(f: Fields, i: nat): Fields
      requires i <= TwoTo32 && WotsFits()
    {
      if i == 0 then f
      else if w >= 1 then f.(index := Be32(w - 1))
      else f.(index := Be32(i - 1))
    }

    /** The WOTS+ public key of the key pair the fields address. */
    function WotsPk(skSeed: seq<byte>, pkSeed: seq<byte>, f: Fields): Digest
      requires WotsFits()
    {
      Ht(pkSeed, Encode(PkAdrs(f)), WotsTmp(skSeed, pkSeed, f, Loops()))
    }

    /** `tmp` holds one 32-byte chain end per pass. */
    lemma {:induction false} WotsTmpLength(skSeed: seq<byte>, pkSeed: seq<byte>, f: Fields, i: nat)
      requires i <= TwoTo32 && WotsFits()
      ensures |WotsTmp(skSeed, pkSeed, f, i)| == 32 * i
    {
      if i > 0 {
        WotsTmpLength(skSeed, pkSeed, f, i - 1);
        ChainLength(Prf(pkSeed, skSeed, Encode(SkAdrs(f, i - 1))), 0, w, pkSeed, f.(index := Be32(i - 1)));
      }
    }

    /** The three lines `wots_pkgen` writes twice: copy the buffer, set type t
        (clearing key pair, height and index), and put back the caller's key pair. */
    method TypedCopy(adrs: Adrs, t: Word) returns (c: Adrs)
      requires adrs.Valid()
      ensures fresh(c) && fresh(c.a) && c.Valid()
      ensures c.view == TypeAndClear(adrs.view, Be32(t)).(keyPair := adrs.view.keyPair)
    {
      c := adrs.Copy();
      var _ := c.SetTypeAndClear(t);
      var kp := adrs.GetKeyPairAddress();
      var _ := c.SetKeyPairAddress(kp);
    }

    /** The body of the `wots_pkgen` loop for pass i: the secret value from the
        WOTS_PRF address with index i, then its chain under the caller's
        address with index i. `f` holds the caller's fields before the loop. */
    method WotsPass(skSeed: seq<byte>, pkSeed: seq<byte>, ghost f: Fields, i: nat, skAdrs: Adrs, adrs: Adrs)
      returns (c: seq<byte>)
      requires skAdrs.Valid() && adrs.Valid() && skAdrs != adrs && skAdrs.a != adrs.a && WotsFits() && i < Loops()
      requires skAdrs.view == if i == 0 then SkBase(f) else SkAdrs(f, i - 1)
      requires adrs.view == AfterChains(f, i)
      modifies skAdrs, skAdrs.a, adrs, adrs.a
      ensures skAdrs.Valid() && skAdrs.view == SkAdrs(f, i)
      ensures adrs.Valid() && adrs.view == AfterChains(f, i + 1)
      ensures c == ChainUpTo(Prf(pkSeed, skSeed, Encode(SkAdrs(f, i))), 0, w, pkSeed, f.(index := Be32(i)))
    {
      var _ := skAdrs.SetTreeIndex(i);
      var sk := Prf(pkSeed, skSeed, skAdrs.a[..]);
      var _ := adrs.SetTreeIndex(i);
      c := Chain(sk, 0, w - 1, pkSeed, adrs);
    }

    /** `wots_pkgen(sk_seed, pk_seed, adrs)`. */
    method WotsPkgen(skSeed: seq<byte>, pkSeed: seq<byte>, adrs: Adrs) returns (pk: Digest)
      requires adrs.Valid() && WotsFits()
      modifies adrs, adrs.a
      ensures pk == WotsPk(skSeed, pkSeed, old(adrs.view))
      ensures adrs.Valid() && adrs.view == AfterChains(old(adrs.view), Loops())
    {
      ghost var f := adrs.view;
      var skAdrs := TypedCopy(adrs, WOTS_PRF);
      var tmp: seq<byte> := [];
      for i := 0 to Loops()
        invariant fresh(skAdrs) && fresh(skAdrs.a) && skAdrs.Valid() && adrs.Valid()
        invariant skAdrs.view == if i == 0 then SkBase(f) else SkAdrs(f, i - 1)
        invariant adrs.view == AfterChains(f, i)
        invariant tmp == WotsTmp(skSeed, pkSeed, f, i)
      {
        var c := WotsPass(skSeed, pkSeed, f, i, skAdrs, adrs);
        tmp := tmp + c;
      }
      var wotspkAdrs := TypedCopy(adrs, WOTS_PK);
      pk := Ht(pkSeed, wotspkAdrs.a[..], tmp);
    }

    /** The (index, height) pairs `xmss_node` accepts. */
    predicate InRange(i: nat, z: nat) {
      z <= hp && i < Pow2(hp - z)
    }

    /** For an accepted (i, z) with z > 0 both children are accepted, so the
        recursion never meets None. */
    lemma ChildrenInRange(i: nat, z: nat)
      requires InRange(i, z) && z > 0
      ensures InRange(2 * i, z - 1) && InRange(2 * i + 1, z - 1)
    {
      assert Pow2(hp - (z - 1)) == 2 * Pow2(hp - z);
    }

    /** Both children of an accepted inner node are accepted and fit. */
    lemma ChildrenFit(i: nat, z: nat)
      requires InRange(i, z) && SubtreeFits(i, z) && z > 0
      ensures InRange(2 * i, z - 1) && InRange(2 * i + 1, z - 1)
      ensures SubtreeFits(2 * i, z - 1) && SubtreeFits(2 * i + 1, z - 1)
    {
      SubtreeFitsFacts(i, z);
      ChildrenInRange(i, z);
    }

    /** The address of leaf i of the tree (layer, tree): type WOTS_HASH, key pair i. */
    function LeafAdrs(layer: Bytes4, tree: TreeBytes, i: Word): Fields {
      Fields(layer, tree, Be32(WOTS_HASH), Be32(i), Zeros(4), Zeros(4))
    }

    /** The address of inner node (i, z): type TREE, key pair 0, height z, index i. */
    function TreeAdrs(layer: Bytes4, tree: TreeBytes, i: Word, z: Word): Fields {
      Fields(layer, tree, Be32(TREE), Zeros(4), Be32(z), Be32(i))
    }

    /** The fields `xmss_node(sk_seed, i, z, pk_seed, adrs)` leaves for an
        accepted (i, z): a leaf leaves what `wots_pkgen` left, an inner node
        its own TREE address; either way the layer and tree words are the
        caller's. */
    function NodeAfter(i: nat, z: nat, f: Fields): (r: Fields)
      requires WotsFits() && SubtreeFits(i, z)
      ensures r.layer == f.layer && r.tree == f.tree
    {
      SubtreeFitsFacts(i, z);
      if z == 0 then AfterChains(LeafAdrs(f.layer, f.tree, i), Loops()) else TreeAdrs(f.layer, f.tree, i, z)
    }

    /** The value `xmss_node(sk_seed, i, z, pk_seed, adrs)` returns for an
        accepted (i, z) in the tree whose layer and tree words are `layer` and
        `tree`: a leaf is the WOTS+ public key of key pair i; an inner node
        hashes its TREE address with the values of its children. Nothing else
        of the caller's buffer enters it: every path through `xmss_node`
        overwrites the type, key pair, height and index before it hashes. */
    function NodeValue(skSeed: seq<byte>, i: nat, z: nat, pkSeed: seq<byte>, layer: Bytes4, tree: TreeBytes): Digest
      requires WotsFits() && SubtreeFits(i, z)
      decreases z, 1, skSeed
    {
      SubtreeFitsFacts(i, z);
      if z == 0 then WotsPk(skSeed, pkSeed, LeafAdrs(layer, tree, i))
      else Hh(pkSeed, Encode(TreeAdrs(layer, tree, i, z)), ChildValues(skSeed, i, z, pkSeed, layer, tree))
    }

    /** `lnode + rnode`: the values of children 2i and 2i + 1 of node (i, z). */
    function ChildValues(skSeed: seq<byte>, i: nat, z: nat, pkSeed: seq<byte>, layer: Bytes4, tree: TreeBytes): seq<byte>
      requires WotsFits() && SubtreeFits(i, z) && 0 < z
      decreases z, 0, skSeed
    {
      SubtreeFitsFacts(i, z);
      NodeValue(skSeed, 2 * i, z - 1, pkSeed, layer, tree) + NodeValue(skSeed, 2 * i + 1, z - 1, pkSeed, layer, tree)
    }

    /** One step of `NodeValue` above the leaves. It mirrors the lemma of the
        same name in DraftTestbench, because the two testbenches repeat the
        same tree code. */
    lemma NodeValueInner(skSeed: seq<byte>, i: nat, z: nat, pkSeed: seq<byte>, layer: Bytes4, tree: TreeBytes)
      requires WotsFits() && SubtreeFits(i, z) && 0 < z
      ensures Fits(i) && Fits(z)
      ensures SubtreeFits(2 * i, z - 1) && SubtreeFits(2 * i + 1, z - 1)
      ensures NodeValue(skSeed, i, z, pkSeed, layer, tree)
        == Hh(pkSeed, Encode(TreeAdrs(layer, tree, i, z)),
              NodeValue(skSeed, 2 * i, z - 1, pkSeed, layer, tree) + NodeValue(skSeed, 2 * i + 1, z - 1, pkSeed, layer, tree))
    {
      SubtreeFitsFacts(i, z);
    }

    /** `xmss_node(sk_seed, i, z, pk_seed, adrs)`: None exactly outside the tree. */
    method XmssNode(skSeed: seq<byte>, i: nat, z: nat, pkSeed: seq<byte>, adrs: Adrs) returns (node: Option<Digest>)
      requires adrs.Valid() && WotsFits()
      requires InRange(i, z) ==> SubtreeFits(i, z)
      modifies adrs, adrs.a
      ensures adrs.Valid()
      ensures node.None? <==> !InRange(i, z)
      ensures node.None? ==> adrs.view == old(adrs.view)
      ensures node.Some? ==> node.value == NodeValue(skSeed, i, z, pkSeed, old(adrs.view.layer), old(adrs.view.tree))
      ensures node.Some? ==> adrs.view == NodeAfter(i, z, old(adrs.view))
      decreases z, 3
    {
      if z > hp || i >= Pow2(hp - z) {
        return None;
      }
      var v;
      if z == 0 {
        v := LeafNode(skSeed, i, pkSeed, adrs);
      } else {
        v := InnerNode(skSeed, i, z, pkSeed, adrs);
      }
      node := Some(v);
    }

    /** The `z == 0` branch of `xmss_node`: the WOTS+ public key of key pair i. */
    method LeafNode(skSeed: seq<byte>, i: nat, pkSeed: seq<byte>, adrs: Adrs) returns (v: Digest)
      requires adrs.Valid() && WotsFits() && SubtreeFits(i, 0)
      modifies adrs, adrs.a
      ensures adrs.Valid()
      ensures v == NodeValue(skSeed, i, 0, pkSeed, old(adrs.view.layer), old(adrs.view.tree))
      ensures adrs.view == NodeAfter(i, 0, old(adrs.view))
    {
      SubtreeFitsFacts(i, 0);
      ghost var f := adrs.view;
      var _ := adrs.SetTypeAndClear(WOTS_HASH);
      var _ := adrs.SetKeyPairAddress(i);
      assert adrs.view == LeafAdrs(f.layer, f.tree, i);
      v := WotsPkgen(skSeed, pkSeed, adrs);
    }

    /** The `z > 0` branch of `xmss_node`: both children, then `h_h` under the
        node's own TREE address. */
    method InnerNode(skSeed: seq<byte>, i: nat, z: nat, pkSeed: seq<byte>, adrs: Adrs) returns (v: Digest)
      requires adrs.Valid() && WotsFits() && 0 < z && InRange(i, z) && SubtreeFits(i, z)
      modifies adrs, adrs.a
      ensures adrs.Valid()
      ensures v == NodeValue(skSeed, i, z, pkSeed, old(adrs.view.layer), old(adrs.view.tree))
      ensures adrs.view == NodeAfter(i, z, old(adrs.view))
      decreases z, 2
    {
      ghost var f := adrs.view;
      NodeValueInner(skSeed, i, z, pkSeed, f.layer, f.tree);
      var l, r := Children(skSeed, i, z, pkSeed, adrs, f.layer, f.tree);
      var _ := adrs.SetTypeAndClear(TREE);
      var _ := adrs.SetTreeHeight(z);
      var _ := adrs.SetTreeIndex(i);
      assert adrs.view == TreeAdrs(f.layer, f.tree, i, z);
      var left: seq<byte> := l;
      var nodes := left + r;
      v := Hh(pkSeed, adrs.a[..], nodes);
    }

    /** The two recursive calls of the `z > 0` branch, left child first; the
        right child starts from the fields the left one left behind, whose
        layer and tree words are still the caller's. */
    method Children(skSeed: seq<byte>, i: nat, z: nat, pkSeed: seq<byte>, adrs: Adrs, ghost layer: Bytes4, ghost tree: TreeBytes)
      returns (l: Digest, r: Digest)
      requires adrs.Valid() && WotsFits() && 0 < z && InRange(i, z) && SubtreeFits(i, z)
      requires adrs.view.layer == layer && adrs.view.tree == tree
      modifies adrs, adrs.a
      ensures l == NodeValue(skSeed, 2 * i, z - 1, pkSeed, layer, tree)
      ensures r == NodeValue(skSeed, 2 * i + 1, z - 1, pkSeed, layer, tree)
      ensures adrs.Valid() && adrs.view.layer == layer && adrs.view.tree == tree
      decreases z, 1
    {
      l := Child(skSeed, i, z, false, pkSeed, adrs, layer, tree);
      r := Child(skSeed, i, z, true, pkSeed, adrs, layer, tree);
    }

    /** One recursive call of the accepted node (i, z), for its left or right
        child, seen from the parent: the child's value, and the layer and
        tree words left as they were. */
    method Child(skSeed: seq<byte>, i: nat, z: nat, right: bool, pkSeed: seq<byte>, adrs: Adrs, ghost layer: Bytes4, ghost tree: TreeBytes)
      returns (v: Digest)
      requires adrs.Valid() && WotsFits() && 0 < z && InRange(i, z) && SubtreeFits(i, z)
      requires adrs.view.layer == layer && adrs.view.tree == tree
      modifies adrs, adrs.a
      ensures v == NodeValue(skSeed, if right then 2 * i + 1 else 2 * i, z - 1, pkSeed, layer, tree)
      ensures adrs.Valid() && adrs.view.layer == layer && adrs.view.tree == tree
      decreases z, 0
    {
      ChildrenFit(i, z);
      var node := XmssNode(skSeed, if right then 2 * i + 1 else 2 * i, z - 1, pkSeed, adrs);
      v := node.value;
    }

    /** The root `slh_keygen_internal` computes: node (0, hp) under a fresh
        buffer whose layer word is d - 1. */
    function Root(skSeed: seq<byte>, pkSeed: seq<byte>): Digest
      requires WotsFits() && hp <= 32 && Fits(d - 1)
    {
      NodeValue(skSeed, 0, hp, pkSeed, Be32(d - 1), Zeros(12))
    }

    /** `slh_keygen_internal(sk_seed, sk_prf, pk_seed)`; `ok` is false when
        `set_layer_address(d - 1)` raises. */
    method SlhKeygenInternal(skSeed: seq<byte>, skPrf: seq<byte>, pkSeed: seq<byte>)
      returns (ok: bool, pk: seq<byte>, sk: seq<byte>)
      requires WotsFits() && hp <= 32
      ensures ok <==> Fits(d - 1)
      ensures ok ==> pk == pkSeed + Root(skSeed, pkSeed)
      ensures ok ==> sk == skSeed + skPrf + pkSeed + Root(skSeed, pkSeed)
      ensures ok ==> sk[|skSeed| + |skPrf|..] == pk
    {
      var adrs := new Adrs();
      ok := adrs.SetLayerAddress(d - 1);
      if !ok {
        return false, [], [];
      }
      var pkRoot := XmssNode(skSeed, 0, hp, pkSeed, adrs);
      sk := skSeed + skPrf + pkSeed + pkRoot.value;
      pk := pkSeed + pkRoot.value;
      assert sk == (skSeed + skPrf) + pk;
    }
  }
}
