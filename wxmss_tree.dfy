/** The hash chains, WOTS+ keys and signatures and the XMSS tree of
    testbenchwxmss.py, built on its hand-written SHA-256 (module
    WxmssTestbench).

    Every hash here is `F`, the one compression that `F_global`,
    `PRF_global` and `H_global` all compute. */
module WxmssTree {
  import opened Common
  import opened WxmssTestbench

  /** X after n passes of the loop of `chain_global`, each of which replaces
      X by the digest of its text. */
  function Chain(x: HashInput, n: nat): HashInput {
    if n == 0 then x else Words(F(Text(Unformat(Chain(x, n - 1)))))
  }

  /** After at least one pass, or from a digest, the chain holds a digest. */
  lemma ChainIsDigest(x: HashInput, n: nat)
    requires n > 0 || (x.Words? && |x.ws| == 8)
    ensures Chain(x, n).Words? && |Chain(x, n).ws| == 8
  {
  }

  /** Pass n hashes the text of the chain after n - 1 passes. */
  lemma ChainStep(x: HashInput, n: nat)
    requires n > 0
    ensures Chain(x, n) == Words(F(Text(Unformat(Chain(x, n - 1)))))
  {
  }

  /** `chain_global(X, i, s)`: s passes, whatever i is; none when s <= 0. */
  method ChainGlobal(x: HashInput, i: int, s: int) returns (r: HashInput)
    ensures r == Chain(x, Passes(s))
    ensures s <= 0 ==> r == x
    ensures s > 0 ==> r.Words? && |r.ws| == 8
  {
    r := x;
    var k := i;
    ghost var done: nat := 0;
    while k < i + s
      invariant i <= k && done == k - i <= Passes(s)
      invariant r == Chain(x, done)
    {
      var digest := FGlobal(Text(Unformat(r)));
      ChainStep(x, done + 1);
      r := Words(digest);
      k, done := k + 1, done + 1;
    }
    assert done == Passes(s);
  }

  /** The text of `chain_global(PRF_global(seed, _), 0, s)`: a digest, so
      64 hexadecimal digits. */
  function ChainText(seed: HashInput, s: int): (r: string)
    ensures |r| == 64 && IsHex(r)
  {
    ChainIsDigest(Words(F(seed)), Passes(s));
    Unformat(Chain(Words(F(seed)), Passes(s)))
  }

  /** `''.join(parts)`. */
  function JoinAll(parts: seq<string>): string {
    if parts == [] then [] else JoinAll(parts[..|parts| - 1]) + parts[|parts| - 1]
  }

  /** Joining parts of 64 hexadecimal digits: 64 digits per part, part j at
      offset 64j. */
  lemma {:induction false} JoinAllAt(parts: seq<string>, j: nat)
    requires forall k | 0 <= k < |parts| :: |parts[k]| == 64 && IsHex(parts[k])
    ensures |JoinAll(parts)| == 64 * |parts| && IsHex(JoinAll(parts))
    ensures j < |parts| ==> JoinAll(parts)[64 * j..64 * j + 64] == parts[j]
  {
    if parts != [] {
      var p := parts[..|parts| - 1];
      var jp := JoinAll(p);
      JoinAllAt(p, j);
      assert JoinAll(parts) == jp + parts[|p|];
      if j < |p| {
        assert JoinAll(parts)[64 * j..64 * j + 64] == jp[64 * j..64 * j + 64];
      } else if j == |p| {
        assert JoinAll(parts)[64 * j..64 * j + 64] == JoinAll(parts)[|jp|..];
      }
    }
  }

  /** The values f(0), ..., f(n - 1). */
  function Firsts<T>(f: nat -> T, n: nat): (r: seq<T>)
    ensures |r| == n && forall k | 0 <= k < n :: r[k] == f(k)
  {
    seq(n, (k: int) requires 0 <= k => f(k))
  }

  /** The first i + 1 values of f are its first i values and then f(i). */
  lemma FirstsSnoc<T>(f: nat -> T, i: nat, n: nat)
    requires n == i + 1
    ensures Firsts(f, n) == Firsts(f, i) + [f(i)]
  {
    var a, b := Firsts(f, n), Firsts(f, i) + [f(i)];
    forall k | 0 <= k < n
      ensures a[k] == b[k]
    {
      if k < i {
        assert b[k] == Firsts(f, i)[k];
      }
    }
  }

  /** The steps of a full chain: `w - 1`. */
  function FullChain(w: int): int {
    w - 1
  }

  /** Chain i of the public key, whatever i is: `PRF_global` does not read
      its index. */
  function PkChain(sk: HashInput, w: int): nat -> string {
    _ => ChainText(sk, FullChain(w))
  }

  /** What `wots_pkGen_global(SK_seed, w, length)` returns: `length` chains
      of w - 1 steps, each from the digest of the seed. */
  function WotsPk(sk: HashInput, w: int, length: int): string
  {
    JoinAll(Firsts(PkChain(sk, w), Passes(length)))
  }

  /** The public key has 64 digits per chain, and every chain is the same. */
  lemma WotsPkParts(sk: HashInput, w: int, length: int, j: nat)
    ensures |WotsPk(sk, w, length)| == 64 * Passes(length) && IsHex(WotsPk(sk, w, length))
    ensures j < Passes(length) ==>
      WotsPk(sk, w, length)[64 * j..64 * j + 64] == ChainText(sk, w - 1)
  {
    JoinAllAt(Firsts(PkChain(sk, w), Passes(length)), j);
  }

  method WotsPkGenGlobal(sk: HashInput, w: int, length: int) returns (r: string)
    ensures r == WotsPk(sk, w, length)
  {
    var parts: seq<string> := [];
    for i := 0 to Passes(length)
      invariant parts == Firsts(PkChain(sk, w), i)
    {
      var seed := PrfGlobal(sk, Str(i));
      var chain := ChainGlobal(Words(seed), 0, FullChain(w));
      forall n: nat | n == i + 1
        ensures Firsts(PkChain(sk, w), n) == Firsts(PkChain(sk, w), i) + [PkChain(sk, w)(i)]
      {
        FirstsSnoc(PkChain(sk, w), i, n);
      }
      parts := parts + [Unformat(chain)];
    }
    r := JoinAll(parts);
  }

  /** `digest[i % len(digest)] % 16`: the number of steps of chain i. */
  function Iterations(digest: seq<Word>, i: nat): (r: nat)
    requires |digest| > 0
    ensures r < 16
  {
    digest[i % |digest|] % 16
  }

  /** Chain i of the signature of M. */
  function SigChain(m: HashInput, sk: HashInput): nat -> string {
    (i: nat) => ChainText(sk, Iterations(F(m), i))
  }

  /** What `wots_sign_global(M, SK_seed)` returns. */
  function WotsSig(m: HashInput, sk: HashInput): string
  {
    JoinAll(Firsts(SigChain(m, sk), 32))
  }

  /** A digest has eight words, so chain i takes `digest[i % 8] % 16`
      steps. */
  lemma IterationsOfDigest(digest: seq<Word>, i: nat)
    requires |digest| == 8
    ensures Iterations(digest, i) == digest[i % 8] % 16
  {
  }

  /** The signature is 32 chains of 64 digits; chain i takes
      `Iterations(digest, i)` steps from the digest of the seed. */
  lemma WotsSigParts(m: HashInput, sk: HashInput, i: nat)
    ensures |WotsSig(m, sk)| == 2048 && IsHex(WotsSig(m, sk))
    ensures i < 32 ==>
      WotsSig(m, sk)[64 * i..64 * i + 64] == ChainText(sk, Iterations(F(m), i))
  {
    JoinAllAt(Firsts(SigChain(m, sk), 32), i);
  }

  method WotsSignGlobal(m: HashInput, sk: HashInput) returns (r: string)
    ensures r == WotsSig(m, sk)
  {
    var digest := FGlobal(m);
    var parts: seq<string> := [];
    for i := 0 to 32
      invariant parts == Firsts(SigChain(m, sk), i)
    {
      var iterations := Iterations(digest, i);
      var seed := PrfGlobal(sk, Str(i));
      var chain := ChainGlobal(Words(seed), 0, iterations);
      forall n: nat | n == i + 1
        ensures Firsts(SigChain(m, sk), n) == Firsts(SigChain(m, sk), i) + [SigChain(m, sk)(i)]
      {
        FirstsSnoc(SigChain(m, sk), i, n);
      }
      parts := parts + [Unformat(chain)];
    }
    r := JoinAll(parts);
  }

  /** `left + right`: two strings or two lists, joined. */
  function Join2(l: HashInput, r: HashInput): HashInput
    requires l.Text? == r.Text?
  {
    if l.Text? then Text(l.s + r.s) else Words(l.ws + r.ws)
  }

  /** What `xmss_node(SK_seed, i, z)` returns: a WOTS+ public key (a string)
      at height 0, the digest of both children (a list) above it. */
  function XmssNode(sk: HashInput, i: int, z: nat): (r: HashInput)
    ensures r.Text? <==> z == 0
    ensures z > 0 ==> |r.ws| == 8
    decreases z
  {
    if z == 0 then Text(WotsPk(sk, 16, 32))
    else
      var left := XmssNode(sk, 2 * i, z - 1);
      var right := XmssNode(sk, 2 * i + 1, z - 1);
      Words(F(Join2(left, right)))
  }

  /** The index of a node never matters: every leaf is the same key, since
      the seed is hashed without its index, so every node of a height is the
      same. */
  lemma {:induction false} NodeIgnoresIndex(sk: HashInput, i: int, j: int, z: nat)
    ensures XmssNode(sk, i, z) == XmssNode(sk, j, z)
    decreases z
  {
    if z > 0 {
      // The children of i and of j, pairwise: bound variables, so that the
      // facts are stated on the very terms the definition unfolds to.
      forall y: nat, a, b | y == z - 1 && ((a == 2 * i && b == 2 * j) || (a == 2 * i + 1 && b == 2 * j + 1))
        ensures XmssNode(sk, a, y) == XmssNode(sk, b, y)
      {
        NodeIgnoresIndex(sk, a, b, y);
      }
    }
  }

  /** An inner node is the hash of its left child alone: the left child's
      text already fills the 64-byte block, so the right child is cut off. */
  lemma InnerNodeIgnoresRight(sk: HashInput, i: int, z: nat)
    requires z > 0
    ensures XmssNode(sk, i, z) == Words(F(XmssNode(sk, 2 * i, z - 1)))
  {
    if z == 1 {
      LeafParentIgnoresRight(sk, i, z);
    } else {
      InnerParentIgnoresRight(sk, i, z);
    }
  }

  /** Above the leaves: the key's 2048 digits fill the block on their own. */
  lemma LeafParentIgnoresRight(sk: HashInput, i: int, z: nat)
    requires z == 1
    ensures XmssNode(sk, i, z) == Words(F(XmssNode(sk, 2 * i, z - 1)))
  {
    var t := WotsPk(sk, 16, 32);
    assert XmssNode(sk, 2 * i, z - 1) == Text(t);
    assert XmssNode(sk, 2 * i + 1, z - 1) == Text(t);
    WotsPkParts(sk, 16, 32, 0);
    HexIsAscii(t);
    HashReadsFirstBlock(t, t);
  }

  /** Higher up: the left child's digest fills the block on its own. */
  lemma InnerParentIgnoresRight(sk: HashInput, i: int, z: nat)
    requires z > 1
    ensures XmssNode(sk, i, z) == Words(F(XmssNode(sk, 2 * i, z - 1)))
  {
    NodeUnfold(sk, i, z);
    HashReadsFirstDigest(XmssNode(sk, 2 * i, z - 1).ws, XmssNode(sk, 2 * i + 1, z - 1).ws);
  }

  /** One step of the definition of an inner node. */
  lemma NodeUnfold(sk: HashInput, i: int, z: nat)
    requires z > 0
    ensures XmssNode(sk, i, z)
      == Words(F(Join2(XmssNode(sk, 2 * i, z - 1), XmssNode(sk, 2 * i + 1, z - 1))))
  {
  }

  /** `(idx // (2 ** j)) ^ 1`: the sibling of the level-j ancestor of leaf
      idx. */
  function Sibling(idx: int, j: nat): int {
    XorOne(idx / Pow2(j))
  }

  /** The sibling differs from the ancestor and has the same parent. */
  lemma SiblingOfAncestor(idx: int, j: nat)
    ensures Sibling(idx, j) != idx / Pow2(j)
    ensures Sibling(idx, j) / 2 == (idx / Pow2(j)) / 2
    ensures XorOne(Sibling(idx, j)) == idx / Pow2(j)
  {
  }

  /** The level-j node of the authentication path of leaf idx. */
  function AuthNode(sk: HashInput, idx: int): nat -> HashInput {
    (j: nat) => XmssNode(sk, Sibling(idx, j), j)
  }

  /** The authentication path of `xmss_sign`: the sibling at each level. */
  function AuthPath(sk: HashInput, idx: int, height: int): seq<HashInput>
  {
    Firsts(AuthNode(sk, idx), Passes(height))
  }

  /** Since no node depends on its index, the path is the same for every
      leaf index. */
  lemma AuthPathIgnoresIndex(sk: HashInput, idx: int, idx2: int, height: int)
    ensures AuthPath(sk, idx, height) == AuthPath(sk, idx2, height)
  {
    forall j | 0 <= j < Passes(height)
      ensures AuthPath(sk, idx, height)[j] == AuthPath(sk, idx2, height)[j]
    {
      NodeIgnoresIndex(sk, Sibling(idx, j), Sibling(idx2, j), j);
    }
  }

  /** `xmss_sign(M, SK_seed, idx, h)`: the WOTS+ signature of M and the
      authentication path of leaf idx. */
  method XmssSign(m: HashInput, sk: HashInput, idx: int, height: int)
    returns (signature: string, authPath: seq<HashInput>)
    ensures authPath == AuthPath(sk, idx, height)
    ensures signature == WotsSig(m, sk)
  {
    authPath := [];
    for j := 0 to Passes(height)
      invariant authPath == Firsts(AuthNode(sk, idx), j)
    {
      var siblingIndex := Sibling(idx, j);
      var authNode := XmssNode(sk, siblingIndex, j);
      forall n: nat | n == j + 1
        ensures Firsts(AuthNode(sk, idx), n) == Firsts(AuthNode(sk, idx), j) + [AuthNode(sk, idx)(j)]
      {
        FirstsSnoc(AuthNode(sk, idx), j, n);
      }
      authPath := authPath + [authNode];
    }
    signature := WotsSignGlobal(m, sk);
  }
}
