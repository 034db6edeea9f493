/** The four-field address record of SigGenTestBench.py and help.py (both
    files define the same `ADRS` class): a key-pair address, a tree height,
    a tree index and a type, each an unbounded Python integer. There is no
    layer or tree address. Unlike the 32-byte buffer, `set_type_and_clear`
    keeps the key-pair address: it clears only the height and the index.

    The second half of the module holds the addresses that the XMSS code of
    both files builds from this record (`wots_pkgen` and `xmss_node` are the
    same code in both; they differ only in how an address is hashed). */
module AddressFields {
  import opened Common

  const FORS_PRF: int := 0
  const FORS_ROOTS: int := 1
  const WOTS_PRF: int := 2
  const WOTS_HASH: int := 3
  const TREE: int := 4
  const WOTS_PK: int := 5

  /** The record's fields, in the order `__init__` creates them. */
  datatype Fields = Fields(keyPair: int, height: int, index: int, typ: int)

  /** The fields of `ADRS()`. */
  const Zero: Fields := Fields(0, 0, 0, 0)

  /** What `set_type_and_clear(t)` leaves: type t, height and index zero, the
      key pair as it was. */
  function TypeAndClear(f: Fields, t: int): (r: Fields)
    ensures r.typ == t && r.height == 0 && r.index == 0
    ensures r.keyPair == f.keyPair
  {
    f.(typ := t, height := 0, index := 0)
  }

  /** Since the key pair is the only field `set_type_and_clear` keeps, two
      records that agree on it give the same record. */
  lemma TypeAndClearForgets(f: Fields, g: Fields, t: int)
    ensures TypeAndClear(f, t) == TypeAndClear(g, t) <==> f.keyPair == g.keyPair
  {
    if TypeAndClear(f, t) == TypeAndClear(g, t) {
      assert TypeAndClear(f, t).keyPair == TypeAndClear(g, t).keyPair;
    }
  }

  class Adrs {
    var keyPair: int
    var height: int
    var index: int
    var typ: int

    function View(): Fields
      reads this
    {
      Fields(keyPair, height, index, typ)
    }

    /** `ADRS()`: every field zero. */
    constructor ()
      ensures View() == Zero
    {
      keyPair, height, index, typ := 0, 0, 0, 0;
    }

    /** `copy()`: a new record with the same four fields. */
    method Copy() returns (c: Adrs)
      ensures fresh(c) && c.View() == View()
    {
      c := new Adrs();
      c.keyPair := keyPair;
      c.height := height;
      c.index := index;
      c.typ := typ;
    }

    method SetTypeAndClear(t: int)
      modifies this
      ensures View() == TypeAndClear(old(View()), t)
    {
      typ := t;
      height := 0;
      index := 0;
    }

    method SetKeyPairAddress(x: int)
      modifies this
      ensures View() == old(View()).(keyPair := x)
    {
      keyPair := x;
    }

    method SetTreeIndex(x: int)
      modifies this
      ensures View() == old(View()).(index := x)
    {
      index := x;
    }

    method SetTreeHeight(x: int)
      modifies this
      ensures View() == old(View()).(height := x)
    {
      height := x;
    }
  }

  /** A copy is a separate object: changing it leaves the original as it was,
      and changing the original leaves the copy as it was. */
  method CopyIsIndependent(adrs: Adrs, x: int, y: int) returns (c: Adrs)
    modifies adrs
    ensures fresh(c)
    ensures c.View() == old(adrs.View()).(index := x)
    ensures adrs.View() == old(adrs.View()).(keyPair := y)
  {
    c := adrs.Copy();
    c.SetTreeIndex(x);
    adrs.SetKeyPairAddress(y);
  }

  /** The caller's record after the `wots_pkgen` loop: the loop sets its tree
      index to 0, 1, .., n - 1 and nothing else. */
  function WotsAfter(f: Fields, n: int): Fields {
    if n <= 0 then f else f.(index := n - 1)
  }

  /** `sk_adrs` of `wots_pkgen` for secret j: a copy typed WOTS_PRF, the
      caller's key pair written back, tree index j. */
  function WotsPrfAdrs(f: Fields, j: int): (r: Fields)
    ensures r == Fields(f.keyPair, 0, j, WOTS_PRF)
  {
    TypeAndClear(f, WOTS_PRF).(keyPair := f.keyPair).(index := j)
  }

  /** `wotspk_adrs` of `wots_pkgen`: a copy typed WOTS_PK. Unlike the byte
      buffer, the record keeps the caller's key pair here. */
  function WotsPkAdrs(f: Fields): (r: Fields)
    ensures r == Fields(f.keyPair, 0, 0, WOTS_PK)
  {
    TypeAndClear(f, WOTS_PK)
  }

  /** The compression address does not depend on where the loop left the
      tree index, so taking the copy after the loop is the same as before it. */
  lemma WotsPkAdrsAfterLoop(f: Fields, n: int)
    ensures WotsPkAdrs(WotsAfter(f, n)) == WotsPkAdrs(f)
  {
  }

  /** The caller's record once `xmss_node` has set up leaf i: type WOTS_HASH,
      key pair i, height and index zero, whatever it held before. */
  function LeafAdrs(i: int): Fields {
    Fields(i, 0, 0, WOTS_HASH)
  }

  /** The last leaf under node (i, z): leaves i * 2^z .. (i + 1) * 2^z - 1 lie
      under it. */
  function LastLeaf(i: int, z: nat): int {
    (i + 1) * Pow2(z) - 1
  }

  /** The last leaf under a node is the last leaf under its right child, and
      it is not before the node's first leaf. */
  lemma LastLeafOfRightChild(i: int, z: nat)
    requires 0 < z
    ensures LastLeaf(i, z) == LastLeaf(2 * i + 1, z - 1)
    ensures LastLeaf(i, z) - i * Pow2(z) == Pow2(z) - 1
  {
    var p, q := Pow2(z), Pow2(z - 1);
    assert p == 2 * q;
    calc {
      (i + 1) * p;
      (i + 1) * (2 * q);
      { MulAssoc(i + 1, 2, q); }
      (2 * i + 2) * q;
    }
    assert (i + 1) * p == i * p + p;
  }

  /** A solver aid: associativity of multiplication, a nonlinear step
      Dafny does not take on its own inside larger proofs. */
  lemma MulAssoc(x: int, y: int, z: int)
    ensures x * (y * z) == (x * y) * z
  {
  }

  /** The address `xmss_node` hashes for inner node (i, z), which is also where
      it leaves the caller's record: type TREE, height z, index i, and the key
      pair the last leaf wrote, since `set_type_and_clear` does not clear it. */
  function TreeAdrs(i: int, z: nat): Fields {
    Fields(LastLeaf(i, z), z, i, TREE)
  }

  /** The caller's record after `xmss_node(sk_seed, i, z, pk_seed, adrs)`
      with the WOTS+ loop running n times. */
  function XmssNodeAfter(n: int, i: int, z: nat): (r: Fields)
    ensures r.keyPair == LastLeaf(i, z)
  {
    if z == 0 then WotsAfter(LeafAdrs(i), n) else TreeAdrs(i, z)
  }
}
