/** The key generation of testbenchwpalceholders.py, where the XMSS root is
    a stand-in: the SHA-256 hex digest of the key seeds, the start index,
    the height and the layer written out as one string.

    `hashlib.sha256` is the parameter `sha` (32 bytes for any input). */
module PlaceholderTestbench {
  import opened Common

  /** The address object: only its layer is kept. */
  class Adrs {
    var layerAddress: int

    constructor ()
      ensures layerAddress == 0
    {
      layerAddress := 0;
    }

    method SetLayerAddress(layer: int)
      modifies this
      ensures layerAddress == layer
    {
      layerAddress := layer;
    }
  }

  /** `hash_function(data)`: the hex digest of the UTF-8 bytes of data. */
  function HashFunction(sha: seq<byte> -> Digest, data: string): (r: string)
    ensures |r| == 64 && IsHex(r)
  {
    HexOf(sha(Utf8(data)))
  }

  /** The string the placeholder node hashes. */
  function Combined(skSeed: string, pkSeed: string, startIdx: int, hp: int, layer: int): string {
    skSeed + pkSeed + Str(startIdx) + Str(hp) + Str(layer)
  }

  /** `xmss_node(sk_seed, start_idx, hp, pk_seed, adrs)`: 64 hexadecimal
      digits, read off the combined string and nothing else. */
  function XmssNode(sha: seq<byte> -> Digest, skSeed: string, startIdx: int, hp: int,
                    pkSeed: string, adrs: Adrs): (r: string)
    reads adrs
    ensures |r| == 64 && IsHex(r)
  {
    HashFunction(sha, Combined(skSeed, pkSeed, startIdx, hp, adrs.layerAddress))
  }

  /** The numbers are joined without a separator, so different start
      indices and heights can give the same string and hence the same
      node: index 1 at height 23 and index 12 at height 3 both read "123". */
  lemma NodesCollide(sha: seq<byte> -> Digest, skSeed: string, pkSeed: string, adrs: Adrs)
    ensures Combined(skSeed, pkSeed, 1, 23, adrs.layerAddress)
      == Combined(skSeed, pkSeed, 12, 3, adrs.layerAddress)
    ensures XmssNode(sha, skSeed, 1, 23, pkSeed, adrs) == XmssNode(sha, skSeed, 12, 3, pkSeed, adrs)
  {
    assert Str(1) + Str(23) == "123";
    assert Str(12) + Str(3) == "123";
    var tail := Str(adrs.layerAddress);
    calc {
      Combined(skSeed, pkSeed, 1, 23, adrs.layerAddress);
      skSeed + pkSeed + (Str(1) + Str(23)) + tail;
      skSeed + pkSeed + (Str(12) + Str(3)) + tail;
      Combined(skSeed, pkSeed, 12, 3, adrs.layerAddress);
    }
  }

  /** The object of class `TestBench`: d layers of trees of height hp. */
  class TestBench {
    const sha: seq<byte> -> Digest
    const d: int
    const hp: int

    constructor (sha: seq<byte> -> Digest, d: int, hp: int)
      ensures this.sha == sha && this.d == d && this.hp == hp
    {
      this.sha := sha;
      this.d := d;
      this.hp := hp;
    }

    /** The root the key generation publishes: the node at index 0 and
        height hp of the top layer d - 1. */
    function Root(skSeed: string, pkSeed: string): (r: string)
      ensures |r| == 64 && IsHex(r)
    {
      HashFunction(sha, Combined(skSeed, pkSeed, 0, hp, d - 1))
    }

    /** `slh_keygen_internal(sk_seed, sk_prf, pk_seed)`: the public key is
        the public seed and the root, the secret key the two secret seeds
        and then the whole public key. */
    method SlhKeygenInternal(skSeed: string, skPrf: string, pkSeed: string)
      returns (pk: string, sk: string)
      ensures pk == pkSeed + Root(skSeed, pkSeed)
      ensures sk == skSeed + skPrf + pk
      ensures |pk| == |pkSeed| + 64
      ensures sk[|sk| - |pk|..] == pk
      ensures pk[|pkSeed|..] == Root(skSeed, pkSeed)
    {
      var adrs := new Adrs();
      adrs.SetLayerAddress(d - 1);
      var pkRoot := XmssNode(sha, skSeed, 0, hp, pkSeed, adrs);
      sk := skSeed + skPrf + pkSeed + pkRoot;
      pk := pkSeed + pkRoot;
      assert sk == (skSeed + skPrf) + pk;
    }
  }
}
