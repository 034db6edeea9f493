# SLH-DSA test-bench drafts, modelled in Dafny

The repository holds several partial Python drafts of the key generation and
signing pieces of SLH-DSA / SPHINCS+ (FIPS 205), and one hand-written SHA-256
compression function (FIPS 180-4). This project models the core of six of
those drafts and proves properties of the model. Each draft's model follows
the draft's own code, including where the code departs from FIPS 205:

- `address_bytes.dfy` (module `AddressBytes`) is the 32-byte `ADRS` buffer.
  SWtestbench.py and testbenchdraft.py define it identically.
  - Every setter writes a big-endian 4-byte slice. A value outside [0, 2^32)
    raises `OverflowError` in Python; in the model the setter returns
    `ok == false` and leaves the buffer as it was.
  - `Encode`/`Decode` are a proved bijection between the buffer and its
    fields, so the class states each method's effect on the decoded fields.
- `address_fields.dfy` (module `AddressFields`) is the four-field `ADRS`
  record shared by SigGenTestBench.py and help.py. Its
  `set_type_and_clear` keeps the key pair. The module also holds the
  addresses that the XMSS code of both files walks through.
- `sw_testbench.dfy` (module `SwTestbench`) models `XMSS` of SWtestbench.py:
  - `chain` with its inclusive stop;
  - `wots_pkgen`;
  - the range-checked `xmss_node`, which returns `None` on a bad request;
  - `slh_keygen_internal`.
- `draft_testbench.dfy` (module `DraftTestbench`) models `XMSS` of
  testbenchdraft.py. Here `wots_pkgen` has no chains, and the WOTS_PK
  address has its key pair cleared.
- `siggen_testbench.dfy` (module `SigGenTestbench`) models `XMSS` and `FORS`
  of SigGenTestBench.py: `base_2b`, `fors_sk_gen`, `fors_node`, `fors_sign`,
  and the leaf and authentication-node index formulas of `fors_sign`.
- `help_testbench.dfy` (module `HelpTestbench`) models `XMSS` and `FORS` of
  help.py: `wots_pkgen`, `xmss_node`, both key generations,
  `fors_gen_leaf`, `fors_treehash` and `fors_pkgen`.
- `sha256.dfy` (module `Sha256`) models the class `SHA256` of
  testbenchwxmss.py. It uses 32-bit registers, and `next` is proved equal to
  the compression of section 6.2.2 of FIPS 180-4 over the full 64-word
  message schedule, although the class keeps only a sliding 16-word window.
- `wxmss_testbench.dfy` (module `WxmssTestbench`) models the module-level
  helpers of testbenchwxmss.py:
  - `hash_format`, a zero-padded 16-word formatter, not the padding of
    section 5.1.1 of FIPS 180-4;
  - `hash_unformat`;
  - `F_global`, `PRF_global` and `H_global`.
- `wxmss_tree.dfy` (module `WxmssTree`) models `chain_global`,
  `wots_pkGen_global`, `wots_sign_global`, `xmss_node` and `xmss_sign` of
  testbenchwxmss.py.
- `placeholder_testbench.dfy` (module `PlaceholderTestbench`) models
  testbenchwpalceholders.py, whose `xmss_node` is the hex SHA-256 digest of a
  string.
- `common.dfy` (module `Common`) holds the byte, integer and string encodings
  the drafts share: `to_bytes`/`from_bytes`, `str.encode()` as UTF-8,
  `bytes.hex()`, `str(int)`, and `range`.

The hash `hashlib.sha256` is a parameter `sha` that returns 32 bytes for any
input. The address serialisations `str(adrs.__dict__)` (help.py) and
`str(adrs)` (SigGenTestBench.py) are parameters too, `enc` and `repr`.

Things the proofs bring out about the drafts:

- In testbenchwxmss.py:
  - `PRF_global` never reads its index, so every WOTS+ chain starts from
    the same value (`WxmssTree.WotsPkParts`).
  - `hash_format` keeps only the first 64 bytes of text, so an inner node's
    hash reads its left child only (`WxmssTree.InnerNodeIgnoresRight`), and
    every node of a given height is the same (`WxmssTree.NodeIgnoresIndex`).
- In help.py, `fors_gen_leaf` clears the tree index that `fors_treehash`
  set, so all FORS leaves of a key pair are equal
  (`HelpTestbench.Fors.LeavesAgree`).
- In testbenchwpalceholders.py, the placeholder root joins the numbers
  without a separator, so index 1 at height 23 and index 12 at height 3 give
  the same node (`PlaceholderTestbench.NodesCollide`).

## Model

| member | source | states |
|---|---|---|
| Common.Be32 | SWtestbench.py:10 | `x.to_bytes(4, 'big')` is four bytes |
| Common.Be32RoundTrip | SWtestbench.py:12-16 | `int.from_bytes` of the four bytes `to_bytes` wrote gives x back |
| Common.Be32OfBeValue | SWtestbench.py:15-16 | every 4-byte slice reads as a value below 2^32, and writing that value recreates the slice |
| Common.BeValueBound | SWtestbench.py:16 | `int.from_bytes` of m bytes is below 2^(8m) |
| Common.Utf8Char | testbenchwpalceholders.py:14 | `str.encode()` writes 1 to 4 bytes per character, and exactly the code point for ASCII |
| Common.Utf8Append | testbenchwpalceholders.py:14 | encoding a concatenation concatenates the encodings |
| Common.Utf8Ascii | testbenchwxmss.py:171 | an ASCII string encodes to one byte per character, equal to its code point |
| Common.HexOf | testbenchwpalceholders.py:14 | `hexdigest()`/`.hex()` writes two hexadecimal digits per byte |
| Common.HexIsAscii | testbenchwxmss.py:171 | a hexadecimal string is ASCII, so it re-encodes byte for byte |
| Common.Str | testbenchwpalceholders.py:23 | `str(n)` is non-empty and starts with '-' exactly for negative n |
| Common.XorOne | testbenchwxmss.py:258 | `x ^ 1`: differs from x and has the same parent x // 2; non-negative for non-negative x (shared by the sibling indices of `xmss_sign` and `fors_sign`) |
| AddressBytes.SubtreeFitsFacts | SWtestbench.py:94-103 | when every key-pair address under (i, z) fits in four bytes, the indices and height fit, and so do both child subtrees |
| AddressBytes.Encode | SWtestbench.py:5-7 | the fields are laid out as the setters write them, 32 bytes in all |
| AddressBytes.DecodeEncode | SWtestbench.py:5-34 | reading the fields back from an encoded buffer gives the same fields |
| AddressBytes.EncodeDecode | SWtestbench.py:7 | every 32-byte buffer is the encoding of its decoded fields, so the field view loses nothing |
| AddressBytes.EncodeInjective | SWtestbench.py:5-34 | two buffers are equal only when all their fields are |
| AddressBytes.WordRoundTrip | SWtestbench.py:12-16 | a stored 4-byte word reads back as its value, and distinct values give distinct slices |
| AddressBytes.StoreWord | SWtestbench.py:9-22 | overwriting one 4-byte slice yields the encoding of the fields with only that word changed, so no other byte moves |
| AddressBytes.TypeAndClear | SWtestbench.py:24-28 | bytes 0..15 (layer, tree) are kept, the type is set, and key pair, height and index (bytes 20..31) become zero |
| AddressBytes.Adrs.constructor | SWtestbench.py:6-7 | a new address is 32 zero bytes |
| AddressBytes.Adrs.Of | SWtestbench.py:30-34 | an object built around given bytes has exactly the fields those bytes encode |
| AddressBytes.Adrs.Store | SWtestbench.py:10 | slice assignment replaces bytes off..off+3 and keeps all others |
| AddressBytes.Adrs.SetWord | SWtestbench.py:9-22 | a setter succeeds exactly when the value fits in four bytes, and then changes only its own word; when it raises, the buffer is unchanged |
| AddressBytes.Adrs.SetLayerAddress | SWtestbench.py:9-10 | bytes 0..3 become x, or `OverflowError` with nothing changed (same code at testbenchdraft.py:15-17) |
| AddressBytes.Adrs.SetKeyPairAddress | SWtestbench.py:12-13 | bytes 20..23 become x, or `OverflowError` with nothing changed (testbenchdraft.py:19-21) |
| AddressBytes.Adrs.GetKeyPairAddress | SWtestbench.py:15-16 | the key-pair slice read as a number below 2^32, which writing back reproduces the slice (testbenchdraft.py:23-25) |
| AddressBytes.Adrs.SetTreeIndex | SWtestbench.py:18-19 | bytes 28..31 become x, or `OverflowError` with nothing changed (testbenchdraft.py:27-29) |
| AddressBytes.Adrs.SetTreeHeight | SWtestbench.py:21-22 | bytes 24..27 become h, or `OverflowError` with nothing changed (testbenchdraft.py:31-33) |
| AddressBytes.Adrs.SetTypeAndClear | SWtestbench.py:24-28 | the type is set, bytes 20..31 are zeroed and bytes 0..15 are kept, or `OverflowError` with nothing changed (testbenchdraft.py:35-39) |
| AddressBytes.Adrs.Copy | SWtestbench.py:30-34 | the copy holds a fresh buffer with the same fields, so later writes to either do not reach the other (testbenchdraft.py:41-44) |
| AddressFields.TypeAndClear | SigGenTestBench.py:27-30 | the type is set, height and index become zero, and the key pair is kept |
| AddressFields.TypeAndClearForgets | SigGenTestBench.py:27-30 | two records agree after `set_type_and_clear(t)` exactly when their key pairs agree: the old height and index are lost |
| AddressFields.Adrs.constructor | SigGenTestBench.py:13-17 | all four fields start at zero |
| AddressFields.Adrs.Copy | SigGenTestBench.py:19-25 | a fresh object with the same four fields (same code at help.py:19-25) |
| AddressFields.Adrs.SetTypeAndClear | SigGenTestBench.py:27-30 | the record becomes its `set_type_and_clear` image and is otherwise unchanged |
| AddressFields.Adrs.SetKeyPairAddress | SigGenTestBench.py:32-33 | only the key pair changes |
| AddressFields.Adrs.SetTreeIndex | SigGenTestBench.py:35-36 | only the tree index changes |
| AddressFields.Adrs.SetTreeHeight | SigGenTestBench.py:38-39 | only the tree height changes |
| AddressFields.CopyIsIndependent | SigGenTestBench.py:19-25 | after a copy, a write to the copy and a write to the original are each seen only by the object written |
| AddressFields.WotsPrfAdrs | SigGenTestBench.py:56-61 | the PRF address of pass j is typed WOTS_PRF with the caller's key pair, height 0 and index j |
| AddressFields.WotsPkAdrs | SigGenTestBench.py:65-66 | the compression address is typed WOTS_PK with the caller's key pair, height 0 and index 0 |
| AddressFields.WotsPkAdrsAfterLoop | SigGenTestBench.py:60-66 | the index writes of the loop do not reach the WOTS_PK address |
| AddressFields.LastLeafOfRightChild | SigGenTestBench.py:76-77 | the last leaf under node (i, z) is the last leaf under its right child, i·2^z + 2^z − 1 |
| AddressFields.XmssNodeAfter | SigGenTestBench.py:70-82 | after `xmss_node(i, z)` the key pair is the last leaf visited, (i+1)·2^z − 1 |
| SwTestbench.Xmss.constructor | SWtestbench.py:43-47 | the object keeps w, hp, d and len as given |
| SwTestbench.Xmss.ChainSplit | SWtestbench.py:64-70 | running `chain` over start..j equals running it over start..m and then over m..j with the intermediate value |
| SwTestbench.Xmss.ChainLength | SWtestbench.py:64-70 | with no passes `chain` returns sk itself, otherwise a 32-byte digest |
| SwTestbench.Xmss.ChainIgnoresIndex | SWtestbench.py:64-70 | the chain's value does not depend on the tree index the address held before, since every pass overwrites it |
| SwTestbench.Xmss.Chain | SWtestbench.py:64-70 | `chain(sk, start, stop)` applies `prf` once per index start..stop, returns sk itself when stop < start, and otherwise leaves the index at stop |
| SwTestbench.Xmss.SkBase | SWtestbench.py:74-76 | the `sk_adrs` copy is typed WOTS_PRF with the caller's layer, tree and key pair, height and index zero |
| SwTestbench.Xmss.WotsTmpLength | SWtestbench.py:77-82 | after i passes `tmp` has 32·i bytes |
| SwTestbench.Xmss.TypedCopy | SWtestbench.py:83-85 | the WOTS_PK copy keeps layer, tree and the caller's key pair, with height and index zero |
| SwTestbench.Xmss.WotsPass | SWtestbench.py:79-82 | pass i appends the chain of w steps from the PRF output under index i, and advances both addresses to pass i |
| SwTestbench.Xmss.WotsPkgen | SWtestbench.py:72-87 | the result is `h_t` under the WOTS_PK address over all `len` chains, and the caller's address ends at the last chain's index |
| SwTestbench.Xmss.ChildrenInRange | SWtestbench.py:91-99 | both children of an accepted inner node are accepted, so the recursion never sees None |
| SwTestbench.Xmss.ChildrenFit | SWtestbench.py:98-99 | the children of an accepted node whose key pairs fit are accepted and fit too |
| SwTestbench.Xmss.NodeAfter | SWtestbench.py:93-103 | `xmss_node` never changes the layer and tree bytes of the address |
| SwTestbench.Xmss.NodeValueInner | SWtestbench.py:97-103 | an inner node is `h_h` under TREE, height z and index i over the left child (2i) and then the right child (2i+1) |
| SwTestbench.Xmss.XmssNode | SWtestbench.py:89-104 | None exactly when z > hp or i ≥ 2^(hp−z), with the address then untouched; otherwise the tree node, with the address left as the last step wrote it |
| SwTestbench.Xmss.LeafNode | SWtestbench.py:93-96 | a leaf is the WOTS+ public key under key pair i |
| SwTestbench.Xmss.InnerNode | SWtestbench.py:97-103 | an inner node hashes its two children under its TREE address |
| SwTestbench.Xmss.Children | SWtestbench.py:98-99 | the two recursive calls return the values of the children 2i and 2i+1 and keep layer and tree |
| SwTestbench.Xmss.Child | SWtestbench.py:98-99 | one recursive call returns the child's value and keeps layer and tree |
| SwTestbench.Xmss.SlhKeygenInternal | SWtestbench.py:106-113 | fails exactly when d − 1 does not fit in the layer word; otherwise pk = pk_seed‖root of layer d−1 and sk = sk_seed‖sk_prf‖pk_seed‖root, so pk is the tail of sk |
| SwTestbench.Xmss.Prf | SWtestbench.py:49-52 | definition, no contract: SHA-256 of sk_seed, pk_seed and the address bytes, in that order |
| SwTestbench.Xmss.Ht | SWtestbench.py:54-57 | definition, no contract: SHA-256 of pk_seed, the address bytes and tmp |
| SwTestbench.Xmss.Hh | SWtestbench.py:59-62 | definition, no contract: SHA-256 of pk_seed, the address bytes and the nodes |
| SwTestbench.Xmss.WotsTmp | SWtestbench.py:72-87 | definition, no contract: `tmp` after i passes; WotsTmpLength and the WotsPkgen contract tie the loop to it |
| SwTestbench.Xmss.WotsPk | SWtestbench.py:72-87 | definition, no contract: `h_t` under the WOTS_PK address over all chains, the value WotsPkgen is proved to return |
| SwTestbench.Xmss.NodeValue | SWtestbench.py:89-104 | definition, no contract: the node value by height and index, which XmssNode is proved to return for every node inside the tree |
| DraftTestbench.Xmss.constructor | testbenchdraft.py:48-52 | the object keeps n, w, hp and d as given |
| DraftTestbench.Xmss.SkBase | testbenchdraft.py:64-66 | the `sk_adrs` copy is typed WOTS_PRF with the caller's layer, tree and key pair, height and index zero |
| DraftTestbench.Xmss.WotsTmpLength | testbenchdraft.py:67-72 | after i passes `tmp` has 32·i bytes |
| DraftTestbench.Xmss.WotsTmpPrefix | testbenchdraft.py:68-72 | later passes only append: the first m blocks after i passes are `tmp` after m passes |
| DraftTestbench.Xmss.WotsTmpBlock | testbenchdraft.py:68-72 | block j of `tmp` is `h_h` under the caller's address with index j over the PRF output under WOTS_PRF, key pair, index j |
| DraftTestbench.Xmss.WotsPass | testbenchdraft.py:69-72 | pass i computes block i and advances both addresses to index i |
| DraftTestbench.Xmss.SkCopy | testbenchdraft.py:64-66 | the `sk_adrs` copy is fresh and holds the WOTS_PRF address |
| DraftTestbench.Xmss.PkCopy | testbenchdraft.py:73-74 | the `wotspk_adrs` copy is fresh and typed WOTS_PK with its key pair cleared |
| DraftTestbench.Xmss.WotsPkgen | testbenchdraft.py:62-76 | the result compresses all n blocks under the WOTS_PK address, and the caller's address ends with index n−1 |
| DraftTestbench.Xmss.NodeAfter | testbenchdraft.py:78-91 | `xmss_node` never changes bytes 0..15 (layer and tree) of the address |
| DraftTestbench.Xmss.NodeValueInner | testbenchdraft.py:84-90 | an inner node is `h_h` under TREE, height z, index i and key pair 0 over node (2i, z−1) and then node (2i+1, z−1) |
| DraftTestbench.Xmss.XmssNode | testbenchdraft.py:78-91 | the result is the tree node of the address's layer and tree, and the address ends as the last step wrote it |
| DraftTestbench.Xmss.LeafNode | testbenchdraft.py:80-83 | a leaf is the WOTS+ public key under key pair i |
| DraftTestbench.Xmss.InnerNode | testbenchdraft.py:84-90 | an inner node hashes its two children under its TREE address |
| DraftTestbench.Xmss.Children | testbenchdraft.py:85-86 | the two recursive calls return nodes 2i and 2i+1 and keep layer and tree |
| DraftTestbench.Xmss.Child | testbenchdraft.py:85-86 | one recursive call returns the child's value and keeps layer and tree |
| DraftTestbench.Xmss.SlhKeygenInternal | testbenchdraft.py:93-100 | fails exactly when d − 1 does not fit; otherwise pk = pk_seed‖root of layer d−1 and sk = sk_seed‖sk_prf‖pk_seed‖root, with pk the tail of sk |
| DraftTestbench.Xmss.Prf | testbenchdraft.py:54-56 | definition, no contract: SHA-256 of pk_seed, sk_seed and the address bytes |
| DraftTestbench.Xmss.Hh | testbenchdraft.py:58-60 | definition, no contract: SHA-256 of pk_seed, the address bytes and the nodes |
| DraftTestbench.Xmss.WotsTmp | testbenchdraft.py:62-76 | definition, no contract: `tmp` after i passes, each hashing one `prf` output; the WotsPkgen contract ties the loop to it |
| DraftTestbench.Xmss.WotsPk | testbenchdraft.py:62-76 | definition, no contract: `h_h` under the WOTS_PK address over `tmp`, the value WotsPkgen is proved to return |
| DraftTestbench.Xmss.NodeValue | testbenchdraft.py:78-91 | definition, no contract: the node value by height and index, which XmssNode is proved to return |
| SigGenTestbench.Xmss.constructor | SigGenTestBench.py:43-47 | the object keeps its parameters |
| SigGenTestbench.Xmss.SkCopy | SigGenTestBench.py:56-58 | `sk_adrs` is a fresh record typed WOTS_PRF with the caller's key pair |
| SigGenTestbench.Xmss.WotsPkgen | SigGenTestBench.py:55-68 | the caller's record only has its tree index rewritten, ending at n − 1 |
| SigGenTestbench.Xmss.XmssNode | SigGenTestBench.py:70-82 | the record ends at node (i, z)'s TREE address with key pair (i+1)·2^z − 1 |
| SigGenTestbench.Xmss.SlhKeygenInternal | SigGenTestBench.py:84-89 | pk is pk_seed followed by a 32-byte root, and sk = sk_seed‖sk_prf‖pk |
| SigGenTestbench.Base2b | SigGenTestBench.py:110-112 | exactly k indices (none for k ≤ 0), each below 2^a |
| SigGenTestbench.Base2bPastEnd | SigGenTestBench.py:111 | an index past the end of the digest is 0 |
| SigGenTestbench.Base2bWide | SigGenTestBench.py:111 | for a ≥ 8 each index is the whole byte |
| SigGenTestbench.Base2bLowBits | SigGenTestBench.py:111 | each index agrees with its byte modulo 2^a, i.e. it holds the byte's low a bits |
| SigGenTestbench.ShlIsMul | SigGenTestBench.py:140 | `x << m` is x·2^m |
| SigGenTestbench.ShrIsDiv | SigGenTestBench.py:142 | `x >> m` is x div 2^m |
| SigGenTestbench.ShlNext | SigGenTestBench.py:140 | consecutive trees start 2^m apart |
| SigGenTestbench.ShrBelow | SigGenTestBench.py:142 | shifting a value below 2^(m+j) right by j gives a value below 2^m |
| SigGenTestbench.ShrOverShl | SigGenTestBench.py:142-143 | shifting right by j passes through a term shifted left by m + j |
| SigGenTestbench.LeafIndexInTree | SigGenTestBench.py:140 | the secret leaf index (i << a) + indices[i] lies in [i·2^a, (i+1)·2^a) |
| SigGenTestbench.AuthIndexInTree | SigGenTestBench.py:141-143 | the level-j authentication index lies in [i·2^(a−j), (i+1)·2^(a−j)) |
| SigGenTestbench.AuthIsSibling | SigGenTestBench.py:141-143 | the level-j authentication node is the sibling of the leaf's ancestor at height j |
| SigGenTestbench.Fors.constructor | SigGenTestBench.py:93-96 | the object keeps n, a and k |
| SigGenTestbench.Fors.SkCopy | SigGenTestBench.py:115-118 | the PRF address is a fresh record typed FORS_PRF with the caller's key pair and index idx |
| SigGenTestbench.Fors.ForsSkGen | SigGenTestBench.py:114-119 | the caller's record is left as it was; this follows from the method having no modifies clause and says nothing about the secret it returns |
| SigGenTestbench.Fors.ForsNode | SigGenTestBench.py:121-133 | the record ends with height z and index i, with type and key pair never touched |
| SigGenTestbench.Fors.SignedAdrs | SigGenTestBench.py:139-143 | the record after the first i trees keeps its type and key pair; it is unchanged when no authentication node is computed, and otherwise holds height a − 1 and an index in {2(i−1), 2(i−1)+1}, the top level of tree i − 1 |
| SigGenTestbench.Fors.ForsSign | SigGenTestBench.py:135-144 | the signature is k·(a+1) digests of 32 bytes, and the caller's record ends as SignedAdrs after all k trees: at the height and index of the last authentication node, with type and key pair kept |
| SigGenTestbench.Xmss.Prf | SigGenTestBench.py:49-50 | definition, no contract: SHA-256 of pk_seed, sk_seed and the address text, in that order |
| SigGenTestbench.Xmss.Hh | SigGenTestBench.py:52-53 | definition, no contract: SHA-256 of pk_seed, the address text and the nodes |
| SigGenTestbench.Fors.Prf | SigGenTestBench.py:98-99 | definition, no contract: SHA-256 of pk_seed, sk_seed and the address text |
| SigGenTestbench.Fors.Hf | SigGenTestBench.py:101-102 | definition, no contract: SHA-256 of pk_seed, the address text and the secret |
| SigGenTestbench.Fors.Hh | SigGenTestBench.py:104-105 | definition, no contract: SHA-256 of pk_seed, the address text and the nodes |
| SigGenTestbench.ByteAt | SigGenTestBench.py:110-112 | definition, no contract: `int.from_bytes(md[i:i + 1], 'big')`, byte i or 0 past the end |
| SigGenTestbench.Shl | SigGenTestBench.py:140-143 | definition, no contract: `x << m` for non-negative x; its relation to multiplication by 2^m is a lemma |
| SigGenTestbench.Shr | SigGenTestBench.py:140-143 | definition, no contract: `x >> m` for non-negative x; its relation to division by 2^m is a lemma |
| SigGenTestbench.LeafIndex | SigGenTestBench.py:140 | definition, no contract: `(i << a) + idx`, the secret's index across the k trees |
| SigGenTestbench.AuthIndex | SigGenTestBench.py:142-143 | definition, no contract: `(i << (a - j)) + ((idx >> j) ^ 1)`; AuthIsSibling states its meaning |
| HelpTestbench.Xmss.constructor | help.py:94-98 | the object keeps its parameters and the two hash parameters |
| HelpTestbench.Xmss.WotsTmpLength | help.py:114-119 | after i passes `tmp` has 32·i bytes |
| HelpTestbench.Xmss.WotsTmpBlock | help.py:115-119 | block j of `tmp` is `h_h` under the caller's record with index j over the PRF output under WOTS_PRF, the caller's key pair and index j |
| HelpTestbench.Xmss.WotsPkgen | help.py:110-123 | the result compresses all n blocks under the WOTS_PK copy, and the caller's record ends with index n − 1 |
| HelpTestbench.Xmss.XmssNode | help.py:125-137 | the node value by position (children 2i, 2i+1, inner nodes under TREE, height z, index i), with the record left at key pair (i+1)·2^z − 1 |
| HelpTestbench.Xmss.SlhKeygenInternal | help.py:139-145 | pk = pk_seed‖root, sk = sk_seed‖sk_prf‖pk_seed‖root with pk the tail of sk, and the signature is `sign_message(sk, b'Example message')` |
| HelpTestbench.Fors.constructor | help.py:153-156 | the object keeps n, a, k and the two hash parameters |
| HelpTestbench.Fors.ForsGenLeaf | help.py:168-173 | the record ends typed FORS_ROOTS with height and index zero and the key pair kept; the leaf depends on the key pair alone |
| HelpTestbench.Fors.ForsTreehash | help.py:175-186 | the value hashes the subtrees at s and s + 2^(t−1) under height t and index s div 2^t, and the record ends at that address |
| HelpTestbench.Fors.ChildStarts | help.py:180-184 | when 2^t divides s, 2^(t−1) divides both child starts, and they start nodes 2(s/2^t) and 2(s/2^t)+1 |
| HelpTestbench.Fors.TreehashByPosition | help.py:175-186 | started at s = i·2^t, `fors_treehash` computes node i of height t of the tree by position |
| HelpTestbench.Fors.TreehashAt | help.py:175-186 | the induction over the start s that establishes the position form |
| HelpTestbench.Fors.LeavesAgree | help.py:176-178 | every leaf of a key pair has the same value, because `fors_gen_leaf` clears the index that was just set |
| HelpTestbench.Fors.ForsPkBlock | help.py:189-193 | block i of the public key is the root of tree i, computed with key pair i |
| HelpTestbench.Fors.ForsPkLength | help.py:189-193 | m trees give 32·m bytes |
| HelpTestbench.Fors.ForsPkgen | help.py:188-194 | the result is the k roots in order, and the record is left at tree k−1's root address (untouched for k ≤ 0) |
| HelpTestbench.Fors.ForsKeygenInternal | help.py:196-202 | pk = pk_seed‖fors_pk and sk = sk_seed‖sk_prf‖pk_seed‖fors_pk with pk the tail of sk and 32·k bytes of roots; the signature hashes sk and the example message |
| HelpTestbench.Xmss.Prf | help.py:100-103 | definition, no contract: SHA-256 of pk_seed, sk_seed and the record's encoding |
| HelpTestbench.Xmss.Hh | help.py:105-108 | definition, no contract: SHA-256 of pk_seed, the record's encoding and the nodes |
| HelpTestbench.Xmss.SignMessage | help.py:147-149 | definition, no contract: SHA-256 of the key followed by the message |
| HelpTestbench.Xmss.WotsTmp | help.py:110-123 | definition, no contract: `tmp` after i passes of the `wots_pkgen` loop |
| HelpTestbench.Xmss.WotsPk | help.py:110-123 | definition, no contract: `tmp` of all n passes compressed under the WOTS_PK copy, the value WotsPkgen is proved to return |
| HelpTestbench.Xmss.NodeValue | help.py:125-137 | definition, no contract: the node value by height and index, which XmssNode is proved to return |
| HelpTestbench.Fors.Prf | help.py:158-161 | definition, no contract: SHA-256 of pk_seed, sk_seed and the record's encoding |
| HelpTestbench.Fors.Hf | help.py:163-166 | definition, no contract: SHA-256 of pk_seed, the record's encoding and the message |
| HelpTestbench.Fors.SignMessage | help.py:204-206 | definition, no contract: SHA-256 of the key followed by the message |
| HelpTestbench.Fors.TreehashValue | help.py:175-186 | definition, no contract: the value of `fors_treehash` from start s and height t, which ForsTreehash is proved to return |
| HelpTestbench.Fors.PositionValue | help.py:175-186 | definition, no contract: an independent node-by-position reference; TreehashByPosition proves `fors_treehash` agrees with it at aligned starts |
| HelpTestbench.Fors.ForsPk | help.py:188-194 | definition, no contract: the roots of the first m trees concatenated; ForsPkBlock states its layout |
| Sha256.RotationsAreRotations | testbenchwxmss.py:159-160 | for every amount the class uses, the shift-and-or formula is a 32-bit rotation right |
| Sha256.IV | testbenchwxmss.py:46-56 | both modes load eight initial words |
| Sha256.AddRegs | testbenchwxmss.py:83-91 | adding the registers keeps eight digest words |
| Sha256.Window | testbenchwxmss.py:117-129 | the message window has 16 words in every round |
| Sha256.WindowAt | testbenchwxmss.py:117-129 | proof helper: window slot i at round r holds schedule word WindowStart(r) + i |
| Sha256.WindowStep | testbenchwxmss.py:117-129 | below round 16 the window holds word r and stays as it is; from 16 on, the new word is schedule word r, and shifting it in gives the next round's window |
| Sha256.Compress | testbenchwxmss.py:58-68 | one block maps eight hash words to eight |
| Sha256.Engine.constructor | testbenchwxmss.py:6-44 | H holds the mode's initial values, the registers are zero, and W is sixteen zeros |
| Sha256.Engine.Init | testbenchwxmss.py:46-56 | H is reset to the mode's initial values and nothing else changes |
| Sha256.Engine.GetDigest | testbenchwxmss.py:70-71 | returns H |
| Sha256.Engine.WSchedule | testbenchwxmss.py:131-133 | W becomes the block's first 16 words |
| Sha256.Engine.CopyDigest | testbenchwxmss.py:73-81 | the registers a..h become H[0..7], and H is kept |
| Sha256.Engine.UpdateDigest | testbenchwxmss.py:83-91 | each H[i] becomes H[i] + reg_i modulo 2^32 |
| Sha256.Engine.NextW | testbenchwxmss.py:117-129 | below round 16, W[round] with W unchanged; otherwise δ1(W[14]) + W[9] + δ0(W[1]) + W[0] modulo 2^32, with W shifted left and the new word at W[15] |
| Sha256.Engine.Sha256Round | testbenchwxmss.py:103-115 | the registers shift down one place, e becomes d + T1 and a becomes T1 + T2 (modulo 2^32), and H is kept |
| Sha256.Engine.Next | testbenchwxmss.py:58-68 | H becomes the section 6.2.2 compression of the old H and the block, using the full 64-word schedule |
| Sha256.Rotr32 | testbenchwxmss.py:159-160 | definition, no contract: rotate right by r within 32 bits |
| Sha256.Shr32 | testbenchwxmss.py:162-163 | definition, no contract: logical shift right |
| Sha256.Add32 | testbenchwxmss.py:153-157 | definition, no contract: addition modulo 2^32, the source's `& 0xffffffff` after each sum |
| Sha256.Ch | testbenchwxmss.py:135-136 | definition, no contract: `(x & y) ^ (~x & z)` on 32-bit words |
| Sha256.Maj | testbenchwxmss.py:138-139 | definition, no contract: bitwise majority of x, y, z |
| Sha256.Sigma0 | testbenchwxmss.py:141-142 | definition, no contract: rotations by 2, 13, 22 combined by xor |
| Sha256.Sigma1 | testbenchwxmss.py:144-145 | definition, no contract: rotations by 6, 11, 25 combined by xor |
| Sha256.Delta0 | testbenchwxmss.py:147-148 | definition, no contract: rotations by 7, 18 and a shift by 3 combined by xor |
| Sha256.Delta1 | testbenchwxmss.py:150-151 | definition, no contract: rotations by 17, 19 and a shift by 10 combined by xor |
| Sha256.T1 | testbenchwxmss.py:153-154 | definition, no contract: h + Sigma1(e) + Ch(e, f, g) + k + w modulo 2^32 |
| Sha256.T2 | testbenchwxmss.py:156-157 | definition, no contract: Sigma0(a) + Maj(a, b, c) modulo 2^32 |
| Sha256.Round | testbenchwxmss.py:103-115 | definition, no contract: one round's new registers (a := T1 + T2, e := d + T1, the rest shifted down) |
| Sha256.Schedule | testbenchwxmss.py:117-133 | definition, no contract: the reference message schedule W_t that the sliding window is proved to produce |
| Sha256.NewWord | testbenchwxmss.py:121-124 | definition, no contract: `delta1(W[14]) + W[9] + delta0(W[1]) + W[0]` modulo 2^32 |
| Sha256.Run | testbenchwxmss.py:64-66 | definition, no contract: the registers after the first t rounds, against which the round loop is proved |
| WxmssTestbench.DigitValue | testbenchwxmss.py:175 | a hex digit's value is below 16 and renders back as the same digit |
| WxmssTestbench.DigitOfHex | testbenchwxmss.py:175 | reading a rendered digit gives its value back |
| WxmssTestbench.HexValueBound | testbenchwxmss.py:175 | m hex digits read as a value below 2^(4m) |
| WxmssTestbench.HexN | testbenchwxmss.py:186 | a zero-padded rendering has exactly m hex digits |
| WxmssTestbench.HexNValue | testbenchwxmss.py:186 | reading an m-digit rendering of v < 2^(4m) gives v |
| WxmssTestbench.Hex8 | testbenchwxmss.py:186 | `f"{x:08x}"` is eight hex digits |
| WxmssTestbench.Hex8RoundTrip | testbenchwxmss.py:186 | reading `f"{x:08x}"` as hex gives x |
| WxmssTestbench.JoinHex | testbenchwxmss.py:186 | joining renders eight digits per word |
| WxmssTestbench.JoinHexAt | testbenchwxmss.py:186 | characters 8i..8i+7 of the join are word i's digits |
| WxmssTestbench.JoinHexAppend | testbenchwxmss.py:186 | joining a concatenation concatenates the joins |
| WxmssTestbench.UnformatWords | testbenchwxmss.py:182-186 | each word of a list can be read back from its eight digits |
| WxmssTestbench.UnformatText | testbenchwxmss.py:184-185 | a string comes back unchanged |
| WxmssTestbench.ChunksStep | testbenchwxmss.py:174-175 | the pieces of a hex string are its first (up to) eight digits and then the pieces of the rest |
| WxmssTestbench.ChunksFrom | testbenchwxmss.py:174-175 | the same split, from any start offset |
| WxmssTestbench.ChunksAt | testbenchwxmss.py:174-175 | there are ⌈len/8⌉ pieces, and piece i reads digits 8i up to 8i+8 (or the end) |
| WxmssTestbench.ChunksBound | testbenchwxmss.py:174-175 | every piece is below 2^32 |
| WxmssTestbench.PieceBound | testbenchwxmss.py:175 | at most eight digits read as a value below 2^32 |
| WxmssTestbench.ChunksAppend | testbenchwxmss.py:174-175 | splitting a prefix whose length is a multiple of 8 and then the rest gives the same pieces |
| WxmssTestbench.Pad16 | testbenchwxmss.py:177-179 | exactly 16 words: the first 16 pieces, then zeros |
| WxmssTestbench.FormatHex | testbenchwxmss.py:169-171 | the hex text has two digits per encoded byte |
| WxmssTestbench.FormatWords | testbenchwxmss.py:167-179 | `hash_format` returns 16 words, each below 2^32 |
| WxmssTestbench.HexOfAppend | testbenchwxmss.py:171 | the hex of a concatenation concatenates the hexes |
| WxmssTestbench.HexOfSlice | testbenchwxmss.py:171-175 | digits 2i..2j of the hex are the hex of bytes i..j |
| WxmssTestbench.HexOfThree | testbenchwxmss.py:171 | the hex of three joined parts is the three hexes joined |
| WxmssTestbench.HexOfValue | testbenchwxmss.py:171-175 | reading the hex of some bytes gives their big-endian value |
| WxmssTestbench.FormatPacksBytes | testbenchwxmss.py:167-179 | word i is the big-endian value of encoded bytes 4i..4i+3 (short or empty at the end) |
| WxmssTestbench.HashFormat | testbenchwxmss.py:167-179 | the loops produce exactly the formatted block: the pieces, zero-padded, cut at 16 |
| WxmssTestbench.SplitWords | testbenchwxmss.py:174-175 | the chunk loop collects the consecutive pieces of eight digits |
| WxmssTestbench.PadCut | testbenchwxmss.py:177-179 | the zero-padding loop followed by `[:16]` yields the padded block |
| WxmssTestbench.FormatIgnoresTail | testbenchwxmss.py:167-179 | an ASCII text of 64 or more characters formats the same whatever follows it |
| WxmssTestbench.PadIgnoresTail | testbenchwxmss.py:177-179 | once the hex text fills 16 pieces, more digits do not change the block |
| WxmssTestbench.Block | testbenchwxmss.py:194 | the formatted words as the 16 32-bit words `next` takes |
| WxmssTestbench.DigestWords | testbenchwxmss.py:195 | the digest keeps its length as Python integers |
| WxmssTestbench.F | testbenchwxmss.py:189-195 | a hash is eight 32-bit words |
| WxmssTestbench.FGlobal | testbenchwxmss.py:189-195 | `F_global` is one compression from the SHA-256 initial values of the formatted block |
| WxmssTestbench.PrfGlobal | testbenchwxmss.py:198-204 | `PRF_global(seed, index)` is `F` of the seed, whatever the index |
| WxmssTestbench.HGlobal | testbenchwxmss.py:207-213 | `H_global` is the same `F` |
| WxmssTestbench.HashSeesText | testbenchwxmss.py:169-170 | proof helper: hashing a list is hashing its hex text |
| WxmssTestbench.HashReadsFirstBlock | testbenchwxmss.py:167-179 | an ASCII text of 64 or more characters hashes the same whatever follows it |
| WxmssTestbench.HashReadsFirstDigest | testbenchwxmss.py:244-251 | a digest followed by more words hashes as the digest alone |
| WxmssTestbench.HexValue | testbenchwxmss.py:174-175 | definition, no contract: `int(digits, 16)`; its bound and round trip are the lemmas HexValueBound and Hex8RoundTrip |
| WxmssTestbench.Unformat | testbenchwxmss.py:182-186 | definition, no contract: a string as it is, a list as its words' digits; its properties are UnformatWords and UnformatText |
| WxmssTestbench.Chunks | testbenchwxmss.py:174-175 | definition, no contract: the values of consecutive eight-digit pieces, the last one possibly shorter; its properties are ChunksStep, ChunksAt and ChunksBound |
| WxmssTree.ChainIsDigest | testbenchwxmss.py:216-220 | after at least one pass, or when X already is a digest, the value is an eight-word digest |
| WxmssTree.ChainStep | testbenchwxmss.py:218-219 | proof helper: each pass replaces X by `F_global` of its text |
| WxmssTree.ChainGlobal | testbenchwxmss.py:216-220 | `chain_global(X, i, s)` applies `F_global` exactly s times (none for s ≤ 0, returning X) |
| WxmssTree.ChainText | testbenchwxmss.py:228 | a chain from a PRF output renders as 64 hex digits |
| WxmssTree.JoinAllAt | testbenchwxmss.py:229 | joining 64-digit parts gives 64 digits per part, part j at 64j |
| WxmssTree.Firsts | testbenchwxmss.py:226-228 | the list of the first n values of f |
| WxmssTree.FirstsSnoc | testbenchwxmss.py:228 | appending value i extends the first i values to the first i + 1 |
| WxmssTree.WotsPkParts | testbenchwxmss.py:223-229 | the public key is `length` parts of 64 digits, and every part is the same w − 1 step chain, since `PRF_global` ignores its index |
| WxmssTree.WotsPkGenGlobal | testbenchwxmss.py:223-229 | the loop builds the joined public key |
| WxmssTree.Iterations | testbenchwxmss.py:238 | each step count is below 16 |
| WxmssTree.IterationsOfDigest | testbenchwxmss.py:238 | for an eight-word digest the count is digest[i mod 8] mod 16 |
| WxmssTree.WotsSigParts | testbenchwxmss.py:232-241 | the signature is 32 parts, 2048 digits in all, and part i is the chain of `Iterations(F(M), i)` steps |
| WxmssTree.WotsSignGlobal | testbenchwxmss.py:232-241 | the loop builds the joined signature |
| WxmssTree.XmssNode | testbenchwxmss.py:244-251 | a leaf is text (a WOTS+ public key), an inner node an eight-word digest |
| WxmssTree.NodeIgnoresIndex | testbenchwxmss.py:244-251 | a node's value does not depend on i, only on the height |
| WxmssTree.InnerNodeIgnoresRight | testbenchwxmss.py:248-251 | an inner node is the hash of its left child alone: the right child falls past the first block |
| WxmssTree.LeafParentIgnoresRight | testbenchwxmss.py:248-251 | the same at height 1, where the children are texts |
| WxmssTree.InnerParentIgnoresRight | testbenchwxmss.py:248-251 | the same above height 1, where the children are digests |
| WxmssTree.NodeUnfold | testbenchwxmss.py:248-251 | proof helper: an inner node is `H_global` of the two children joined |
| WxmssTree.SiblingOfAncestor | testbenchwxmss.py:258 | (idx div 2^j) xor 1 differs from the ancestor idx div 2^j, shares its parent, and leads back to it |
| WxmssTree.AuthPathIgnoresIndex | testbenchwxmss.py:256-260 | the authentication path does not depend on idx |
| WxmssTree.XmssSign | testbenchwxmss.py:254-262 | the auth path holds, for each level j < h, the node at the sibling index at height j, and the signature is `wots_sign_global(M, SK_seed)` |
| WxmssTree.Chain | testbenchwxmss.py:216-220 | definition, no contract: X after n passes of `chain_global`; ChainIsDigest states what it holds |
| WxmssTree.WotsPk | testbenchwxmss.py:223-229 | definition, no contract: `length` chains of w - 1 steps from the seed's digest, joined; the lemmas beside it state its shape |
| WxmssTree.WotsSig | testbenchwxmss.py:232-241 | definition, no contract: 32 chains, chain i taking `digest[i % 8] % 16` steps, joined |
| WxmssTree.Sibling | testbenchwxmss.py:258 | definition, no contract: `(idx // 2**j) ^ 1`; SiblingOfAncestor states its meaning |
| WxmssTree.AuthPath | testbenchwxmss.py:254-262 | definition, no contract: the sibling node at each of `height` levels; AuthPathIgnoresIndex states that it does not depend on the leaf |
| PlaceholderTestbench.Adrs.constructor | testbenchwpalceholders.py:5-6 | the layer starts at 0 |
| PlaceholderTestbench.Adrs.SetLayerAddress | testbenchwpalceholders.py:8-9 | the layer becomes the argument |
| PlaceholderTestbench.HashFunction | testbenchwpalceholders.py:12-14 | the result is 64 hexadecimal digits |
| PlaceholderTestbench.XmssNode | testbenchwpalceholders.py:17-24 | the node is 64 hexadecimal digits and reads the inputs only through the joined string |
| PlaceholderTestbench.NodesCollide | testbenchwpalceholders.py:23 | index 1 at height 23 and index 12 at height 3 give the same string and therefore the same node |
| PlaceholderTestbench.TestBench.constructor | testbenchwpalceholders.py:28-30 | the object keeps d and hp |
| PlaceholderTestbench.TestBench.Root | testbenchwpalceholders.py:34-36 | the root of layer d−1 at index 0 and height hp is 64 hexadecimal digits |
| PlaceholderTestbench.TestBench.SlhKeygenInternal | testbenchwpalceholders.py:32-39 | pk = pk_seed + root of layer d−1 and sk = sk_seed + sk_prf + pk, so pk is the tail of sk, len(pk) = len(pk_seed) + 64, and the root follows the seed in pk |
| PlaceholderTestbench.Combined | testbenchwpalceholders.py:23 | definition, no contract: sk_seed, pk_seed and the decimal text of start_idx, hp and the layer, concatenated |

## Left out

- Writing CSV files, `print`, `input()`, `main` and `test_bench`: these are I/O.
- `hashlib.sha256` and the wrapper class `SHA256` of help.py (help.py:42-90): the hash is the parameter `sha`, returning 32 bytes for any input.
- `str(adrs.__dict__)` (help.py:102): it is the parameter `enc`, an unspecified function of the four fields.
- `str(adrs)` (SigGenTestBench.py:50): it is Python's default object repr, which names the object and none of its fields, so it is the parameter `repr` of the object reference.
- SigGenTestbench.Xmss.WotsPkgen: states the address walk, not the value, because the hashed copies are fresh objects whose repr no caller can name.
- SigGenTestbench.Xmss.XmssNode: states the address walk, not the node value, for the same reason.
- SigGenTestbench.Xmss.SlhKeygenInternal: states the layout of pk and sk but not the root's value, for the same reason.
- SigGenTestbench.Fors.ForsSkGen: states that the caller's record is untouched, not the secret's value, for the same reason.
- SigGenTestbench.Fors.ForsNode: states the address walk, not the node values, for the same reason.
- SigGenTestbench.Fors.ForsSign: states the length and the caller's final record, not the signature bytes, for the same reason; its index arithmetic is proved in `LeafIndexInTree`, `AuthIndexInTree` and `AuthIsSibling`.
- `sign_message` (help.py:147-149, 204-206): modelled as the hash of sk‖message it is, not as a signature scheme.
- `_print_state`, the `verbose` tracing and the invalid-mode branch of the `SHA256` constructor (testbenchwxmss.py:7-9, 61-67, 93-101): output only.
- The fields `t1`, `t2`, `k` and `w` of `SHA256`: they are locals of `Sha256Round`, because nothing reads them except `_print_state`.
- `_update_digest` mutates the list `H` in place; `Sha256.Engine.UpdateDigest` assigns the whole new sequence, since no other reference to the list exists.
- The `SHA256` registers and `W` entries are 32-bit vectors: every value assigned to them in the source is already below 2^32. Block words handed to `next` satisfy the same bound by construction (`WxmssTestbench.ChunksBound`).
- WxmssTestbench.DigitValue: for a character that is not a hex digit it returns 0, where Python's `int(..., 16)` raises; `hash_format` only ever reads hex digits.
- SwTestbench.Xmss.WotsPkgen: requires `len` and `w` at most 2^32, below which no tree index written by the loop overflows; beyond that Python raises `OverflowError` part-way.
- SwTestbench.Xmss.XmssNode: requires that the key pairs of an accepted subtree fit in four bytes, and takes i ≥ 0, as every caller passes; beyond that Python raises `OverflowError` part-way.
- SwTestbench.Xmss.SlhKeygenInternal: requires `hp` at most 32 and `hp` non-negative (the constructor takes a `nat`), so that the root's key pairs fit.
- DraftTestbench.Xmss.WotsPkgen: requires `n` at most 2^32, as above.
- DraftTestbench.Xmss.XmssNode: requires the subtree's key pairs and indices to fit in four bytes, as above.
- DraftTestbench.Xmss.SlhKeygenInternal: requires `hp` at most 32, as above.
- HelpTestbench.Xmss.SlhKeygenInternal: requires `hp ≥ 0`; for negative `hp` Python would recurse forever.
- SigGenTestbench.Xmss.SlhKeygenInternal: requires `hp ≥ 0`, for the same reason.
- HelpTestbench.Fors.ForsPkgen: requires `a ≥ 0`; for negative `a` the recursion of `fors_treehash` never ends.
- HelpTestbench.Fors.ForsKeygenInternal: requires `a ≥ 0`, for the same reason.
- SigGenTestbench.Fors.constructor: takes the tree height `a` as a `nat`; for a negative `a` Python's `2 ** a` is a float and `i << a` raises `ValueError`, and every caller passes `a = 5`.
- SigGenTestbench.Xmss.XmssNode: takes the height `z` as a `nat`; for a negative `z` the source recurses until the interpreter's depth limit.
- SigGenTestbench.Fors.ForsNode: takes `z` as a `nat`, for the same reason.
- DraftTestbench.Xmss.XmssNode: takes `z` as a `nat`, for the same reason.
- Default arguments are not modelled: `xmss_sign`'s `h=3` becomes the required parameter `height` of `WxmssTree.XmssSign`, and the `SHA256` constructor's default `mode` is passed explicitly; the constructor's `verbose` flag is left out with the tracing.
- SwTestbench.Xmss.XmssNode: also takes the height `z` as a `nat`; for a negative `z` the source returns None when i ≥ 2^(hp − z) and otherwise recurses until the interpreter's depth limit.
- SwTestbench.Xmss.Chain: requires every index of a non-empty range start..stop to lie in 0..2^32 − 1; beyond that `set_tree_index` raises `OverflowError` part-way.
- HelpTestbench.Xmss.XmssNode: takes `z` as a `nat`; for a negative `z` the source recurses without end.
- HelpTestbench.Fors.ForsTreehash: takes `t` as a `nat`; for a negative `t` the source recurses without end.
- WxmssTree.XmssNode: takes `z` as a `nat`; for a negative `z` the source recurses without end.
- Sha256.Engine.WSchedule: requires a block of at least 16 words; on a shorter one Python raises `IndexError` part-way, after writing the words it could read.
- Sha256.Engine.Next: requires a block of at least 16 words, for the same reason.
- Hypertree chaining, public-key recovery from signatures, message-digest derivation and verification: the modelled code does not contain them.
- Where the drafts differ from FIPS 205, the model follows the code:
  - `base_2b` reduces each byte modulo 2^a instead of cutting the digest into a-bit fields.
  - `chain` runs over `start..stop` inclusive and uses `prf` as its step.
  - `fors_gen_leaf` (help.py) clears the tree index.
  - testbenchdraft.py clears the key pair of its WOTS_PK address.
