/** The hand-written SHA-256 compression function of testbenchwxmss.py
    (FIPS 180-4, section 6.2.2), as the class `SHA256` computes it.

    The source keeps every register in a Python integer and masks each sum
    with `& 0xffffffff`; all values that reach it are below 2^32, so the
    registers, the digest words and the message words are 32-bit vectors
    here, whose `+` wraps modulo 2^32 exactly as the mask does. The message
    schedule lives in a 16-word window `W` that the class shifts in place;
    `Next` is proved against the 64-word schedule of the standard.

    The source's `_sigma0`/`_sigma1` are the standard's upper-case Sigma
    functions and its `_delta0`/`_delta1` the lower-case sigma functions. */
module Sha256 {

  /** `_rotr32(n, r)`: `((n >> r) | (n << (32 - r))) & 0xffffffff`. */
  function Rotr32(n: bv32, r: bv32): bv32
    requires r <= 32
  {
    (n >> r) | (n << (32 - r))
  }

  /** `_shr32(n, r)`: `n >> r`. */
  function Shr32(n: bv32, r: bv32): bv32
    requires r <= 32
  {
    n >> r
  }

  /** The source's `(x + y) & 0xffffffff` on 32-bit values: addition
      modulo 2^32. */
  function Add32(x: bv32, y: bv32): bv32 {
    x + y
  }

  /** `_Ch(x, y, z)`: `(x & y) ^ (~x & z)`; on values below 2^32, Python's `~x & z`
      keeps the low 32 bits of the complement. */
  function Ch(x: bv32, y: bv32, z: bv32): bv32 {
    (x & y) ^ (!x & z)
  }

  function Maj(x: bv32, y: bv32, z: bv32): bv32 {
    (x & y) ^ (x & z) ^ (y & z)
  }

  function Sigma0(x: bv32): bv32 {
    Rotr32(x, 2) ^ Rotr32(x, 13) ^ Rotr32(x, 22)
  }

  function Sigma1(x: bv32): bv32 {
    Rotr32(x, 6) ^ Rotr32(x, 11) ^ Rotr32(x, 25)
  }

  function Delta0(x: bv32): bv32 {
    Rotr32(x, 7) ^ Rotr32(x, 18) ^ Shr32(x, 3)
  }

  function Delta1(x: bv32): bv32 {
    Rotr32(x, 17) ^ Rotr32(x, 19) ^ Shr32(x, 10)
  }

  /** Every rotation the four sigma functions use is the 32-bit right
      rotation of section 3.2 of the standard. */
  lemma RotationsAreRotations(x: bv32)
    ensures Rotr32(x, 2) == x.RotateRight(2) && Rotr32(x, 13) == x.RotateRight(13)
    ensures Rotr32(x, 22) == x.RotateRight(22) && Rotr32(x, 6) == x.RotateRight(6)
    ensures Rotr32(x, 11) == x.RotateRight(11) && Rotr32(x, 25) == x.RotateRight(25)
    ensures Rotr32(x, 7) == x.RotateRight(7) && Rotr32(x, 18) == x.RotateRight(18)
    ensures Rotr32(x, 17) == x.RotateRight(17) && Rotr32(x, 19) == x.RotateRight(19)
  {
  }

  /** `_T1(e, f, g, h, k, w)`. */
  function T1(e: bv32, f: bv32, g: bv32, h: bv32, k: bv32, w: bv32): bv32 {
    Add32(Add32(Add32(Add32(h, Sigma1(e)), Ch(e, f, g)), k), w)
  }

  /** `_T2(a, b, c)`. */
  function T2(a: bv32, b: bv32, c: bv32): bv32 {
    Add32(Sigma0(a), Maj(a, b, c))
  }

  /** The round constants the constructor stores in `K` (section 4.2.2). */
  const K: seq<bv32> := [
    0x428a2f98, 0x71374491, 0xb5c0fbcf, 0xe9b5dba5, 0x3956c25b, 0x59f111f1, 0x923f82a4, 0xab1c5ed5,
    0xd807aa98, 0x12835b01, 0x243185be, 0x550c7dc3, 0x72be5d74, 0x80deb1fe, 0x9bdc06a7, 0xc19bf174,
    0xe49b69c1, 0xefbe4786, 0x0fc19dc6, 0x240ca1cc, 0x2de92c6f, 0x4a7484aa, 0x5cb0a9dc, 0x76f988da,
    0x983e5152, 0xa831c66d, 0xb00327c8, 0xbf597fc7, 0xc6e00bf3, 0xd5a79147, 0x06ca6351, 0x14292967,
    0x27b70a85, 0x2e1b2138, 0x4d2c6dfc, 0x53380d13, 0x650a7354, 0x766a0abb, 0x81c2c92e, 0x92722c85,
    0xa2bfe8a1, 0xa81a664b, 0xc24b8b70, 0xc76c51a3, 0xd192e819, 0xd6990624, 0xf40e3585, 0x106aa070,
    0x19a4c116, 0x1e376c08, 0x2748774c, 0x34b0bcb5, 0x391c0cb3, 0x4ed8aa4a, 0x5b9cca4f, 0x682e6ff3,
    0x748f82ee, 0x78a5636f, 0x84c87814, 0x8cc70208, 0x90befffa, 0xa4506ceb, 0xbef9a3f7, 0xc67178f2
  ]

  /** The initial hash values `init` loads (sections 5.3.3 and 5.3.2). */
  const IV256: seq<bv32> := [0x6a09e667, 0xbb67ae85, 0x3c6ef372, 0xa54ff53a, 0x510e527f, 0x9b05688c, 0x1f83d9ab, 0x5be0cd19]
  const IV224: seq<bv32> := [0xc1059ed8, 0x367cd507, 0x3070dd17, 0xf70e5939, 0xffc00b31, 0x68581511, 0x64f98fa7, 0xbefa4fa4]

  datatype Mode = Mode224 | Mode256

  function IV(mode: Mode): (r: seq<bv32>)
    ensures |r| == 8
  {
    if mode == Mode256 then IV256 else IV224
  }

  /** The eight working variables a..h. */
  datatype Regs = Regs(a: bv32, b: bv32, c: bv32, d: bv32, e: bv32, f: bv32, g: bv32, h: bv32)

  /** The working variables loaded from the eight hash words (`_copy_digest`). */
  function RegsOf(hs: seq<bv32>): Regs
    requires |hs| == 8
  {
    Regs(hs[0], hs[1], hs[2], hs[3], hs[4], hs[5], hs[6], hs[7])
  }

  /** Each hash word plus its working variable, modulo 2^32 (`_update_digest`). */
  function AddRegs(hs: seq<bv32>, s: Regs): (r: seq<bv32>)
    requires |hs| == 8
    ensures |r| == 8
  {
    [Add32(hs[0], s.a), Add32(hs[1], s.b), Add32(hs[2], s.c), Add32(hs[3], s.d),
     Add32(hs[4], s.e), Add32(hs[5], s.f), Add32(hs[6], s.g), Add32(hs[7], s.h)]
  }

  /** One round with constant kt and message word wt: the variables move
      down one place, with e and a replaced by d + T1 and T1 + T2. */
  function Round(s: Regs, kt: bv32, wt: bv32): Regs {
    var t1 := T1(s.e, s.f, s.g, s.h, kt, wt);
    var t2 := T2(s.a, s.b, s.c);
    Regs(Add32(t1, t2), s.a, s.b, s.c, Add32(s.d, t1), s.e, s.f, s.g)
  }

  /** Message word t (section 6.2.2, step 1): the block's words for t < 16,
      then sigma1(W[t-2]) + W[t-7] + sigma0(W[t-15]) + W[t-16]. */
  function Schedule(block: seq<bv32>, t: nat): bv32
    requires |block| == 16 && t < 64
  {
    if t < 16 then block[t]
    else Add32(Add32(Add32(Delta1(Schedule(block, t - 2)), Schedule(block, t - 7)), Delta0(Schedule(block, t - 15))), Schedule(block, t - 16))
  }

  /** The first schedule index the window holds at the start of round r. */
  function WindowStart(r: nat): nat {
    if r < 16 then 0 else r - 16
  }

  /** The 16 schedule words the window `W` holds at the start of round r:
      words 0..15 until round 16, then words r - 16 .. r - 1. */
  function Window(block: seq<bv32>, r: nat): (win: seq<bv32>)
    requires |block| == 16 && r <= 64
    ensures |win| == 16
  {
    seq(16, i requires 0 <= i < 16 => Schedule(block, WindowStart(r) + i))
  }

  /** The word `_next_w` computes from a full window. */
  function NewWord(win: seq<bv32>): bv32
    requires |win| == 16
  {
    Add32(Add32(Add32(Delta1(win[14]), win[9]), Delta0(win[1])), win[0])
  }

  lemma WindowAt(block: seq<bv32>, r: nat, i: nat)
    requires |block| == 16 && r <= 64 && i < 16
    ensures Window(block, r)[i] == Schedule(block, WindowStart(r) + i)
  {
  }

  /** In round r < 16 the window already holds word r; from round 16 on,
      `NewWord` of the window is word r, and dropping the oldest word and
      appending it gives the next round's window. */
  lemma WindowStep(block: seq<bv32>, r: nat)
    requires |block| == 16 && r < 64
    ensures r < 16 ==> Window(block, r)[r] == Schedule(block, r) && Window(block, r + 1) == Window(block, r)
    ensures 16 <= r ==> NewWord(Window(block, r)) == Schedule(block, r)
    ensures 16 <= r ==> Window(block, r + 1) == Window(block, r)[1..] + [Schedule(block, r)]
  {
    var win, next := Window(block, r), Window(block, r + 1);
    if r < 16 {
      WindowAt(block, r, r);
      forall i | 0 <= i < 16 ensures next[i] == win[i] {
        WindowAt(block, r, i);
        WindowAt(block, r + 1, i);
      }
    } else {
      WindowAt(block, r, 14);
      WindowAt(block, r, 9);
      WindowAt(block, r, 1);
      WindowAt(block, r, 0);
      forall i | 0 <= i < 16 ensures next[i] == (win[1..] + [Schedule(block, r)])[i] {
        WindowAt(block, r + 1, i);
        if i < 15 {
          WindowAt(block, r, i + 1);
        }
      }
    }
  }

  /** The working variables after the first t rounds on a block, starting
      from s. */
  function Run(s: Regs, block: seq<bv32>, t: nat): Regs
    requires |block| == 16 && t <= 64
  {
    if t == 0 then s else Round(Run(s, block, t - 1), K[t - 1], Schedule(block, t - 1))
  }

  /** The hash words after one block (section 6.2.2, steps 2 to 4). */
  function Compress(hs: seq<bv32>, block: seq<bv32>): (r: seq<bv32>)
    requires |hs| == 8 && |block| == 16
    ensures |r| == 8
  {
    AddRegs(hs, Run(RegsOf(hs), block, 64))
  }

  /** The object of class `SHA256`: hash words `H`, working variables a..h
      and the message window `W`. */
  class Engine {
    const mode: Mode
    var H: seq<bv32>
    var a: bv32
    var b: bv32
    var c: bv32
    var d: bv32
    var e: bv32
    var f: bv32
    var g: bv32
    var h: bv32
    const W: array<bv32>

    /** The working variables a..h. */
    function Vars(): Regs
      reads this
    {
      Regs(a, b, c, d, e, f, g, h)
    }

    ghost predicate Valid()
      reads this
    {
      |H| == 8 && W.Length == 16
    }

    /** `SHA256(mode)`, which ends by calling `init()`: every register and
        window word zero, H the initial values of the mode. */
    constructor (mode: Mode)
      ensures Valid() && fresh(W) && this.mode == mode
      ensures H == IV(mode) && Vars() == Regs(0, 0, 0, 0, 0, 0, 0, 0)
      ensures W[..] == seq(16, _ => 0)
    {
      this.mode := mode;
      a, b, c, d, e, f, g, h := 0, 0, 0, 0, 0, 0, 0, 0;
      W := new bv32[16](_ => 0);
      H := IV(mode);
    }

    /** `init()`: H becomes the initial values of the mode. */
    method Init()
      requires Valid()
      modifies this
      ensures Valid() && H == IV(mode) && Vars() == old(Vars())
    {
      H := IV(mode);
    }

    /** `get_digest()`. */
    method GetDigest() returns (r: seq<bv32>)
      ensures r == H
    {
      r := H;
    }

    /** `_W_schedule(block)`: the first 16 words of the block into W. */
    method WSchedule(block: seq<bv32>)
      requires Valid() && 16 <= |block|
      modifies W
      ensures W[..] == block[..16]
    {
      for i := 0 to 16
        invariant W[..i] == block[..i]
      {
        W[i] := block[i];
      }
    }

    /** `_copy_digest()`: a..h := H[0..7]. */
    method CopyDigest()
      requires Valid()
      modifies this
      ensures Valid() && H == old(H) && Vars() == RegsOf(H)
    {
      a, b, c, d := H[0], H[1], H[2], H[3];
      e, f, g, h := H[4], H[5], H[6], H[7];
    }

    /** `_update_digest()`: H[i] := (H[i] + register i) mod 2^32. */
    method UpdateDigest()
      requires Valid()
      modifies this
      ensures Valid() && H == AddRegs(old(H), Vars()) && Vars() == old(Vars())
    {
      H := [Add32(H[0], a), Add32(H[1], b), Add32(H[2], c), Add32(H[3], d),
            Add32(H[4], e), Add32(H[5], f), Add32(H[6], g), Add32(H[7], h)];
    }

    /** `_next_w(round)`: before round 16 the window word itself; from then
        on the new word, after moving every word of W down one place and
        putting the new word last. */
    method NextW(round: nat) returns (r: bv32)
      requires Valid()
      modifies W
      ensures round < 16 ==> r == W[round] && W[..] == old(W[..])
      ensures 16 <= round ==> r == NewWord(old(W[..])) && W[..] == old(W[..])[1..] + [r]
    {
      if round < 16 {
        return W[round];
      }
      r := NewWord(W[..]);
      for i := 0 to 15
        invariant forall j :: 0 <= j < i ==> W[j] == old(W[j + 1])
        invariant forall j :: i <= j < 16 ==> W[j] == old(W[j])
      {
        W[i] := W[i + 1];
      }
      W[15] := r;
    }

    /** `_sha256_round(round)`: fetch the round's message word, then one round
        with constant K[round]. */
    method Sha256Round(round: nat) returns (wt: bv32)
      requires Valid() && round < 64
      modifies this, W
      ensures Valid() && H == old(H)
      ensures round < 16 ==> wt == old(W[round]) && W[..] == old(W[..])
      ensures 16 <= round ==> wt == NewWord(old(W[..])) && W[..] == old(W[..])[1..] + [wt]
      ensures Vars() == Round(old(Vars()), K[round], wt)
    {
      var kt := K[round];
      wt := NextW(round);
      var t1 := T1(e, f, g, h, kt, wt);
      var t2 := T2(a, b, c);
      h := g;
      g := f;
      f := e;
      e := Add32(d, t1);
      d := c;
      c := b;
      b := a;
      a := Add32(t1, t2);
    }

    /** `next(block)`: one block through the compression function. The
        window ends holding schedule words 48..63. */
    method Next(block: seq<bv32>)
      requires Valid() && 16 <= |block|
      modifies this, W
      ensures Valid()
      ensures H == Compress(old(H), block[..16])
      ensures Vars() == Run(RegsOf(old(H)), block[..16], 64)
      ensures W[..] == Window(block[..16], 64)
    {
      var m := block[..16];
      WSchedule(block);
      forall i | 0 <= i < 16 ensures W[i] == Window(m, 0)[i] {
        WindowAt(m, 0, i);
      }
      assert W[..] == Window(m, 0);
      CopyDigest();
      for i := 0 to 64
        invariant Valid() && H == old(H)
        invariant W[..] == Window(m, i)
        invariant Vars() == Run(RegsOf(H), m, i)
      {
        WindowStep(m, i);
        var _ := Sha256Round(i);
      }
      UpdateDigest();
    }
  }
}
