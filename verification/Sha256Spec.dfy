// The hash function of FIPS 180-4, section 6.2, written as functions over byte sequences.
// Everything imperative in module Sha256 is proved against the definitions below.
module Sha256Spec {

  type Bytes = seq<bv8>

  /** The eight 32-bit words of an intermediate hash value. */
  type HashValue = s: seq<bv32> | |s| == 8 witness [0, 0, 0, 0, 0, 0, 0, 0]

  /** The 64 bytes of a message block. */
  type Block = b: Bytes | |b| == 64 witness seq(64, i => 0)

  // ---------- constants (sections 4.2.2 and 5.3.3) ----------

  /** Eight rows of eight; section 4.2.2 numbers them row by row. */
  const K: seq<seq<bv32>> := [
    [0x428a2f98, 0x71374491, 0xb5c0fbcf, 0xe9b5dba5, 0x3956c25b, 0x59f111f1, 0x923f82a4, 0xab1c5ed5],
    [0xd807aa98, 0x12835b01, 0x243185be, 0x550c7dc3, 0x72be5d74, 0x80deb1fe, 0x9bdc06a7, 0xc19bf174],
    [0xe49b69c1, 0xefbe4786, 0x0fc19dc6, 0x240ca1cc, 0x2de92c6f, 0x4a7484aa, 0x5cb0a9dc, 0x76f988da],
    [0x983e5152, 0xa831c66d, 0xb00327c8, 0xbf597fc7, 0xc6e00bf3, 0xd5a79147, 0x06ca6351, 0x14292967],
    [0x27b70a85, 0x2e1b2138, 0x4d2c6dfc, 0x53380d13, 0x650a7354, 0x766a0abb, 0x81c2c92e, 0x92722c85],
    [0xa2bfe8a1, 0xa81a664b, 0xc24b8b70, 0xc76c51a3, 0xd192e819, 0xd6990624, 0xf40e3585, 0x106aa070],
    [0x19a4c116, 0x1e376c08, 0x2748774c, 0x34b0bcb5, 0x391c0cb3, 0x4ed8aa4a, 0x5b9cca4f, 0x682e6ff3],
    [0x748f82ee, 0x78a5636f, 0x84c87814, 0x8cc70208, 0x90befffa, 0xa4506ceb, 0xbef9a3f7, 0xc67178f2]]

  function RoundConstant(t: nat): bv32
    requires t < 64
  {
    K[t / 8][t % 8]
  }

  const INITIAL: HashValue := [
    0x6a09e667, 0xbb67ae85, 0x3c6ef372, 0xa54ff53a, 0x510e527f, 0x9b05688c, 0x1f83d9ab, 0x5be0cd19]

  // ---------- functions (sections 3.2 and 4.1.2) ----------

  /** Addition modulo 2^32. */
  function Add(x: bv32, y: bv32): bv32 { x + y }

  /** The four-term sum of the message schedule. */
  function Sum4(a: bv32, b: bv32, c: bv32, d: bv32): bv32 { a + b + c + d }

  function Ch(x: bv32, y: bv32, z: bv32): bv32 { (x & y) ^ (!x & z) }

  function Maj(x: bv32, y: bv32, z: bv32): bv32 { (x & y) ^ (x & z) ^ (y & z) }

  function BigSigma0(x: bv32): bv32 { x.RotateRight(2) ^ x.RotateRight(13) ^ x.RotateRight(22) }

  function BigSigma1(x: bv32): bv32 { x.RotateRight(6) ^ x.RotateRight(11) ^ x.RotateRight(25) }

  function SmallSigma0(x: bv32): bv32 { x.RotateRight(7) ^ x.RotateRight(18) ^ (x >> 3) }

  function SmallSigma1(x: bv32): bv32 { x.RotateRight(17) ^ x.RotateRight(19) ^ (x >> 10) }

  // ---------- the compression function (section 6.2.2) ----------

  /** Four bytes as one big-endian word. */
  function JoinBytes(b0: bv8, b1: bv8, b2: bv8, b3: bv8): bv32 {
    ((b0 as bv32) << 24) | ((b1 as bv32) << 16) | ((b2 as bv32) << 8) | (b3 as bv32)
  }

  /** The t-th big-endian word of a block. */
  function BlockWord(block: Block, t: nat): bv32
    requires t < 16
  {
    JoinBytes(block[4 * t], block[4 * t + 1], block[4 * t + 2], block[4 * t + 3])
  }

  /** The message schedule: step 1 of section 6.2.2. */
  function Schedule(block: Block, t: nat): bv32
    requires t < 64
  {
    if t < 16 then BlockWord(block, t)
    else Sum4(SmallSigma1(Schedule(block, t - 2)), Schedule(block, t - 7),
              SmallSigma0(Schedule(block, t - 15)), Schedule(block, t - 16))
  }

  /** The working variables a to h. */
  datatype Vars = Vars(a: bv32, b: bv32, c: bv32, d: bv32, e: bv32, f: bv32, g: bv32, h: bv32)

  function FromHash(hv: HashValue): Vars {
    Vars(hv[0], hv[1], hv[2], hv[3], hv[4], hv[5], hv[6], hv[7])
  }

  /** One iteration of step 3 of section 6.2.2. */
  function Round(v: Vars, k: bv32, w: bv32): Vars {
    var t1 := Add(Add(Add(Add(v.h, BigSigma1(v.e)), Ch(v.e, v.f, v.g)), k), w);
    var t2 := Add(BigSigma0(v.a), Maj(v.a, v.b, v.c));
    Vars(Add(t1, t2), v.a, v.b, v.c, Add(v.d, t1), v.e, v.f, v.g)
  }

  /** The working variables after t iterations of step 3. */
  function Rounds(hv: HashValue, block: Block, t: nat): Vars
    requires t <= 64
  {
    if t == 0 then FromHash(hv)
    else Round(Rounds(hv, block, t - 1), RoundConstant(t - 1), Schedule(block, t - 1))
  }

  /** Step 4 of section 6.2.2. */
  function Sum(v: Vars, hv: HashValue): HashValue {
    [Add(v.a, hv[0]), Add(v.b, hv[1]), Add(v.c, hv[2]), Add(v.d, hv[3]),
     Add(v.e, hv[4]), Add(v.f, hv[5]), Add(v.g, hv[6]), Add(v.h, hv[7])]
  }

  /** Steps 1 to 4 of section 6.2.2 for one block. */
  function Compress(hv: HashValue, block: Block): HashValue {
    Sum(Rounds(hv, block, 64), hv)
  }

  /** The hash value after the first n blocks of data. */
  function HashBlocks(data: Bytes, n: nat): HashValue
    requires 64 * n <= |data|
  {
    if n == 0 then INITIAL
    else Compress(HashBlocks(data, n - 1), data[64 * (n - 1)..64 * n])
  }

  // ---------- padding (section 5.1.1) ----------

  /** x in n bytes, most significant first; higher bytes of x are dropped. */
  function BigEndian(x: nat, n: nat): (r: Bytes)
    ensures |r| == n
  {
    if n == 0 then [] else BigEndian(x / 256, n - 1) + [(x % 256) as bv8]
  }

  function Zeros(n: nat): Bytes { seq(n, i => 0) }

  function ZeroCount(n: nat): (z: nat)
    ensures (n + 1 + z + 8) % 64 == 0
  {
    var r := n % 64;
    if r < 56 then 55 - r else 119 - r
  }

  function Pad(m: Bytes): (r: Bytes)
    ensures |r| % 64 == 0
  {
    m + [0x80] + Zeros(ZeroCount(|m|)) + BigEndian(8 * |m|, 8)
  }

  function Digest(m: Bytes): HashValue { HashBlocks(Pad(m), |Pad(m)| / 64) }

  // ---------- the digest as bytes and as text ----------

  /** The j-th byte of a word, most significant first. */
  function WordByte(w: bv32, j: nat): bv8
    requires j < 4
  {
    if j == 0 then ((w >> 24) & 255) as bv8
    else if j == 1 then ((w >> 16) & 255) as bv8
    else if j == 2 then ((w >> 8) & 255) as bv8
    else (w & 255) as bv8
  }

  function DigestBytes(hv: HashValue): (r: Bytes)
    ensures |r| == 32
  {
    seq(32, k requires 0 <= k < 32 => WordByte(hv[k / 4], k % 4))
  }

  /** The lower-case hexadecimal digits as ASCII codes. */
  const HEX_DIGITS: Bytes := [
    0x30, 0x31, 0x32, 0x33, 0x34, 0x35, 0x36, 0x37, 0x38, 0x39, 0x61, 0x62, 0x63, 0x64, 0x65, 0x66]

  function HighDigit(c: bv8): bv8 { HEX_DIGITS[(c >> 4) as int] }

  function LowDigit(c: bv8): bv8 { HEX_DIGITS[(c & 15) as int] }

  function Hex(data: Bytes): (r: Bytes)
    ensures |r| == 2 * |data|
  {
    seq(2 * |data|, k requires 0 <= k < 2 * |data| =>
      if k % 2 == 0 then HighDigit(data[k / 2]) else LowDigit(data[k / 2]))
  }

  /** A hash as the package format and the tree carry it: 64 hexadecimal characters. */
  type Hash = h: Bytes | |h| == 64 witness seq(64, i => 0)

  function HashHex(m: Bytes): Hash { Hex(DigestBytes(Digest(m))) }

  function Flatten(pieces: seq<Bytes>): Bytes {
    if pieces == [] then [] else Flatten(pieces[..|pieces| - 1]) + pieces[|pieces| - 1]
  }

  // ---------- lemmas ----------

  lemma {:induction false} HashBlocksPrefix(a: Bytes, b: Bytes, n: nat)
    requires 64 * n <= |a| && 64 * n <= |b| && a[..64 * n] == b[..64 * n]
    ensures HashBlocks(a, n) == HashBlocks(b, n)
  {
    hide Compress;
    if n > 0 {
      var k := 64 * (n - 1);
      assert a[..k] == a[..k + 64][..k] == b[..k];
      assert a[k..k + 64] == a[..k + 64][k..] == b[k..k + 64];
      HashBlocksPrefix(a, b, n - 1);
    }
  }

  lemma ZerosSplit(n: nat, k: nat)
    requires k <= n
    ensures Zeros(n) == Zeros(k) + Zeros(n - k)
  {
  }

  lemma ZeroCountOf(n: nat, blocks: nat, r: nat)
    requires n == 64 * blocks + r && r < 64
    ensures ZeroCount(n) == if r < 56 then 55 - r else 119 - r
  {
  }

  /** Section 5.1.1 when the padding fits in the block of the last message bytes. */
  lemma PadOneBlock(m: Bytes, blocks: nat)
    requires 64 * blocks <= |m| < 64 * blocks + 56
    ensures var tail := m[64 * blocks..];
      Pad(m) == m[..64 * blocks] + (tail + [0x80] + Zeros(55 - |tail|) + BigEndian(8 * |m|, 8))
  {
    hide BigEndian, Zeros, ZeroCount;
    var tail := m[64 * blocks..];
    ZeroCountOf(|m|, blocks, |tail|);
    Regroup(m[..64 * blocks], tail, [0x80], Zeros(55 - |tail|), BigEndian(8 * |m|, 8));
  }

  /** Section 5.1.1 when it takes a block more. */
  lemma PadTwoBlocks(m: Bytes, blocks: nat)
    requires 64 * blocks + 56 <= |m| < 64 * blocks + 64
    ensures var tail := m[64 * blocks..];
      Pad(m) == m[..64 * blocks] + ((tail + [0x80] + Zeros(63 - |tail|)) + (Zeros(56) + BigEndian(8 * |m|, 8)))
  {
    hide BigEndian, Zeros, ZeroCount;
    var tail := m[64 * blocks..];
    ZeroCountOf(|m|, blocks, |tail|);
    ZerosSplit(119 - |tail|, 63 - |tail|);
    Regroup(m[..64 * blocks], tail, [0x80], Zeros(119 - |tail|), BigEndian(8 * |m|, 8));
    var length := BigEndian(8 * |m|, 8);
    assert tail + [0x80] + (Zeros(63 - |tail|) + Zeros(56)) + length
        == (tail + [0x80] + Zeros(63 - |tail|)) + (Zeros(56) + length);
  }

  lemma Regroup(a: Bytes, b: Bytes, c: Bytes, d: Bytes, e: Bytes)
    ensures (a + b) + c + d + e == a + (b + c + d + e)
  {
  }

  function Power256(n: nat): (p: nat)
    ensures p > 0
  {
    if n == 0 then 1 else 256 * Power256(n - 1)
  }

  /** What BigEndian drops. */
  lemma {:induction false} BigEndianTruncates(x: nat, n: nat, k: nat)
    ensures BigEndian(x + Power256(n) * k, n) == BigEndian(x, n)
  {
    if n > 0 {
      var m := Power256(n - 1) * k;
      assert Power256(n) * k == 256 * m;
      assert (x + 256 * m) / 256 == x / 256 + m && (x + 256 * m) % 256 == x % 256;
      BigEndianTruncates(x / 256, n - 1, k);
    }
  }
}
