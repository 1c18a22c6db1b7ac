// The definitions of Sha256Spec measured against independent ones: the constants against the roots of
// the primes they come from, the padding against the minimality the standard asks for, and the byte
// and text forms against decoders.
module Sha256SpecChecks {
  import opened Primes
  import opened Sha256Spec

  /** Section 5.1.1: the fewest zeros that bring message, marker and zeros to 448 mod 512 bits. */
  lemma ZeroCountLeast(n: nat, z: nat)
    requires (8 * (n + 1 + z)) % 512 == 448
    ensures ZeroCount(n) <= z && (8 * (n + 1 + ZeroCount(n))) % 512 == 448
  {
  }

  // ---------- padding ----------

  lemma Times(m: nat, k: nat)
    requires k > 0
    ensures m * k >= m
  {
  }

  lemma Quotient(x: nat, m: nat, q: nat, r: nat)
    requires m > 0 && x == m * q + r && r < m
    ensures x / m == q
  {
    var q', r' := x / m, x % m;
    assert m * (q' - q) == r - r';
    if q' > q { Times(m, q' - q); }
    if q > q' { Times(m, q - q'); }
  }

  lemma DivideTwice(x: nat, p: nat)
    requires p > 0
    ensures x / 256 / p == x / (256 * p)
  {
    var q, r, s := x / 256 / p, x / 256 % p, x % 256;
    assert x == 256 * (p * q + r) + s;
    Quotient(x, 256 * p, q, 256 * r + s);
  }

  /** Byte k of n counts 256^(n - 1 - k): the most significant one comes first. */
  lemma {:induction false} BigEndianByte(x: nat, n: nat, k: nat)
    requires k < n
    ensures BigEndian(x, n)[k] == (x / Power256(n - 1 - k) % 256) as bv8
  {
    if k < n - 1 {
      BigEndianByte(x / 256, n - 1, k);
      DivideTwice(x, Power256(n - 2 - k));
    }
  }

  lemma PadSize(m: Bytes)
    ensures |Pad(m)| == |m| + 1 + ZeroCount(|m|) + 8
  {
    hide BigEndian, ZeroCount;
  }

  /**
   * Section 5.1.1 byte by byte: the message, the marker, zeros, and the bit length in the last eight
   * bytes, in as few blocks as these take.
   */
  lemma PadByte(m: Bytes, k: nat)
    requires k < |Pad(m)|
    ensures |m| + 9 <= |Pad(m)| < |m| + 9 + 64 && |Pad(m)| % 64 == 0
    ensures Pad(m)[k] == if k < |m| then m[k] else if k == |m| then 0x80 else if k < |Pad(m)| - 8 then 0
                         else (8 * |m| / Power256(|Pad(m)| - 1 - k) % 256) as bv8
  {
    hide BigEndian, Power256;
    var at := |m| + 1 + ZeroCount(|m|);
    assert |Pad(m)| == at + 8;
    if k >= at {
      BigEndianByte(8 * |m|, 8, k - at);
      assert Pad(m)[k] == BigEndian(8 * |m|, 8)[k - at];
    }
  }

  // ---------- arithmetic and bits ----------

  /** Adding is counting upwards, around the end of the word. */
  lemma AddCounts(x: bv32, y: bv32)
    ensures Add(x, 0) == x && Add(x, y + 1) == Add(x, y) + 1
    ensures Add(0xffffffff, 1) == 0
  {
  }

  lemma Sum4IsSums(a: bv32, b: bv32, c: bv32, d: bv32)
    ensures Sum4(a, b, c, d) == Add(Add(Add(a, b), c), d)
  {
    calc {
      Sum4(a, b, c, d);
      a + b + c + d;
      Add(a + b + c, d);
      Add(Add(a + b, c), d);
      Add(Add(Add(a, b), c), d);
    }
  }

  /** Ch takes the bits of y where x has ones and those of z where x has zeros. */
  lemma ChSelects(x: bv32, y: bv32, z: bv32)
    ensures Ch(x, y, z) & x == y & x
    ensures Ch(x, y, z) & !x == z & !x
  {
  }

  /** Maj has a one where two of its arguments do. */
  lemma MajIsMajority(x: bv32, y: bv32, z: bv32)
    ensures Maj(x, y, z) == (x & y) | (x & z) | (y & z)
  {
  }

  lemma JoinSplit(w: bv32)
    ensures JoinBytes(WordByte(w, 0), WordByte(w, 1), WordByte(w, 2), WordByte(w, 3)) == w
  {
  }

  /** The first byte of a word counts most, then the second, then the third. */
  lemma JoinOrder(a: bv8, b: bv8, c: bv8, d: bv8, a': bv8, b': bv8, c': bv8, d': bv8)
    requires a < a' || (a == a' && b < b') || (a == a' && b == b' && c < c')
          || (a == a' && b == b' && c == c' && d < d')
    ensures JoinBytes(a, b, c, d) < JoinBytes(a', b', c', d')
  {
  }

  /** The value of a hexadecimal digit. */
  function DigitValue(d: bv8): bv8 {
    if 0x30 <= d <= 0x39 then d - 0x30 else if 0x61 <= d <= 0x66 then d - 0x57 else 0
  }

  lemma DigitDecodes(n: bv8)
    requires n < 16
    ensures (n as int) < 16 && DigitValue(HEX_DIGITS[n as int]) == n
  {
    match n {
      case 0 => case 1 => case 2 => case 3 => case 4 => case 5 => case 6 => case 7 =>
      case 8 => case 9 => case 10 => case 11 => case 12 => case 13 => case 14 => case _ =>
    }
  }

  /** Two hexadecimal digits, high one first, spell their byte. */
  lemma HexDecodes(c: bv8)
    ensures (DigitValue(HighDigit(c)) << 4) | DigitValue(LowDigit(c)) == c
  {
    hide DigitValue;
    DigitDecodes(c >> 4);
    DigitDecodes(c & 15);
  }

  /** Characters 2i and 2i + 1 of the text spell byte i. */
  lemma HexSpells(data: Bytes, i: nat)
    requires i < |data|
    ensures (DigitValue(Hex(data)[2 * i]) << 4) | DigitValue(Hex(data)[2 * i + 1]) == data[i]
  {
    hide HighDigit, LowDigit, DigitValue;
    assert Hex(data)[2 * i] == HighDigit(data[i]) && Hex(data)[2 * i + 1] == LowDigit(data[i]);
    HexDecodes(data[i]);
  }

  lemma NibblesSplit(c: bv8, d: bv8)
    requires HighDigit(c) == HighDigit(d) && LowDigit(c) == LowDigit(d)
    ensures c == d
  {
    hide HighDigit, LowDigit, DigitValue;
    HexDecodes(c);
    HexDecodes(d);
  }

  /** The text form is lower-case hexadecimal, so it has no zero byte and C string functions copy it whole. */
  lemma HexIsText(data: Bytes, k: nat)
    requires k < |Hex(data)|
    ensures Hex(data)[k] in HEX_DIGITS && (0x30 <= Hex(data)[k] <= 0x39 || 0x61 <= Hex(data)[k] <= 0x66)
  {
    var c := data[k / 2];
    var n := if k % 2 == 0 then (c >> 4) as int else (c & 15) as int;
    assert n < 16 && Hex(data)[k] == HEX_DIGITS[n];
    HexDigitRange(n);
  }

  lemma HexDigitRange(n: nat)
    requires n < 16
    ensures 0x30 <= HEX_DIGITS[n] <= 0x39 || 0x61 <= HEX_DIGITS[n] <= 0x66
  {
  }

  /** The text form determines the bytes. */
  lemma HexInjective(a: Bytes, b: Bytes)
    requires Hex(a) == Hex(b)
    ensures a == b
  {
    hide HighDigit, LowDigit;
    assert |Hex(a)| == |Hex(b)|;
    forall i | 0 <= i < |a|
      ensures a[i] == b[i]
    {
      assert Hex(a)[2 * i] == HighDigit(a[i]) && Hex(b)[2 * i] == HighDigit(b[i]);
      assert Hex(a)[2 * i + 1] == LowDigit(a[i]) && Hex(b)[2 * i + 1] == LowDigit(b[i]);
      NibblesSplit(a[i], b[i]);
    }
  }

  /** Bytes 4i to 4i + 3, most significant first, are word i of the hash value. */
  lemma DigestWord(hv: HashValue, i: nat)
    requires i < 8
    ensures JoinBytes(DigestBytes(hv)[4 * i], DigestBytes(hv)[4 * i + 1],
                      DigestBytes(hv)[4 * i + 2], DigestBytes(hv)[4 * i + 3]) == hv[i]
  {
    hide WordByte, JoinBytes;
    forall j: nat | j < 4
      ensures DigestBytes(hv)[4 * i + j] == WordByte(hv[i], j)
    {
      assert (4 * i + j) / 4 == i && (4 * i + j) % 4 == j;
    }
    assert DigestBytes(hv)[4 * i + 0] == WordByte(hv[i], 0);
    JoinSplit(hv[i]);
  }

  /** The bytes determine the hash value. */
  lemma DigestBytesInjective(a: HashValue, b: HashValue)
    requires DigestBytes(a) == DigestBytes(b)
    ensures a == b
  {
    hide WordByte, JoinBytes;
    forall i | 0 <= i < 8
      ensures a[i] == b[i]
    {
      forall j | 0 <= j < 4
        ensures WordByte(a[i], j) == WordByte(b[i], j)
      {
        assert DigestBytes(a)[4 * i + j] == WordByte(a[i], j) && DigestBytes(b)[4 * i + j] == WordByte(b[i], j);
      }
      JoinSplit(a[i]);
      JoinSplit(b[i]);
    }
  }

  /** Equal hashes as the program compares them are equal SHA-256 digests. */
  lemma EqualHexEqualDigest(x: Bytes, y: Bytes)
    requires HashHex(x) == HashHex(y)
    ensures Digest(x) == Digest(y)
  {
    hide Digest, Hex, DigestBytes;
    HexInjective(DigestBytes(Digest(x)), DigestBytes(Digest(y)));
    DigestBytesInjective(Digest(x), Digest(y));
  }

  /** Cutting a message and flattening the pieces are inverse. */
  lemma {:induction false} FlattenJoins(a: seq<Bytes>, b: seq<Bytes>)
    ensures Flatten(a + b) == Flatten(a) + Flatten(b)
    ensures forall x: Bytes :: Flatten([x]) == x
  {
    forall x: Bytes
      ensures Flatten([x]) == x
    {
      assert [x][..0] == [];
    }
    if b == [] {
      assert a + b == a;
    } else {
      var n := |b| - 1;
      assert (a + b)[..|a + b| - 1] == a + b[..n] && (a + b)[|a + b| - 1] == b[n];
      FlattenJoins(a, b[..n]);
    }
  }

  // ---------- where the constants come from (sections 4.2.2 and 5.3.3) ----------

  function WholeRoot(p: nat): nat {
    if p < 8 then 1 else if p < 27 then 2 else if p < 64 then 3
    else if p < 125 then 4 else if p < 216 then 5 else 6
  }

  /** frac is the first 32 bits of the fractional part of the cube root of p. */
  predicate CubeRootFraction(p: nat, frac: nat) {
    var whole := WholeRoot(p);
    var x := whole * 0x1_0000_0000 + frac;
    whole * whole * whole <= p < (whole + 1) * (whole + 1) * (whole + 1)
    && x * x * x <= p * 0x1_0000_0000_0000_0000_0000_0000 < (x + 1) * (x + 1) * (x + 1)
  }

  /** frac is the first 32 bits of the fractional part of the square root of p, whose whole part is given. */
  predicate SquareRootFraction(p: nat, whole: nat, frac: nat) {
    var x := whole * 0x1_0000_0000 + frac;
    frac < 0x1_0000_0000 && x * x <= p * 0x1_0000_0000_0000_0000 < (x + 1) * (x + 1)
  }

  /** CubeRootFraction on literals, where it is plain evaluation. */
  lemma Root(p: nat, frac: nat)
    requires var whole := WholeRoot(p);
      var x := whole * 0x1_0000_0000 + frac;
      whole * whole * whole <= p < (whole + 1) * (whole + 1) * (whole + 1)
      && x * x * x <= p * 0x1_0000_0000_0000_0000_0000_0000 < (x + 1) * (x + 1) * (x + 1)
    ensures CubeRootFraction(p, frac)
  {
  }

  lemma ConstantsRow0(j: nat)
    requires j < 8
    ensures CubeRootFraction(PRIMES[0][j], K[0][j] as nat)
  {
    hide CubeRootFraction;
    match j {
      case 0 => Root(2, 0x428a2f98);
      case 1 => Root(3, 0x71374491);
      case 2 => Root(5, 0xb5c0fbcf);
      case 3 => Root(7, 0xe9b5dba5);
      case 4 => Root(11, 0x3956c25b);
      case 5 => Root(13, 0x59f111f1);
      case 6 => Root(17, 0x923f82a4);
      case _ => Root(19, 0xab1c5ed5);
    }
  }

  lemma ConstantsRow1(j: nat)
    requires j < 8
    ensures CubeRootFraction(PRIMES[1][j], K[1][j] as nat)
  {
    hide CubeRootFraction;
    match j {
      case 0 => Root(23, 0xd807aa98);
      case 1 => Root(29, 0x12835b01);
      case 2 => Root(31, 0x243185be);
      case 3 => Root(37, 0x550c7dc3);
      case 4 => Root(41, 0x72be5d74);
      case 5 => Root(43, 0x80deb1fe);
      case 6 => Root(47, 0x9bdc06a7);
      case _ => Root(53, 0xc19bf174);
    }
  }

  lemma ConstantsRow2(j: nat)
    requires j < 8
    ensures CubeRootFraction(PRIMES[2][j], K[2][j] as nat)
  {
    hide CubeRootFraction;
    match j {
      case 0 => Root(59, 0xe49b69c1);
      case 1 => Root(61, 0xefbe4786);
      case 2 => Root(67, 0x0fc19dc6);
      case 3 => Root(71, 0x240ca1cc);
      case 4 => Root(73, 0x2de92c6f);
      case 5 => Root(79, 0x4a7484aa);
      case 6 => Root(83, 0x5cb0a9dc);
      case _ => Root(89, 0x76f988da);
    }
  }

  lemma ConstantsRow3(j: nat)
    requires j < 8
    ensures CubeRootFraction(PRIMES[3][j], K[3][j] as nat)
  {
    hide CubeRootFraction;
    match j {
      case 0 => Root(97, 0x983e5152);
      case 1 => Root(101, 0xa831c66d);
      case 2 => Root(103, 0xb00327c8);
      case 3 => Root(107, 0xbf597fc7);
      case 4 => Root(109, 0xc6e00bf3);
      case 5 => Root(113, 0xd5a79147);
      case 6 => Root(127, 0x06ca6351);
      case _ => Root(131, 0x14292967);
    }
  }

  lemma ConstantsRow4(j: nat)
    requires j < 8
    ensures CubeRootFraction(PRIMES[4][j], K[4][j] as nat)
  {
    hide CubeRootFraction;
    match j {
      case 0 => Root(137, 0x27b70a85);
      case 1 => Root(139, 0x2e1b2138);
      case 2 => Root(149, 0x4d2c6dfc);
      case 3 => Root(151, 0x53380d13);
      case 4 => Root(157, 0x650a7354);
      case 5 => Root(163, 0x766a0abb);
      case 6 => Root(167, 0x81c2c92e);
      case _ => Root(173, 0x92722c85);
    }
  }

  lemma ConstantsRow5(j: nat)
    requires j < 8
    ensures CubeRootFraction(PRIMES[5][j], K[5][j] as nat)
  {
    hide CubeRootFraction;
    match j {
      case 0 => Root(179, 0xa2bfe8a1);
      case 1 => Root(181, 0xa81a664b);
      case 2 => Root(191, 0xc24b8b70);
      case 3 => Root(193, 0xc76c51a3);
      case 4 => Root(197, 0xd192e819);
      case 5 => Root(199, 0xd6990624);
      case 6 => Root(211, 0xf40e3585);
      case _ => Root(223, 0x106aa070);
    }
  }

  lemma ConstantsRow6(j: nat)
    requires j < 8
    ensures CubeRootFraction(PRIMES[6][j], K[6][j] as nat)
  {
    hide CubeRootFraction;
    match j {
      case 0 => Root(227, 0x19a4c116);
      case 1 => Root(229, 0x1e376c08);
      case 2 => Root(233, 0x2748774c);
      case 3 => Root(239, 0x34b0bcb5);
      case 4 => Root(241, 0x391c0cb3);
      case 5 => Root(251, 0x4ed8aa4a);
      case 6 => Root(257, 0x5b9cca4f);
      case _ => Root(263, 0x682e6ff3);
    }
  }

  lemma ConstantsRow7(j: nat)
    requires j < 8
    ensures CubeRootFraction(PRIMES[7][j], K[7][j] as nat)
  {
    hide CubeRootFraction;
    match j {
      case 0 => Root(269, 0x748f82ee);
      case 1 => Root(271, 0x78a5636f);
      case 2 => Root(277, 0x84c87814);
      case 3 => Root(281, 0x8cc70208);
      case 4 => Root(283, 0x90befffa);
      case 5 => Root(293, 0xa4506ceb);
      case 6 => Root(307, 0xbef9a3f7);
      case _ => Root(311, 0xc67178f2);
    }
  }

  /** Round constant t is the cube root fraction of the prime with t primes below it. */
  lemma RoundConstantsAreCubeRoots(t: nat)
    requires t < 64
    ensures |PRIMES| == 8 && |PRIMES[t / 8]| == 8 && NthPrime(t, PRIMES[t / 8][t % 8])
    ensures CubeRootFraction(PRIMES[t / 8][t % 8], RoundConstant(t) as nat)
  {
    hide CubeRootFraction, NthPrime;
    var j := t % 8;
    PrimesInOrder(t);
    match t / 8 {
      case 0 => ConstantsRow0(j);
      case 1 => ConstantsRow1(j);
      case 2 => ConstantsRow2(j);
      case 3 => ConstantsRow3(j);
      case 4 => ConstantsRow4(j);
      case 5 => ConstantsRow5(j);
      case 6 => ConstantsRow6(j);
      case _ => ConstantsRow7(j);
    }
  }

  /** SquareRootFraction on literals. */
  lemma Square(p: nat, whole: nat, frac: nat)
    requires var x := whole * 0x1_0000_0000 + frac;
      frac < 0x1_0000_0000 && x * x <= p * 0x1_0000_0000_0000_0000 < (x + 1) * (x + 1)
    ensures SquareRootFraction(p, whole, frac)
  {
  }

  /** Initial hash word i is the square root fraction of the prime with i primes below it. */
  lemma InitialIsSquareRoots(i: nat)
    requires i < 8
    ensures |PRIMES| == 8 && |PRIMES[0]| == 8 && NthPrime(i, PRIMES[0][i])
    ensures SquareRootFraction(PRIMES[0][i], if i < 1 then 1 else if i < 2 then 1 else if i < 4 then 2
                               else if i < 6 then 3 else 4, INITIAL[i] as nat)
  {
    hide SquareRootFraction, NthPrime;
    PrimesInOrder(i);
    match i {
      case 0 => Square(2, 1, 0x6a09e667);
      case 1 => Square(3, 1, 0xbb67ae85);
      case 2 => Square(5, 2, 0x3c6ef372);
      case 3 => Square(7, 2, 0xa54ff53a);
      case 4 => Square(11, 3, 0x510e527f);
      case 5 => Square(13, 3, 0x9b05688c);
      case 6 => Square(17, 4, 0x1f83d9ab);
      case _ => Square(19, 4, 0x5be0cd19);
    }
  }
}
