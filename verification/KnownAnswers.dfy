// Known answers: the worked examples of FIPS 180-2, sections B.1 and B.2, one of a single block and one whose
// padding takes a second block. They tie the definitions of Sha256Spec to published values where no law
// singles them out: the variables of a round, the rotations, the final additions, the chaining of blocks.
module KnownAnswers {
  import opened Sha256Spec
  import opened Sha256SpecChecks

  // ---------- steps on known values ----------

  /** A round: two of the variables are new, the others move up. */
  lemma Next(hv: HashValue, block: Block, t: nat, v: Vars, w: bv32, a: bv32, e: bv32) returns (u: Vars)
    requires t < 64 && Rounds(hv, block, t) == v && Schedule(block, t) == w
    requires Round(v, RoundConstant(t), w) == Vars(a, v.a, v.b, v.c, e, v.e, v.f, v.g)
    ensures u == Vars(a, v.a, v.b, v.c, e, v.e, v.f, v.g) && Rounds(hv, block, t + 1) == u
  {
    hide Round, Schedule, RoundConstant;
    u := Vars(a, v.a, v.b, v.c, e, v.e, v.f, v.g);
  }

  lemma Constants0()
    ensures RoundConstant(0) == 0x428a2f98 && RoundConstant(1) == 0x71374491
    ensures RoundConstant(2) == 0xb5c0fbcf && RoundConstant(3) == 0xe9b5dba5
    ensures RoundConstant(4) == 0x3956c25b && RoundConstant(5) == 0x59f111f1
    ensures RoundConstant(6) == 0x923f82a4 && RoundConstant(7) == 0xab1c5ed5
    ensures RoundConstant(8) == 0xd807aa98 && RoundConstant(9) == 0x12835b01
    ensures RoundConstant(10) == 0x243185be && RoundConstant(11) == 0x550c7dc3
    ensures RoundConstant(12) == 0x72be5d74 && RoundConstant(13) == 0x80deb1fe
    ensures RoundConstant(14) == 0x9bdc06a7 && RoundConstant(15) == 0xc19bf174
  {
  }

  lemma Constants1()
    ensures RoundConstant(16) == 0xe49b69c1 && RoundConstant(17) == 0xefbe4786
    ensures RoundConstant(18) == 0x0fc19dc6 && RoundConstant(19) == 0x240ca1cc
    ensures RoundConstant(20) == 0x2de92c6f && RoundConstant(21) == 0x4a7484aa
    ensures RoundConstant(22) == 0x5cb0a9dc && RoundConstant(23) == 0x76f988da
    ensures RoundConstant(24) == 0x983e5152 && RoundConstant(25) == 0xa831c66d
    ensures RoundConstant(26) == 0xb00327c8 && RoundConstant(27) == 0xbf597fc7
    ensures RoundConstant(28) == 0xc6e00bf3 && RoundConstant(29) == 0xd5a79147
    ensures RoundConstant(30) == 0x06ca6351 && RoundConstant(31) == 0x14292967
  {
  }

  lemma Constants2()
    ensures RoundConstant(32) == 0x27b70a85 && RoundConstant(33) == 0x2e1b2138
    ensures RoundConstant(34) == 0x4d2c6dfc && RoundConstant(35) == 0x53380d13
    ensures RoundConstant(36) == 0x650a7354 && RoundConstant(37) == 0x766a0abb
    ensures RoundConstant(38) == 0x81c2c92e && RoundConstant(39) == 0x92722c85
    ensures RoundConstant(40) == 0xa2bfe8a1 && RoundConstant(41) == 0xa81a664b
    ensures RoundConstant(42) == 0xc24b8b70 && RoundConstant(43) == 0xc76c51a3
    ensures RoundConstant(44) == 0xd192e819 && RoundConstant(45) == 0xd6990624
    ensures RoundConstant(46) == 0xf40e3585 && RoundConstant(47) == 0x106aa070
  {
  }

  lemma Constants3()
    ensures RoundConstant(48) == 0x19a4c116 && RoundConstant(49) == 0x1e376c08
    ensures RoundConstant(50) == 0x2748774c && RoundConstant(51) == 0x34b0bcb5
    ensures RoundConstant(52) == 0x391c0cb3 && RoundConstant(53) == 0x4ed8aa4a
    ensures RoundConstant(54) == 0x5b9cca4f && RoundConstant(55) == 0x682e6ff3
    ensures RoundConstant(56) == 0x748f82ee && RoundConstant(57) == 0x78a5636f
    ensures RoundConstant(58) == 0x84c87814 && RoundConstant(59) == 0x8cc70208
    ensures RoundConstant(60) == 0x90befffa && RoundConstant(61) == 0xa4506ceb
    ensures RoundConstant(62) == 0xbef9a3f7 && RoundConstant(63) == 0xc67178f2
  {
  }

  /** Words t to t + 7 of the schedule. */
  predicate Words(block: Block, t: nat, w0: bv32, w1: bv32, w2: bv32, w3: bv32,
                  w4: bv32, w5: bv32, w6: bv32, w7: bv32)
    requires t <= 56
  {
    Schedule(block, t) == w0 && Schedule(block, t + 1) == w1 && Schedule(block, t + 2) == w2
    && Schedule(block, t + 3) == w3 && Schedule(block, t + 4) == w4 && Schedule(block, t + 5) == w5
    && Schedule(block, t + 6) == w6 && Schedule(block, t + 7) == w7
  }

  /** Eight words made from the sixteen before them. */
  lemma EightWords(block: Block, t: nat, w0: bv32, w1: bv32, w2: bv32, w3: bv32,
                   w4: bv32, w5: bv32, w6: bv32, w7: bv32)
    requires 16 <= t <= 56
    requires Sum4(SmallSigma1(Schedule(block, t - 2)), Schedule(block, t - 7),
                  SmallSigma0(Schedule(block, t - 15)), Schedule(block, t - 16)) == w0
    requires Sum4(SmallSigma1(Schedule(block, t - 1)), Schedule(block, t - 6),
                  SmallSigma0(Schedule(block, t - 14)), Schedule(block, t - 15)) == w1
    requires Sum4(SmallSigma1(w0), Schedule(block, t - 5),
                  SmallSigma0(Schedule(block, t - 13)), Schedule(block, t - 14)) == w2
    requires Sum4(SmallSigma1(w1), Schedule(block, t - 4),
                  SmallSigma0(Schedule(block, t - 12)), Schedule(block, t - 13)) == w3
    requires Sum4(SmallSigma1(w2), Schedule(block, t - 3),
                  SmallSigma0(Schedule(block, t - 11)), Schedule(block, t - 12)) == w4
    requires Sum4(SmallSigma1(w3), Schedule(block, t - 2),
                  SmallSigma0(Schedule(block, t - 10)), Schedule(block, t - 11)) == w5
    requires Sum4(SmallSigma1(w4), Schedule(block, t - 1),
                  SmallSigma0(Schedule(block, t - 9)), Schedule(block, t - 10)) == w6
    requires Sum4(SmallSigma1(w5), w0,
                  SmallSigma0(Schedule(block, t - 8)), Schedule(block, t - 9)) == w7
    ensures Words(block, t, w0, w1, w2, w3, w4, w5, w6, w7)
  {
    hide Sum4, SmallSigma0, SmallSigma1, BlockWord;
    assert Schedule(block, t) == w0 && Schedule(block, t + 1) == w1;
    assert Schedule(block, t + 2) == w2 && Schedule(block, t + 3) == w3;
    assert Schedule(block, t + 4) == w4 && Schedule(block, t + 5) == w5;
  }

  lemma HexAt(hv: HashValue, k: nat)
    requires k < 32
    ensures Hex(DigestBytes(hv))[2 * k] == HighDigit(WordByte(hv[k / 4], k % 4))
    ensures Hex(DigestBytes(hv))[2 * k + 1] == LowDigit(WordByte(hv[k / 4], k % 4))
  {
    hide HighDigit, LowDigit, WordByte;
    assert (2 * k + 1) / 2 == k;
  }

  /** Word i of a hash value as eight characters. */
  lemma WordText(hv: HashValue, i: nat, w: bv32, text: Bytes)
    requires i < 8 && hv[i] == w && |text| == 8
    requires HighDigit(WordByte(w, 0)) == text[0] && LowDigit(WordByte(w, 0)) == text[1]
    requires HighDigit(WordByte(w, 1)) == text[2] && LowDigit(WordByte(w, 1)) == text[3]
    requires HighDigit(WordByte(w, 2)) == text[4] && LowDigit(WordByte(w, 2)) == text[5]
    requires HighDigit(WordByte(w, 3)) == text[6] && LowDigit(WordByte(w, 3)) == text[7]
    ensures Hex(DigestBytes(hv))[8 * i..8 * i + 8] == text
  {
    hide Hex, DigestBytes, HighDigit, LowDigit, WordByte;
    HexAt(hv, 4 * i);
    HexAt(hv, 4 * i + 1);
    HexAt(hv, 4 * i + 2);
    HexAt(hv, 4 * i + 3);
  }

  lemma EightParts(s: Bytes)
    requires |s| == 64
    ensures s == s[0..8] + s[8..16] + s[16..24] + s[24..32] + s[32..40] + s[40..48] + s[48..56] + s[56..64]
  {
  }

  lemma PadLength(m: Bytes, n: nat)
    requires n % 64 == 0 && |m| + 9 <= n < |m| + 9 + 64
    ensures |Pad(m)| == n
  {
    hide Pad, BigEndian, Power256;
    PadSize(m);
    PadByte(m, 0);
  }

  /** The bytes of a length below 2^16. */
  lemma SmallLength(x: nat, i: nat)
    requires x < 0x1_0000
    ensures x / Power256(i) % 256 == if i == 0 then x % 256 else if i == 1 then x / 256 else 0
  {
    if i >= 2 {
      LargePower(i);
      Quotient(x, Power256(i), 0, x);
    } else if i == 1 {
      assert Power256(1) == 256;
    } else {
      assert Power256(0) == 1;
    }
  }

  lemma {:induction false} LargePower(i: nat)
    requires i >= 2
    ensures Power256(i) >= 0x1_0000
  {
    if i > 2 { LargePower(i - 1); } else { assert Power256(2) == 256 * Power256(1); }
  }

  // ---------- the message "abc" ----------

  lemma AbcEarly(block: Block) returns (v: Vars)
    requires Words(block, 0, 0x61626380, 0, 0, 0, 0, 0, 0, 0)
    requires Words(block, 8, 0, 0, 0, 0, 0, 0, 0, 0x00000018)
    ensures Words(block, 16, 0x61626380, 0x000f0000, 0x7da86405, 0x600003c6,
                  0x3e9d7b78, 0x0183fc00, 0x12dcbfdb, 0xe2e2c38e)
    ensures Words(block, 24, 0xc8215c1a, 0xb73679a2, 0xe5bc3909, 0x32663c5b,
                  0x9d209d67, 0xec8726cb, 0x702138a4, 0xd3b7973b)
    ensures v == Rounds(INITIAL, block, 32) == Vars(
      0x73b33bf5, 0xea992a22, 0xa0060b30, 0x363482c9,
      0xba591112, 0x0109ab3a, 0xade79437, 0x6112a3b7)
  {
    hide Schedule, RoundConstant;
    Constants0();
    Constants1();
    EightWords(block, 16, 0x61626380, 0x000f0000, 0x7da86405, 0x600003c6,
               0x3e9d7b78, 0x0183fc00, 0x12dcbfdb, 0xe2e2c38e);
    EightWords(block, 24, 0xc8215c1a, 0xb73679a2, 0xe5bc3909, 0x32663c5b,
               0x9d209d67, 0xec8726cb, 0x702138a4, 0xd3b7973b);
    v := FromHash(INITIAL);
    v := Next(INITIAL, block, 0, v, 0x61626380, 0x5d6aebcd, 0xfa2a4622);
    v := Next(INITIAL, block, 1, v, 0x00000000, 0x5a6ad9ad, 0x78ce7989);
    v := Next(INITIAL, block, 2, v, 0x00000000, 0xc8c347a7, 0xf92939eb);
    v := Next(INITIAL, block, 3, v, 0x00000000, 0xd550f666, 0x24e00850);
    v := Next(INITIAL, block, 4, v, 0x00000000, 0x04409a6a, 0x43ada245);
    v := Next(INITIAL, block, 5, v, 0x00000000, 0x2b4209f5, 0x714260ad);
    v := Next(INITIAL, block, 6, v, 0x00000000, 0xe5030380, 0x9b27a401);
    v := Next(INITIAL, block, 7, v, 0x00000000, 0x85a07b5f, 0x0c657a79);
    v := Next(INITIAL, block, 8, v, 0x00000000, 0x8e04ecb9, 0x32ca2d8c);
    v := Next(INITIAL, block, 9, v, 0x00000000, 0x8c87346b, 0x1cc92596);
    v := Next(INITIAL, block, 10, v, 0x00000000, 0x4798a3f4, 0x436b23e8);
    v := Next(INITIAL, block, 11, v, 0x00000000, 0xf71fc5a9, 0x816fd6e9);
    v := Next(INITIAL, block, 12, v, 0x00000000, 0x87912990, 0x1e578218);
    v := Next(INITIAL, block, 13, v, 0x00000000, 0xd932eb16, 0x745a48de);
    v := Next(INITIAL, block, 14, v, 0x00000000, 0xc0645fde, 0x0b92f20c);
    v := Next(INITIAL, block, 15, v, 0x00000018, 0xb0fa238e, 0x07590dcd);
    v := Next(INITIAL, block, 16, v, 0x61626380, 0x21da9a9b, 0x8034229c);
    v := Next(INITIAL, block, 17, v, 0x000f0000, 0xc2fbd9d1, 0x846ee454);
    v := Next(INITIAL, block, 18, v, 0x7da86405, 0xfe777bbf, 0xcc899961);
    v := Next(INITIAL, block, 19, v, 0x600003c6, 0xe1f20c33, 0xb0638179);
    v := Next(INITIAL, block, 20, v, 0x3e9d7b78, 0x9dc68b63, 0x8ada8930);
    v := Next(INITIAL, block, 21, v, 0x0183fc00, 0xc2606d6d, 0xe1257970);
    v := Next(INITIAL, block, 22, v, 0x12dcbfdb, 0xa7a3623f, 0x49f5114a);
    v := Next(INITIAL, block, 23, v, 0xe2e2c38e, 0xc5d53d8d, 0xaa47c347);
    v := Next(INITIAL, block, 24, v, 0xc8215c1a, 0x1c2c2838, 0x2823ef91);
    v := Next(INITIAL, block, 25, v, 0xb73679a2, 0xcde8037d, 0x14383d8e);
    v := Next(INITIAL, block, 26, v, 0xe5bc3909, 0xb62ec4bc, 0xc74c6516);
    v := Next(INITIAL, block, 27, v, 0x32663c5b, 0x77d37528, 0xedffbff8);
    v := Next(INITIAL, block, 28, v, 0x9d209d67, 0x363482c9, 0x6112a3b7);
    v := Next(INITIAL, block, 29, v, 0xec8726cb, 0xa0060b30, 0xade79437);
    v := Next(INITIAL, block, 30, v, 0x702138a4, 0xea992a22, 0x0109ab3a);
    v := Next(INITIAL, block, 31, v, 0xd3b7973b, 0x73b33bf5, 0xba591112);
  }

  lemma AbcLate(block: Block) returns (v: Vars)
    requires Words(block, 16, 0x61626380, 0x000f0000, 0x7da86405, 0x600003c6,
                   0x3e9d7b78, 0x0183fc00, 0x12dcbfdb, 0xe2e2c38e)
    requires Words(block, 24, 0xc8215c1a, 0xb73679a2, 0xe5bc3909, 0x32663c5b,
                   0x9d209d67, 0xec8726cb, 0x702138a4, 0xd3b7973b)
    requires Rounds(INITIAL, block, 32) == Vars(
      0x73b33bf5, 0xea992a22, 0xa0060b30, 0x363482c9,
      0xba591112, 0x0109ab3a, 0xade79437, 0x6112a3b7)
    ensures v == Rounds(INITIAL, block, 64) == Vars(
      0x506e3058, 0xd39a2165, 0x04d24d6c, 0xb85e2ce9,
      0x5ef50f24, 0xfb121210, 0x948d25b6, 0x961f4894)
  {
    hide Schedule, RoundConstant;
    Constants2();
    Constants3();
    EightWords(block, 32, 0x93f5997f, 0x3b68ba73, 0xaff4ffc1, 0xf10a5c62,
               0x0a8b3996, 0x72af830a, 0x9409e33e, 0x24641522);
    EightWords(block, 40, 0x9f47bf94, 0xf0a64f5a, 0x3e246a79, 0x27333ba3,
               0x0c4763f2, 0x840abf27, 0x7a290d5d, 0x065c43da);
    EightWords(block, 48, 0xfb3e89cb, 0xcc7617db, 0xb9e66c34, 0xa9993667,
               0x84badedd, 0xc21462bc, 0x1487472c, 0xb20f7a99);
    EightWords(block, 56, 0xef57b9cd, 0xebe6b238, 0x9fe3095e, 0x78bc8d4b,
               0xa43fcf15, 0x668b2ff8, 0xeeaba2cc, 0x12b1edeb);
    v := Rounds(INITIAL, block, 32);
    v := Next(INITIAL, block, 32, v, 0x93f5997f, 0x98e12507, 0x9cd9f5f6);
    v := Next(INITIAL, block, 33, v, 0x3b68ba73, 0xfe604df5, 0x59249dd3);
    v := Next(INITIAL, block, 34, v, 0xaff4ffc1, 0xa9a7738c, 0x085f3833);
    v := Next(INITIAL, block, 35, v, 0xf10a5c62, 0x65a0cfe4, 0xf4b002d6);
    v := Next(INITIAL, block, 36, v, 0x0a8b3996, 0x41a65cb1, 0x0772a26b);
    v := Next(INITIAL, block, 37, v, 0x72af830a, 0x34df1604, 0xa507a53d);
    v := Next(INITIAL, block, 38, v, 0x9409e33e, 0x6dc57a8a, 0xf0781bc8);
    v := Next(INITIAL, block, 39, v, 0x24641522, 0x79ea687a, 0x1efbc0a0);
    v := Next(INITIAL, block, 40, v, 0x9f47bf94, 0xd6670766, 0x26352d63);
    v := Next(INITIAL, block, 41, v, 0xf0a64f5a, 0xdf46652f, 0x838b2711);
    v := Next(INITIAL, block, 42, v, 0x3e246a79, 0x17aa0dfe, 0xdecd4715);
    v := Next(INITIAL, block, 43, v, 0x27333ba3, 0x9d4baf93, 0xfda24c2e);
    v := Next(INITIAL, block, 44, v, 0x0c4763f2, 0x26628815, 0xa80f11f0);
    v := Next(INITIAL, block, 45, v, 0x840abf27, 0x72ab4b91, 0xb7755da1);
    v := Next(INITIAL, block, 46, v, 0x7a290d5d, 0xa14c14b0, 0xd57b94a9);
    v := Next(INITIAL, block, 47, v, 0x065c43da, 0x4172328d, 0xfecf0bc6);
    v := Next(INITIAL, block, 48, v, 0xfb3e89cb, 0x05757ceb, 0xbd714038);
    v := Next(INITIAL, block, 49, v, 0xcc7617db, 0xf11bfaa8, 0x6e5c390c);
    v := Next(INITIAL, block, 50, v, 0xb9e66c34, 0x7a0508a1, 0x52f1ccf7);
    v := Next(INITIAL, block, 51, v, 0xa9993667, 0x886e7a22, 0x49231c1e);
    v := Next(INITIAL, block, 52, v, 0x84badedd, 0x101fd28f, 0x529e7d00);
    v := Next(INITIAL, block, 53, v, 0xc21462bc, 0xf5702fdb, 0x9f4787c3);
    v := Next(INITIAL, block, 54, v, 0x1487472c, 0x3ec45cdb, 0xe50e1b4f);
    v := Next(INITIAL, block, 55, v, 0xb20f7a99, 0x38cc9913, 0x54cb266b);
    v := Next(INITIAL, block, 56, v, 0xef57b9cd, 0xfcd1887b, 0x9b5e906c);
    v := Next(INITIAL, block, 57, v, 0xebe6b238, 0xc062d46f, 0x7e44008e);
    v := Next(INITIAL, block, 58, v, 0x9fe3095e, 0xffb70472, 0x6d83bfc6);
    v := Next(INITIAL, block, 59, v, 0x78bc8d4b, 0xb6ae8fff, 0xb21bad3d);
    v := Next(INITIAL, block, 60, v, 0xa43fcf15, 0xb85e2ce9, 0x961f4894);
    v := Next(INITIAL, block, 61, v, 0x668b2ff8, 0x04d24d6c, 0x948d25b6);
    v := Next(INITIAL, block, 62, v, 0xeeaba2cc, 0xd39a2165, 0xfb121210);
    v := Next(INITIAL, block, 63, v, 0x12b1edeb, 0x506e3058, 0x5ef50f24);
  }

  lemma AbcCompressed(block: Block)
    requires Words(block, 0, 0x61626380, 0, 0, 0, 0, 0, 0, 0)
    requires Words(block, 8, 0, 0, 0, 0, 0, 0, 0, 0x00000018)
    ensures Compress(INITIAL, block) == [
      0xba7816bf, 0x8f01cfea, 0x414140de, 0x5dae2223,
      0xb00361a3, 0x96177a9c, 0xb410ff61, 0xf20015ad]
  {
    hide Schedule, Words;
    var v := AbcEarly(block);
    v := AbcLate(block);
  }

  const ABC: Bytes := [0x61, 0x62, 0x63]

  lemma AbcPadded(k: nat)
    requires k < 64
    ensures |Pad(ABC)| == 64
    ensures Pad(ABC)[k] == if k < 3 then ABC[k] else if k == 3 then 0x80 else if k == 63 then 0x18 else 0
  {
    hide Pad, BigEndian, Power256;
    PadLength(ABC, 64);
    PadByte(ABC, k);
    SmallLength(24, 63 - k);
  }

  lemma AbcBlock()
    ensures |Pad(ABC)| == 64
    ensures Words(Pad(ABC), 0, 0x61626380, 0, 0, 0, 0, 0, 0, 0) && Words(Pad(ABC), 8, 0, 0, 0, 0, 0, 0, 0, 0x18)
  {
    hide Pad;
    AbcPadded(0);
    var block: Block := Pad(ABC);
    forall k: nat | k < 64
      ensures block[k] == if k < 3 then ABC[k] else if k == 3 then 0x80 else if k == 63 then 0x18 else 0
    {
      AbcPadded(k);
    }
    forall t: nat | 1 <= t < 16
      ensures BlockWord(block, t) == if t == 15 then 0x18 else 0
    {
    }
    assert BlockWord(block, 0) == 0x61626380;
  }

  lemma AbcDigest()
    ensures Digest(ABC) == [
      0xba7816bf, 0x8f01cfea, 0x414140de, 0x5dae2223,
      0xb00361a3, 0x96177a9c, 0xb410ff61, 0xf20015ad]
  {
    hide Pad, Compress, Words;
    AbcBlock();
    var block: Block := Pad(ABC);
    AbcCompressed(block);
    assert block[0..64] == block;
    assert HashBlocks(block, 0) == INITIAL && HashBlocks(block, 1) == Compress(INITIAL, block);
  }

  /** Section B.1: the hash of "abc". */
  lemma AbcText()
    ensures HashHex(ABC) ==
      [0x62, 0x61, 0x37, 0x38, 0x31, 0x36, 0x62, 0x66] +
      [0x38, 0x66, 0x30, 0x31, 0x63, 0x66, 0x65, 0x61] +
      [0x34, 0x31, 0x34, 0x31, 0x34, 0x30, 0x64, 0x65] +
      [0x35, 0x64, 0x61, 0x65, 0x32, 0x32, 0x32, 0x33] +
      [0x62, 0x30, 0x30, 0x33, 0x36, 0x31, 0x61, 0x33] +
      [0x39, 0x36, 0x31, 0x37, 0x37, 0x61, 0x39, 0x63] +
      [0x62, 0x34, 0x31, 0x30, 0x66, 0x66, 0x36, 0x31] +
      [0x66, 0x32, 0x30, 0x30, 0x31, 0x35, 0x61, 0x64]
  {
    hide Digest, Hex, DigestBytes;
    AbcDigest();
    var hv := Digest(ABC);
    WordText(hv, 0, 0xba7816bf, [0x62, 0x61, 0x37, 0x38, 0x31, 0x36, 0x62, 0x66]);
    WordText(hv, 1, 0x8f01cfea, [0x38, 0x66, 0x30, 0x31, 0x63, 0x66, 0x65, 0x61]);
    WordText(hv, 2, 0x414140de, [0x34, 0x31, 0x34, 0x31, 0x34, 0x30, 0x64, 0x65]);
    WordText(hv, 3, 0x5dae2223, [0x35, 0x64, 0x61, 0x65, 0x32, 0x32, 0x32, 0x33]);
    WordText(hv, 4, 0xb00361a3, [0x62, 0x30, 0x30, 0x33, 0x36, 0x31, 0x61, 0x33]);
    WordText(hv, 5, 0x96177a9c, [0x39, 0x36, 0x31, 0x37, 0x37, 0x61, 0x39, 0x63]);
    WordText(hv, 6, 0xb410ff61, [0x62, 0x34, 0x31, 0x30, 0x66, 0x66, 0x36, 0x31]);
    WordText(hv, 7, 0xf20015ad, [0x66, 0x32, 0x30, 0x30, 0x31, 0x35, 0x61, 0x64]);
    EightParts(Hex(DigestBytes(hv)));
  }

  // ---------- a message whose padding takes a second block ----------

  lemma FirstEarly(block: Block) returns (v: Vars)
    requires Words(block, 0, 0x61626364, 0x62636465, 0x63646566, 0x64656667,
                   0x65666768, 0x66676869, 0x6768696a, 0x68696a6b)
    requires Words(block, 8, 0x696a6b6c, 0x6a6b6c6d, 0x6b6c6d6e, 0x6c6d6e6f, 0x6d6e6f70, 0x6e6f7071, 0x80000000, 0)
    ensures Words(block, 16, 0xeb8012ad, 0xa7c3ae92, 0x76e93ba2, 0xba42e743,
                  0x92a92204, 0xd847e75e, 0x9e160036, 0xb280a7cb)
    ensures Words(block, 24, 0xddeb1516, 0xf36586f4, 0x969cd048, 0xe959d99d,
                  0x6accc0ec, 0xf54cb098, 0x2af1b2da, 0xee59c4c9)
    ensures v == Rounds(INITIAL, block, 32) == Vars(
      0x5581ab07, 0xeb43f3ed, 0xdf7151a0, 0x74bcf468,
      0xdf980085, 0x0635d880, 0x7629c961, 0x72abaecd)
  {
    hide Schedule, RoundConstant;
    Constants0();
    Constants1();
    EightWords(block, 16, 0xeb8012ad, 0xa7c3ae92, 0x76e93ba2, 0xba42e743,
               0x92a92204, 0xd847e75e, 0x9e160036, 0xb280a7cb);
    EightWords(block, 24, 0xddeb1516, 0xf36586f4, 0x969cd048, 0xe959d99d,
               0x6accc0ec, 0xf54cb098, 0x2af1b2da, 0xee59c4c9);
    v := FromHash(INITIAL);
    v := Next(INITIAL, block, 0, v, 0x61626364, 0x5d6aebb1, 0xfa2a4606);
    v := Next(INITIAL, block, 1, v, 0x62636465, 0x2f2d5fcf, 0x4eb1cfce);
    v := Next(INITIAL, block, 2, v, 0x63646566, 0x97651825, 0x62d5c49e);
    v := Next(INITIAL, block, 3, v, 0x64656667, 0x4a8d64d5, 0x6494841b);
    v := Next(INITIAL, block, 4, v, 0x65666768, 0xf921c212, 0x05c4f88a);
    v := Next(INITIAL, block, 5, v, 0x66676869, 0x55c8ef48, 0x7ff91c94);
    v := Next(INITIAL, block, 6, v, 0x6768696a, 0x485835b7, 0x39a5b2ca);
    v := Next(INITIAL, block, 7, v, 0x68696a6b, 0xd237e6db, 0xa401d211);
    v := Next(INITIAL, block, 8, v, 0x696a6b6c, 0x359f2bce, 0xc09ffec4);
    v := Next(INITIAL, block, 9, v, 0x6a6b6c6d, 0x3a474b2b, 0x9037b3b8);
    v := Next(INITIAL, block, 10, v, 0x6b6c6d6e, 0xb8e2b4cb, 0x443ed29e);
    v := Next(INITIAL, block, 11, v, 0x6c6d6e6f, 0x1762215c, 0xee1c97a8);
    v := Next(INITIAL, block, 12, v, 0x6d6e6f70, 0x101a4861, 0x839a0fc9);
    v := Next(INITIAL, block, 13, v, 0x6e6f7071, 0xd68e6457, 0x9243f8af);
    v := Next(INITIAL, block, 14, v, 0x80000000, 0xdd16cbb3, 0x9162aded);
    v := Next(INITIAL, block, 15, v, 0x00000000, 0xc3486194, 0x1496a54f);
    v := Next(INITIAL, block, 16, v, 0xeb8012ad, 0xb9dcacb1, 0xd4f64250);
    v := Next(INITIAL, block, 17, v, 0xa7c3ae92, 0x046a193e, 0x885370b6);
    v := Next(INITIAL, block, 18, v, 0x76e93ba2, 0xf402f058, 0x6f433549);
    v := Next(INITIAL, block, 19, v, 0xba42e743, 0x2139187b, 0x7c304206);
    v := Next(INITIAL, block, 20, v, 0x92a92204, 0xd70ac17d, 0x7cc6b262);
    v := Next(INITIAL, block, 21, v, 0xd847e75e, 0x1b2b66b8, 0xd560b028);
    v := Next(INITIAL, block, 22, v, 0x9e160036, 0xae2e2d4f, 0xf074fc95);
    v := Next(INITIAL, block, 23, v, 0xb280a7cb, 0x59fce6b9, 0xa2c7d51d);
    v := Next(INITIAL, block, 24, v, 0xddeb1516, 0x4a885065, 0x763597fb);
    v := Next(INITIAL, block, 25, v, 0xf36586f4, 0x573221da, 0x36e74eb4);
    v := Next(INITIAL, block, 26, v, 0x969cd048, 0x128661da, 0x1162d575);
    v := Next(INITIAL, block, 27, v, 0xe959d99d, 0x73f858af, 0xe77c797f);
    v := Next(INITIAL, block, 28, v, 0x6accc0ec, 0x74bcf468, 0x72abaecd);
    v := Next(INITIAL, block, 29, v, 0xf54cb098, 0xdf7151a0, 0x7629c961);
    v := Next(INITIAL, block, 30, v, 0x2af1b2da, 0xeb43f3ed, 0x0635d880);
    v := Next(INITIAL, block, 31, v, 0xee59c4c9, 0x5581ab07, 0xdf980085);
  }

  lemma FirstLate(block: Block) returns (v: Vars)
    requires Words(block, 16, 0xeb8012ad, 0xa7c3ae92, 0x76e93ba2, 0xba42e743,
                   0x92a92204, 0xd847e75e, 0x9e160036, 0xb280a7cb)
    requires Words(block, 24, 0xddeb1516, 0xf36586f4, 0x969cd048, 0xe959d99d,
                   0x6accc0ec, 0xf54cb098, 0x2af1b2da, 0xee59c4c9)
    requires Rounds(INITIAL, block, 32) == Vars(
      0x5581ab07, 0xeb43f3ed, 0xdf7151a0, 0x74bcf468,
      0xdf980085, 0x0635d880, 0x7629c961, 0x72abaecd)
    ensures v == Rounds(INITIAL, block, 64) == Vars(
      0x1bdc6f6f, 0x86126910, 0xf6f443f8, 0xbcfce922,
      0x25d2430a, 0x2fc08f85, 0xacc75916, 0x962d8621)
  {
    hide Schedule, RoundConstant;
    Constants2();
    Constants3();
    EightWords(block, 32, 0xa835e16a, 0x1dff4429, 0xd6e15959, 0xc397cd6e,
               0x6f1801ca, 0x21574205, 0x35ff7a84, 0x9743ee78);
    EightWords(block, 40, 0xe44183e7, 0x0d09f00d, 0x9c89af54, 0x042d5bef,
               0x71f134d0, 0x0f94f463, 0x7e49dc63, 0x6f65c997);
    EightWords(block, 48, 0x0b706583, 0x179312ca, 0x503054e9, 0xba125c39,
               0x7e9392c9, 0xd5cbaa1e, 0x78e0585d, 0xf6e7611c);
    EightWords(block, 56, 0x8ac830ce, 0x8b47a303, 0xfd6e627f, 0x8c6e2c6a,
               0x4001adf1, 0x1a3dd097, 0xa9df6f62, 0x6aa60a39);
    v := Rounds(INITIAL, block, 32);
    v := Next(INITIAL, block, 32, v, 0xa835e16a, 0x9fc905c8, 0xa94d2af1);
    v := Next(INITIAL, block, 33, v, 0x1dff4429, 0x9ce5a62f, 0x6ef3b6bd);
    v := Next(INITIAL, block, 34, v, 0xd6e15959, 0x1df8e885, 0x2a9e048e);
    v := Next(INITIAL, block, 35, v, 0xc397cd6e, 0x0786dce8, 0xde2a21d1);
    v := Next(INITIAL, block, 36, v, 0x6f1801ca, 0x2c55d3a6, 0xb067c1af);
    v := Next(INITIAL, block, 37, v, 0x21574205, 0xa985b4be, 0xf72bf353);
    v := Next(INITIAL, block, 38, v, 0x35ff7a84, 0x91ac9d5d, 0x68d8d590);
    v := Next(INITIAL, block, 39, v, 0x9743ee78, 0x7e4d30b8, 0x9f5b9b6d);
    v := Next(INITIAL, block, 40, v, 0xe44183e7, 0x7e056794, 0x423b26c0);
    v := Next(INITIAL, block, 41, v, 0x0d09f00d, 0x508a16ab, 0x45459d97);
    v := Next(INITIAL, block, 42, v, 0x9c89af54, 0xb62c7013, 0x80a92a00);
    v := Next(INITIAL, block, 43, v, 0x042d5bef, 0x167361de, 0x41dd3844);
    v := Next(INITIAL, block, 44, v, 0x71f134d0, 0xde71e2f2, 0xff61c636);
    v := Next(INITIAL, block, 45, v, 0x0f94f463, 0x18f0d19d, 0x6b88472c);
    v := Next(INITIAL, block, 46, v, 0x7e49dc63, 0x165be9cd, 0xa483f080);
    v := Next(INITIAL, block, 47, v, 0x6f65c997, 0x13d82741, 0xa7802a4d);
    v := Next(INITIAL, block, 48, v, 0x0b706583, 0x017b9d99, 0xaeb10b60);
    v := Next(INITIAL, block, 49, v, 0x179312ca, 0x543c99a1, 0x16f134b6);
    v := Next(INITIAL, block, 50, v, 0x503054e9, 0x758ca97a, 0x100cf2ea);
    v := Next(INITIAL, block, 51, v, 0xba125c39, 0x81c1cde0, 0x5c47eb7b);
    v := Next(INITIAL, block, 52, v, 0x7e9392c9, 0xb8d55619, 0x1c806a61);
    v := Next(INITIAL, block, 53, v, 0xd5cbaa1e, 0x1d6de87a, 0x3443bed4);
    v := Next(INITIAL, block, 54, v, 0x78e0585d, 0xf907b313, 0x61a41711);
    v := Next(INITIAL, block, 55, v, 0xf6e7611c, 0x9e57c4a0, 0xeec13548);
    v := Next(INITIAL, block, 56, v, 0x8ac830ce, 0x71629856, 0x2f6c8c4e);
    v := Next(INITIAL, block, 57, v, 0x8b47a303, 0x7c015a2c, 0xcb9d3dd0);
    v := Next(INITIAL, block, 58, v, 0xfd6e627f, 0x921fccb6, 0x43d8a034);
    v := Next(INITIAL, block, 59, v, 0x8c6e2c6a, 0xe18f259a, 0x51e15869);
    v := Next(INITIAL, block, 60, v, 0x4001adf1, 0xbcfce922, 0x962d8621);
    v := Next(INITIAL, block, 61, v, 0x1a3dd097, 0xf6f443f8, 0xacc75916);
    v := Next(INITIAL, block, 62, v, 0xa9df6f62, 0x86126910, 0x2fc08f85);
    v := Next(INITIAL, block, 63, v, 0x6aa60a39, 0x1bdc6f6f, 0x25d2430a);
  }

  lemma FirstCompressed(block: Block)
    requires Words(block, 0, 0x61626364, 0x62636465, 0x63646566, 0x64656667,
                   0x65666768, 0x66676869, 0x6768696a, 0x68696a6b)
    requires Words(block, 8, 0x696a6b6c, 0x6a6b6c6d, 0x6b6c6d6e, 0x6c6d6e6f, 0x6d6e6f70, 0x6e6f7071, 0x80000000, 0)
    ensures Compress(INITIAL, block) == [
      0x85e655d6, 0x417a1795, 0x3363376a, 0x624cde5c,
      0x76e09589, 0xcac5f811, 0xcc4b32c1, 0xf20e533a]
  {
    hide Schedule, Words;
    var v := FirstEarly(block);
    v := FirstLate(block);
  }

  /** The hash value between the blocks. */
  const MIDDLE: HashValue := [
    0x85e655d6, 0x417a1795, 0x3363376a, 0x624cde5c, 0x76e09589, 0xcac5f811, 0xcc4b32c1, 0xf20e533a]

  lemma SecondEarly(block: Block) returns (v: Vars)
    requires Words(block, 0, 0, 0, 0, 0, 0, 0, 0, 0)
    requires Words(block, 8, 0, 0, 0, 0, 0, 0, 0, 0x000001c0)
    ensures Words(block, 16, 0, 0x00d80000, 0, 0x00003677, 0, 0x1df5600d, 0x000001c0, 0x1c00501c)
    ensures Words(block, 24, 0x01b00000, 0x220a8d94, 0x0000a365, 0x177017e7,
                  0x63d38035, 0x090ab713, 0x4c7539ca, 0x0f19a8c9)
    ensures v == Rounds(MIDDLE, block, 32) == Vars(
      0xb0eab1c5, 0x02ef3a5f, 0x1cfa5eb0, 0xd958b529,
      0xf6d93952, 0x5da10665, 0x6c49db9f, 0xc2fa99b1)
  {
    hide Schedule, RoundConstant;
    Constants0();
    Constants1();
    EightWords(block, 16, 0, 0x00d80000, 0, 0x00003677, 0, 0x1df5600d, 0x000001c0, 0x1c00501c);
    EightWords(block, 24, 0x01b00000, 0x220a8d94, 0x0000a365, 0x177017e7,
               0x63d38035, 0x090ab713, 0x4c7539ca, 0x0f19a8c9);
    v := FromHash(MIDDLE);
    v := Next(MIDDLE, block, 0, v, 0x00000000, 0x7c20c838, 0x4670ae6e);
    v := Next(MIDDLE, block, 1, v, 0x00000000, 0x7c3c0f86, 0x8c51be64);
    v := Next(MIDDLE, block, 2, v, 0x00000000, 0xfd1eebdc, 0xaf71b9ea);
    v := Next(MIDDLE, block, 3, v, 0x00000000, 0xf268faa9, 0xe20362ef);
    v := Next(MIDDLE, block, 4, v, 0x00000000, 0x185a5d79, 0x8dff3001);
    v := Next(MIDDLE, block, 5, v, 0x00000000, 0x3eeb6c06, 0xfe20cda6);
    v := Next(MIDDLE, block, 6, v, 0x00000000, 0x89bba3f1, 0x0a34df03);
    v := Next(MIDDLE, block, 7, v, 0x00000000, 0xbf9a93a0, 0x059abdd1);
    v := Next(MIDDLE, block, 8, v, 0x00000000, 0x2c096744, 0xabfa465b);
    v := Next(MIDDLE, block, 9, v, 0x00000000, 0x2d964e86, 0xaa27ed82);
    v := Next(MIDDLE, block, 10, v, 0x00000000, 0x5b35025b, 0x10e77723);
    v := Next(MIDDLE, block, 11, v, 0x00000000, 0x5eb4ec40, 0xe11b4548);
    v := Next(MIDDLE, block, 12, v, 0x00000000, 0x35ee996d, 0x5c24e2a2);
    v := Next(MIDDLE, block, 13, v, 0x00000000, 0xd74080fa, 0x68aa893f);
    v := Next(MIDDLE, block, 14, v, 0x00000000, 0x0cea5cbc, 0x60356548);
    v := Next(MIDDLE, block, 15, v, 0x000001c0, 0x16a8cc79, 0x0fcb1f6f);
    v := Next(MIDDLE, block, 16, v, 0x00000000, 0xf16f634e, 0x8b21cdc1);
    v := Next(MIDDLE, block, 17, v, 0x00d80000, 0x23dcb6c2, 0xca9182d3);
    v := Next(MIDDLE, block, 18, v, 0x00000000, 0xdcff40fd, 0x69bf7b95);
    v := Next(MIDDLE, block, 19, v, 0x00003677, 0x76f1a2bc, 0x0dc84bb1);
    v := Next(MIDDLE, block, 20, v, 0x00000000, 0x20aad899, 0xcc4769f2);
    v := Next(MIDDLE, block, 21, v, 0x1df5600d, 0xd44dc81a, 0x5bace62d);
    v := Next(MIDDLE, block, 22, v, 0x000001c0, 0xf13ae55b, 0x966aa287);
    v := Next(MIDDLE, block, 23, v, 0x1c00501c, 0xa4195b91, 0xeddbd6ed);
    v := Next(MIDDLE, block, 24, v, 0x01b00000, 0x4984fa79, 0xa530d939);
    v := Next(MIDDLE, block, 25, v, 0x220a8d94, 0xaa6cb982, 0x0b5eeea4);
    v := Next(MIDDLE, block, 26, v, 0x0000a365, 0x9450fbbc, 0x09166dda);
    v := Next(MIDDLE, block, 27, v, 0x177017e7, 0x0d936bab, 0x6e495d4b);
    v := Next(MIDDLE, block, 28, v, 0x63d38035, 0xd958b529, 0xc2fa99b1);
    v := Next(MIDDLE, block, 29, v, 0x090ab713, 0x1cfa5eb0, 0x6c49db9f);
    v := Next(MIDDLE, block, 30, v, 0x4c7539ca, 0x02ef3a5f, 0x5da10665);
    v := Next(MIDDLE, block, 31, v, 0x0f19a8c9, 0xb0eab1c5, 0xf6d93952);
  }

  lemma SecondLate(block: Block) returns (v: Vars)
    requires Words(block, 16, 0, 0x00d80000, 0, 0x00003677, 0, 0x1df5600d, 0x000001c0, 0x1c00501c)
    requires Words(block, 24, 0x01b00000, 0x220a8d94, 0x0000a365, 0x177017e7,
                   0x63d38035, 0x090ab713, 0x4c7539ca, 0x0f19a8c9)
    requires Rounds(MIDDLE, block, 32) == Vars(
      0xb0eab1c5, 0x02ef3a5f, 0x1cfa5eb0, 0xd958b529,
      0xf6d93952, 0x5da10665, 0x6c49db9f, 0xc2fa99b1)
    ensures v == Rounds(MIDDLE, block, 64) == Vars(
      0x9ea7148b, 0x908c2123, 0xb25cef29, 0xa9f181dd,
      0x2c5c4ed0, 0x9a392956, 0x2aa1bb13, 0x27ccb387)
  {
    hide Schedule, RoundConstant;
    Constants2();
    Constants3();
    EightWords(block, 32, 0x5df4b0c4, 0xe257036a, 0xc97bb6f1, 0xc5b46f4d,
               0xf8253c4e, 0xa558d189, 0x78696285, 0xed07117f);
    EightWords(block, 40, 0x107358f6, 0x390ae496, 0x565010a2, 0xc51d7d44,
               0x9e74c972, 0x6614b561, 0x30fc129d, 0x9ac684a8);
    EightWords(block, 48, 0x2b658dbd, 0xe290f793, 0x9eebb24c, 0x9713b5de,
               0x41061ab7, 0xe022e23b, 0x0772079e, 0x7de22d9c);
    EightWords(block, 56, 0xc8b83778, 0x75a79849, 0xd93dbddb, 0x0a036c9d,
               0xcb4f6ac6, 0x823f97e2, 0xea2f2a7a, 0xb9018b52);
    v := Rounds(MIDDLE, block, 32);
    v := Next(MIDDLE, block, 32, v, 0x5df4b0c4, 0x0bfba73c, 0x8b99e3a9);
    v := Next(MIDDLE, block, 33, v, 0xe257036a, 0x4bd1df96, 0x905e44ac);
    v := Next(MIDDLE, block, 34, v, 0xc97bb6f1, 0x9907f1b6, 0x66c3043d);
    v := Next(MIDDLE, block, 35, v, 0xc5b46f4d, 0xecde4e0d, 0x5dc119e6);
    v := Next(MIDDLE, block, 36, v, 0xf8253c4e, 0x2f11c939, 0xfed4ce1d);
    v := Next(MIDDLE, block, 37, v, 0xa558d189, 0xd949682b, 0x32d99008);
    v := Next(MIDDLE, block, 38, v, 0x78696285, 0xadca7a96, 0xc6cce4ff);
    v := Next(MIDDLE, block, 39, v, 0xed07117f, 0x221b8a5a, 0x0b82c5eb);
    v := Next(MIDDLE, block, 40, v, 0x107358f6, 0x12d97845, 0xe4213ca2);
    v := Next(MIDDLE, block, 41, v, 0x390ae496, 0x2c794876, 0xff6759ba);
    v := Next(MIDDLE, block, 42, v, 0x565010a2, 0x8300fca2, 0xe0e3457c);
    v := Next(MIDDLE, block, 43, v, 0xc51d7d44, 0xf2ad6322, 0xcc48c7f3);
    v := Next(MIDDLE, block, 44, v, 0x9e74c972, 0x0f154e11, 0x6f9517cb);
    v := Next(MIDDLE, block, 45, v, 0x6614b561, 0x104a7db4, 0x5348e8f6);
    v := Next(MIDDLE, block, 46, v, 0x30fc129d, 0x0b3303a7, 0xbbe1c39a);
    v := Next(MIDDLE, block, 47, v, 0x9ac684a8, 0xd7354d5b, 0xaad55b6b);
    v := Next(MIDDLE, block, 48, v, 0x2b658dbd, 0xb736d7a6, 0x68f25260);
    v := Next(MIDDLE, block, 49, v, 0xe290f793, 0x2748e5ec, 0xd4b58576);
    v := Next(MIDDLE, block, 50, v, 0x9eebb24c, 0xd8aabcf9, 0x27844711);
    v := Next(MIDDLE, block, 51, v, 0x9713b5de, 0x1a6bcf6a, 0xff5e99d0);
    v := Next(MIDDLE, block, 52, v, 0x41061ab7, 0x4eca6fa0, 0x989ed071);
    v := Next(MIDDLE, block, 53, v, 0xe022e23b, 0xec02560a, 0x7151df8e);
    v := Next(MIDDLE, block, 54, v, 0x0772079e, 0xd9f0c115, 0x624150c4);
    v := Next(MIDDLE, block, 55, v, 0x7de22d9c, 0x92952710, 0x226806d6);
    v := Next(MIDDLE, block, 56, v, 0xc8b83778, 0x20d4d0e4, 0x4e515a4d);
    v := Next(MIDDLE, block, 57, v, 0x75a79849, 0x4348eb1f, 0xc21eddf9);
    v := Next(MIDDLE, block, 58, v, 0xd93dbddb, 0x286fe5f0, 0x54076664);
    v := Next(MIDDLE, block, 59, v, 0x0a036c9d, 0x1c4cddd9, 0xf487a853);
    v := Next(MIDDLE, block, 60, v, 0xcb4f6ac6, 0xa9f181dd, 0x27ccb387);
    v := Next(MIDDLE, block, 61, v, 0x823f97e2, 0xb25cef29, 0x2aa1bb13);
    v := Next(MIDDLE, block, 62, v, 0xea2f2a7a, 0x908c2123, 0x9a392956);
    v := Next(MIDDLE, block, 63, v, 0xb9018b52, 0x9ea7148b, 0x2c5c4ed0);
  }

  lemma SecondCompressed(block: Block)
    requires Words(block, 0, 0, 0, 0, 0, 0, 0, 0, 0)
    requires Words(block, 8, 0, 0, 0, 0, 0, 0, 0, 0x000001c0)
    ensures Compress(MIDDLE, block) == [
      0x248d6a61, 0xd20638b8, 0xe5c02693, 0x0c3e6039,
      0xa33ce459, 0x64ff2167, 0xf6ecedd4, 0x19db06c1]
  {
    hide Schedule, Words;
    var v := SecondEarly(block);
    v := SecondLate(block);
  }

  /** The message, in rows of eight letters. */
  const LETTERS: seq<seq<bv8>> := [
    [0x61, 0x62, 0x63, 0x64, 0x62, 0x63, 0x64, 0x65], [0x63, 0x64, 0x65, 0x66, 0x64, 0x65, 0x66, 0x67],
    [0x65, 0x66, 0x67, 0x68, 0x66, 0x67, 0x68, 0x69], [0x67, 0x68, 0x69, 0x6a, 0x68, 0x69, 0x6a, 0x6b],
    [0x69, 0x6a, 0x6b, 0x6c, 0x6a, 0x6b, 0x6c, 0x6d], [0x6b, 0x6c, 0x6d, 0x6e, 0x6c, 0x6d, 0x6e, 0x6f],
    [0x6d, 0x6e, 0x6f, 0x70, 0x6e, 0x6f, 0x70, 0x71]]

  const LONGER: Bytes := seq(56, k requires 0 <= k < 56 => LETTERS[k / 8][k % 8])

  lemma LongerPadded(k: nat)
    requires k < 128
    ensures |Pad(LONGER)| == 128
    ensures Pad(LONGER)[k] == if k < 56 then LONGER[k] else if k == 56 then 0x80
                              else if k == 126 then 0x01 else if k == 127 then 0xc0 else 0
  {
    hide Pad, BigEndian, Power256;
    PadLength(LONGER, 128);
    PadByte(LONGER, k);
    SmallLength(448, 127 - k);
  }

  /** Letter i of word t of the message. */
  function Letter(t: nat, i: nat): bv8
    requires t < 14 && i < 4
  {
    LETTERS[t / 2][4 * (t % 2) + i]
  }

  /** Word t of the message. */
  function LongerWord(t: nat): bv32
    requires t < 14
  {
    JoinBytes(Letter(t, 0), Letter(t, 1), Letter(t, 2), Letter(t, 3))
  }

  lemma LongerWords0()
    ensures LongerWord(0) == 0x61626364 && LongerWord(1) == 0x62636465
    ensures LongerWord(2) == 0x63646566 && LongerWord(3) == 0x64656667
    ensures LongerWord(4) == 0x65666768 && LongerWord(5) == 0x66676869
    ensures LongerWord(6) == 0x6768696a
  {
  }

  lemma LongerWords1()
    ensures LongerWord(7) == 0x68696a6b && LongerWord(8) == 0x696a6b6c
    ensures LongerWord(9) == 0x6a6b6c6d && LongerWord(10) == 0x6b6c6d6e
    ensures LongerWord(11) == 0x6c6d6e6f && LongerWord(12) == 0x6d6e6f70
    ensures LongerWord(13) == 0x6e6f7071
  {
  }

  lemma LongerLetter(t: nat, i: nat)
    requires t < 14 && i < 4
    ensures LONGER[4 * t + i] == Letter(t, i)
  {
    assert (4 * t + i) / 8 == t / 2 && (4 * t + i) % 8 == 4 * (t % 2) + i;
  }

  lemma PaddingWords()
    ensures JoinBytes(0x80, 0, 0, 0) == 0x80000000 && JoinBytes(0, 0, 0, 0) == 0
  {
  }

  lemma FirstWord(block: Block, t: nat)
    requires |Pad(LONGER)| == 128 && block == Pad(LONGER)[..64] && t < 16
    ensures BlockWord(block, t) == if t < 14 then LongerWord(t) else if t == 14 then 0x80000000 else 0
  {
    hide Pad, JoinBytes, Letter;
    PaddingWords();
    FirstByte(block, t, 0);
    FirstByte(block, t, 1);
    FirstByte(block, t, 2);
    FirstByte(block, t, 3);
  }

  lemma FirstByte(block: Block, t: nat, i: nat)
    requires |Pad(LONGER)| == 128 && block == Pad(LONGER)[..64] && t < 16 && i < 4
    ensures block[4 * t + i] == if t < 14 then Letter(t, i) else if t == 14 && i == 0 then 0x80 else 0
  {
    hide Pad, Letter;
    LongerPadded(4 * t + i);
    if t < 14 { LongerLetter(t, i); }
  }

  lemma FirstBlock(block: Block)
    requires |Pad(LONGER)| == 128 && block == Pad(LONGER)[..64]
    ensures Words(block, 0, 0x61626364, 0x62636465, 0x63646566, 0x64656667,
                  0x65666768, 0x66676869, 0x6768696a, 0x68696a6b)
    ensures Words(block, 8, 0x696a6b6c, 0x6a6b6c6d, 0x6b6c6d6e, 0x6c6d6e6f, 0x6d6e6f70, 0x6e6f7071, 0x80000000, 0)
  {
    hide Pad, BlockWord, LongerWord;
    LongerWords0();
    LongerWords1();
    forall t: nat | t < 16
      ensures BlockWord(block, t) == if t < 14 then LongerWord(t) else if t == 14 then 0x80000000 else 0
    {
      FirstWord(block, t);
    }
  }

  lemma SecondBlock(block: Block)
    requires |Pad(LONGER)| == 128 && block == Pad(LONGER)[64..]
    ensures Words(block, 0, 0, 0, 0, 0, 0, 0, 0, 0) && Words(block, 8, 0, 0, 0, 0, 0, 0, 0, 0x01c0)
  {
    hide Pad;
    forall k: nat | k < 64
      ensures block[k] == if k == 62 then 0x01 else if k == 63 then 0xc0 else 0
    {
      LongerPadded(64 + k);
    }
    forall t: nat | t < 16
      ensures BlockWord(block, t) == if t == 15 then 0x01c0 else 0
    {
    }
  }

  lemma LongerDigest()
    ensures Digest(LONGER) == [
      0x248d6a61, 0xd20638b8, 0xe5c02693, 0x0c3e6039,
      0xa33ce459, 0x64ff2167, 0xf6ecedd4, 0x19db06c1]
  {
    hide Pad, Compress, Words;
    LongerPadded(0);
    var p := Pad(LONGER);
    var one: Block, two: Block := p[..64], p[64..];
    FirstBlock(one);
    SecondBlock(two);
    FirstCompressed(one);
    SecondCompressed(two);
    assert p[0..64] == one && p[64..128] == two;
    assert HashBlocks(p, 0) == INITIAL && HashBlocks(p, 1) == Compress(INITIAL, one);
    assert HashBlocks(p, 2) == Compress(HashBlocks(p, 1), two);
  }

  /** Section B.2. */
  lemma LongerText()
    ensures HashHex(LONGER) ==
      [0x32, 0x34, 0x38, 0x64, 0x36, 0x61, 0x36, 0x31] +
      [0x64, 0x32, 0x30, 0x36, 0x33, 0x38, 0x62, 0x38] +
      [0x65, 0x35, 0x63, 0x30, 0x32, 0x36, 0x39, 0x33] +
      [0x30, 0x63, 0x33, 0x65, 0x36, 0x30, 0x33, 0x39] +
      [0x61, 0x33, 0x33, 0x63, 0x65, 0x34, 0x35, 0x39] +
      [0x36, 0x34, 0x66, 0x66, 0x32, 0x31, 0x36, 0x37] +
      [0x66, 0x36, 0x65, 0x63, 0x65, 0x64, 0x64, 0x34] +
      [0x31, 0x39, 0x64, 0x62, 0x30, 0x36, 0x63, 0x31]
  {
    hide Digest, Hex, DigestBytes;
    LongerDigest();
    var hv := Digest(LONGER);
    WordText(hv, 0, 0x248d6a61, [0x32, 0x34, 0x38, 0x64, 0x36, 0x61, 0x36, 0x31]);
    WordText(hv, 1, 0xd20638b8, [0x64, 0x32, 0x30, 0x36, 0x33, 0x38, 0x62, 0x38]);
    WordText(hv, 2, 0xe5c02693, [0x65, 0x35, 0x63, 0x30, 0x32, 0x36, 0x39, 0x33]);
    WordText(hv, 3, 0x0c3e6039, [0x30, 0x63, 0x33, 0x65, 0x36, 0x30, 0x33, 0x39]);
    WordText(hv, 4, 0xa33ce459, [0x61, 0x33, 0x33, 0x63, 0x65, 0x34, 0x35, 0x39]);
    WordText(hv, 5, 0x64ff2167, [0x36, 0x34, 0x66, 0x66, 0x32, 0x31, 0x36, 0x37]);
    WordText(hv, 6, 0xf6ecedd4, [0x66, 0x36, 0x65, 0x63, 0x65, 0x64, 0x64, 0x34]);
    WordText(hv, 7, 0x19db06c1, [0x31, 0x39, 0x64, 0x62, 0x30, 0x36, 0x63, 0x31]);
    EightParts(Hex(DigestBytes(hv)));
  }
}
