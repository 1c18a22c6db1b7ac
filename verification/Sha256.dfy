// The incremental hash of src/crypt/sha256.c: a chaining value, a 64-byte carry buffer and a byte
// count that live across calls.
module Sha256 {
  import opened Sha256Spec

  const TWO_32 := 0x1_0000_0000
  const TWO_64 := 0x1_0000_0000_0000_0000

  // ---------- the expressions sha256_calculate_chunk writes inline ----------

  function Lower0(x: bv32): (r: bv32)
    ensures r == SmallSigma0(x)
  {
    ((x >> 7) | (x << 25)) ^ ((x >> 18) | (x << 14)) ^ (x >> 3)
  }

  function Lower1(x: bv32): (r: bv32)
    ensures r == SmallSigma1(x)
  {
    ((x >> 17) | (x << 15)) ^ ((x >> 19) | (x << 13)) ^ (x >> 10)
  }

  function Upper0(x: bv32): (r: bv32)
    ensures r == BigSigma0(x)
  {
    ((x >> 2) | (x << 30)) ^ ((x >> 13) | (x << 19)) ^ ((x >> 22) | (x << 10))
  }

  function Upper1(x: bv32): (r: bv32)
    ensures r == BigSigma1(x)
  {
    ((x >> 6) | (x << 26)) ^ ((x >> 11) | (x << 21)) ^ ((x >> 25) | (x << 7))
  }

  class ComputeData {
    var data_size: nat                 // uint64_t
    const hcomps: array<bv32>
    const last_chunk: array<bv8>
    var chunk_size: nat                // uint8_t
    ghost var Message: Bytes           // everything fed in since initialisation
    ghost var Blocks: nat              // how many whole blocks of it hcomps covers

    ghost predicate Shaped()
    {
      hcomps.Length == 8 && last_chunk.Length == 64
    }

    /** The whole blocks of the message are folded into hcomps, the rest waits in last_chunk. */
    ghost predicate Valid()
      reads this, hcomps, last_chunk
    {
      Shaped()
      && chunk_size < 64 && |Message| == 64 * Blocks + chunk_size
      && data_size == |Message| % TWO_64
      && last_chunk[..chunk_size] == Message[64 * Blocks..]
      && hcomps[..] == HashBlocks(Message, Blocks)
    }

    constructor ()
      ensures Valid() && Message == [] && chunk_size < 64 && fresh(hcomps) && fresh(last_chunk)
    {
      hcomps := new bv32[] [
        0x6a09e667, 0xbb67ae85, 0x3c6ef372, 0xa54ff53a, 0x510e527f, 0x9b05688c, 0x1f83d9ab, 0x5be0cd19];
      last_chunk := new bv8[64];
      data_size, chunk_size := 0, 0;
      Message, Blocks := [], 0;
      new;
      assert hcomps[..] == INITIAL;
    }

    method CalculateChunk(chunk: Bytes)
      requires Shaped() && |chunk| == 64
      modifies hcomps
      ensures hcomps[..] == Compress(old(hcomps[..]), chunk)
    {
      hide Round, Sum, RoundConstant, Schedule;
      ghost var hv := hcomps[..];
      var w := MessageSchedule(chunk);
      var tv := new bv32[8];
      for i := 0 to 8
        modifies tv
        invariant forall j :: 0 <= j < i ==> tv[j] == hcomps[j]
      {
        tv[i] := hcomps[i];
      }
      for i := 0 to 64
        modifies tv
        invariant FromArray(tv) == Rounds(hv, chunk, i)
      {
        CompressRound(tv, w, i);
        assert Rounds(hv, chunk, i + 1) == Round(Rounds(hv, chunk, i), RoundConstant(i), Schedule(chunk, i));
      }
      assert hcomps[..] == hv;
      AddInto(hcomps, tv);
    }

    /** sha256_calculate_chunk on the next block of the message all. */
    method AbsorbBlock(chunk: Block, ghost all: Bytes, ghost rest: Bytes)
      requires Shaped() && 64 * Blocks <= |all| && all[64 * Blocks..] == chunk + rest
      requires hcomps[..] == HashBlocks(all, Blocks)
      modifies `Blocks, hcomps
      ensures Blocks == old(Blocks) + 1 && 64 * Blocks <= |all| && all[64 * Blocks..] == rest
      ensures hcomps[..] == HashBlocks(all, Blocks)
    {
      hide Compress, HashBlocks;
      CalculateChunk(chunk);
      NextBlock(all, Blocks, chunk, rest);
      Blocks := Blocks + 1;
    }

    /** The whole blocks so far of the message all are folded in; last_chunk and rest hold what follows. */
    ghost predicate Pending(all: Bytes, rest: Bytes)
      reads this, hcomps, last_chunk
    {
      Shaped() && chunk_size < 64 && 64 * Blocks <= |all|
      && all[64 * Blocks..] == last_chunk[..chunk_size] + rest
      && hcomps[..] == HashBlocks(all, Blocks)
    }

    /** Feeds in bytes; beyond the stated size the C sum size + chunk_size wraps around. */
    method Update(bytes: Bytes)
      requires Valid() && chunk_size + |bytes| < 0x1_0000_0000
      modifies this, hcomps, last_chunk
      ensures Valid() && Message == old(Message) + bytes && chunk_size < 64
    {
      hide Compress, HashBlocks;
      ghost var all := Message + bytes;
      AddSize(|Message|, |bytes|);
      HashBlocksPrefix(Message, all, Blocks);
      data_size := (data_size + |bytes|) % TWO_64;
      assert Pending(all, bytes);
      AbsorbAll(bytes, all);
      Message := all;
    }

    /** sha256_update after the byte count: whole blocks are folded in, the remainder is carried over. */
    method AbsorbAll(bytes: Bytes, ghost all: Bytes)
      requires Pending(all, bytes) && chunk_size + |bytes| < TWO_32
      modifies `chunk_size, `Blocks, hcomps, last_chunk
      ensures Pending(all, []) && |all| == 64 * Blocks + chunk_size
    {
      hide Compress, HashBlocks;
      var rest := bytes;               // the C pair (ptr, size)
      if (|rest| + chunk_size) % TWO_32 >= 64 {
        var tmp_chunk := last_chunk[..chunk_size] + rest[..64 - chunk_size];
        rest := rest[64 - chunk_size..];
        chunk_size := 0;
        assert all[64 * Blocks..] == tmp_chunk + rest;
        AbsorbBlock(tmp_chunk, all, rest);
        assert last_chunk[..chunk_size] + rest == rest;
      }
      while |rest| >= 64
        modifies `Blocks, hcomps
        invariant |rest| >= 64 ==> chunk_size == 0
        invariant |rest| < 64 ==> chunk_size + |rest| < 64
        invariant Pending(all, rest)
      {
        assert last_chunk[..chunk_size] + rest == rest == rest[..64] + rest[64..];
        AbsorbBlock(rest[..64], all, rest[64..]);
        rest := rest[64..];
        assert last_chunk[..chunk_size] + rest == rest;
      }
      ghost var carried := last_chunk[..chunk_size];
      CopyInto(last_chunk, chunk_size, rest);
      chunk_size := chunk_size + |rest|;
      assert last_chunk[..chunk_size] + [] == carried + rest;
    }

    /** The marker bit of the padding and zeros up to the end of the buffer. */
    method AppendMarker()
      requires Shaped() && chunk_size < 64
      modifies `chunk_size, last_chunk
      ensures chunk_size == old(chunk_size) + 1
      ensures last_chunk[..] == old(last_chunk[..chunk_size]) + [0x80] + Zeros(64 - chunk_size)
    {
      hide Zeros;
      CopyInto(last_chunk, chunk_size, [0x80]);
      chunk_size := chunk_size + 1;
      ClearFrom(last_chunk, chunk_size);
    }

    /** Pads what is left; afterwards hcomps is the digest and no more bytes may be fed in. */
    method Finalize()
      requires Valid()
      modifies this, hcomps, last_chunk
      ensures Message == old(Message) && Shaped() && hcomps[..] == Digest(Message)
    {
      hide Compress, HashBlocks, BigEndian, Zeros, Pad;
      ghost var tail := last_chunk[..chunk_size];
      ghost var length := BigEndian(8 * |Message|, 8);
      ghost var padded := Pad(Message);
      PaddedRest(Message, Blocks);
      AppendMarker();
      if chunk_size > 56 {
        AbsorbBlock(last_chunk[..], padded, Zeros(56) + length);
        ClearFrom(last_chunk, 0);
        ZerosSplit(64, 56);
      } else {
        MarkerPrefix(tail);
      }
      FinishPadding(padded);
    }

    /** The end of sha256_finalize: the message length goes into the last eight bytes of the last block. */
    method FinishPadding(ghost padded: Bytes)
      requires Shaped() && 64 * Blocks <= |padded| && data_size == |Message| % TWO_64
      requires padded[64 * Blocks..] == last_chunk[..56] + BigEndian(8 * |Message|, 8)
      requires hcomps[..] == HashBlocks(padded, Blocks)
      modifies `Blocks, hcomps, last_chunk
      ensures hcomps[..] == HashBlocks(padded, |padded| / 64)
    {
      hide Compress, HashBlocks, BigEndian, Pad;
      StoreLength(last_chunk, data_size * 8 % TWO_64);
      LengthWraps(|Message|);
      assert padded[64 * Blocks..] == last_chunk[..] + [];
      AbsorbBlock(last_chunk[..], padded, []);
      assert Blocks == |padded| / 64;
    }

    /** sha256_output */
    method Output(hash: array<bv8>)
      requires Shaped() && hash.Length == 32 && hash != last_chunk
      modifies hash
      ensures hash[..] == DigestBytes(hcomps[..])
    {
      hide WordByte;
      for i := 0 to 8
        invariant forall k :: 0 <= k < 4 * i ==> hash[k] == WordByte(hcomps[k / 4], k % 4)
      {
        StoreWord(hash, 4 * i, hcomps[i]);
        forall k | 4 * i <= k < 4 * i + 4
          ensures k / 4 == i && k % 4 == k - 4 * i
        {
        }
      }
    }

    /** sha256_output_hex */
    method OutputHex(hexbuf: array<bv8>)
      requires Shaped() && hexbuf.Length >= 64 && hexbuf != last_chunk
      modifies hexbuf
      ensures hexbuf[..64] == Hex(DigestBytes(hcomps[..]))
    {
      var hash := new bv8[32];
      Output(hash);
      BinToHex(hash, hexbuf);
    }
  }

  lemma NextBlock(all: Bytes, blocks: nat, block: Block, rest: Bytes)
    requires 64 * blocks <= |all| && all[64 * blocks..] == block + rest
    ensures 64 * (blocks + 1) <= |all| && all[64 * (blocks + 1)..] == rest
    ensures HashBlocks(all, blocks + 1) == Compress(HashBlocks(all, blocks), block)
  {
    hide Compress;
    var k := 64 * blocks;
    assert all[k..k + 64] == all[k..][..64] == block;
    assert all[k + 64..] == all[k..][64..] == rest;
  }

  /** memcpy(dst + at, src, |src|) */
  method CopyInto(dst: array<bv8>, at: nat, src: Bytes)
    requires at + |src| <= dst.Length
    modifies dst
    ensures dst[..at + |src|] == old(dst[..at]) + src
    ensures dst[at + |src|..] == old(dst[at + |src|..])
  {
    for i := 0 to |src|
      invariant dst[..at + i] == old(dst[..at]) + src[..i]
      invariant dst[at + i..] == old(dst[at + i..])
    {
      dst[at + i] := src[i];
    }
  }

  /** memset(dst + at, 0, dst.Length - at) */
  method ClearFrom(dst: array<bv8>, at: nat)
    requires at <= dst.Length
    modifies dst
    ensures dst[..] == old(dst[..at]) + Zeros(dst.Length - at)
  {
    for i := at to dst.Length
      invariant dst[..i] == old(dst[..at]) + Zeros(i - at)
    {
      dst[i] := 0;
    }
  }

  /** The length loop of sha256_finalize: size in the last eight bytes, most significant first. */
  method StoreLength(last_chunk: array<bv8>, length: nat)
    requires last_chunk.Length == 64
    modifies last_chunk
    ensures last_chunk[..] == old(last_chunk[..][..56]) + BigEndian(length, 8)
  {
    var i, size := 8, length;
    while i > 0
      invariant 0 <= i <= 8
      invariant last_chunk[..56 + i] == old(last_chunk[..56 + i])
      invariant BigEndian(length, 8) == BigEndian(size, i) + last_chunk[56 + i..]
    {
      last_chunk[55 + i] := (size % 256) as bv8;
      size := size / 256;
      i := i - 1;
    }
  }

  /** The 64-bit counter loses the same high bits that an eight-byte length field cannot hold. */
  lemma LengthWraps(n: nat)
    ensures BigEndian(n % TWO_64 * 8 % TWO_64, 8) == BigEndian(8 * n, 8)
  {
    hide BigEndian, Power256;
    var b := n % TWO_64 * 8;
    var k := 8 * (n / TWO_64) + b / TWO_64;
    assert 8 * n == b % TWO_64 + TWO_64 * k;
    Power256Of8();
    BigEndianTruncates(b % TWO_64, 8, k);
  }

  lemma Power256Of8()
    ensures Power256(8) == TWO_64
  {
    assert Power256(4) == TWO_32;
  }

  /** One iteration of the loop of sha256_output. */
  method StoreWord(hash: array<bv8>, at: nat, w: bv32)
    requires at + 4 <= hash.Length
    modifies hash
    ensures forall k :: at <= k < at + 4 ==> hash[k] == WordByte(w, k - at)
    ensures forall k :: 0 <= k < hash.Length && !(at <= k < at + 4) ==> hash[k] == old(hash[k])
  {
    hash[at] := ((w >> 24) & 255) as bv8;
    hash[at + 1] := ((w >> 16) & 255) as bv8;
    hash[at + 2] := ((w >> 8) & 255) as bv8;
    hash[at + 3] := (w & 255) as bv8;
  }

  /** bin_to_hex */
  method BinToHex(data: array<bv8>, out: array<bv8>)
    requires out != data && out.Length >= 2 * data.Length
    modifies out
    ensures out[..2 * data.Length] == Hex(data[..])
  {
    hide HighDigit, LowDigit;
    for i := 0 to data.Length
      invariant forall k :: 0 <= k < 2 * i ==>
        out[k] == if k % 2 == 0 then HighDigit(data[k / 2]) else LowDigit(data[k / 2])
    {
      var c := data[i];
      out[2 * i] := HighDigit(c);
      out[2 * i + 1] := LowDigit(c);
    }
  }

  /**
   * The streaming law: however a message is cut into pieces, feeding the pieces to
   * a fresh context and finishing it gives the hexadecimal digest of the whole message.
   */
  method HashPieces(pieces: seq<Bytes>) returns (hex: Hash)
    requires forall i :: 0 <= i < |pieces| ==> |pieces[i]| < TWO_32 - 63
    ensures hex == HashHex(Flatten(pieces))
  {
    hide Compress, HashBlocks, Pad;
    var data := new ComputeData();
    for i := 0 to |pieces|
      invariant data.Valid() && data.Message == Flatten(pieces[..i])
      invariant fresh(data) && fresh(data.hcomps) && fresh(data.last_chunk)
    {
      assert pieces[..i + 1][..i] == pieces[..i];
      data.Update(pieces[i]);
    }
    assert pieces[..|pieces|] == pieces;
    data.Finalize();
    var hexbuf := new bv8[64];
    data.OutputHex(hexbuf);
    hex := hexbuf[..];
  }

  /** What of the padded message is not folded in yet when all whole blocks of the message are. */
  lemma PaddedRest(m: Bytes, blocks: nat)
    requires 64 * blocks <= |m| < 64 * blocks + 64
    ensures var tail, length := m[64 * blocks..], BigEndian(8 * |m|, 8);
      64 * blocks <= |Pad(m)| && HashBlocks(Pad(m), blocks) == HashBlocks(m, blocks)
      && Pad(m)[64 * blocks..] == if |tail| < 56 then tail + [0x80] + Zeros(55 - |tail|) + length
                                  else (tail + [0x80] + Zeros(63 - |tail|)) + (Zeros(56) + length)
  {
    hide Compress, HashBlocks, BigEndian, Zeros, Pad;
    if |m| - 64 * blocks < 56 {
      PadOneBlock(m, blocks);
    } else {
      PadTwoBlocks(m, blocks);
    }
    assert Pad(m)[..64 * blocks] == m[..64 * blocks];
    HashBlocksPrefix(m, Pad(m), blocks);
  }

  lemma MarkerPrefix(tail: Bytes)
    requires |tail| < 56
    ensures (tail + [0x80] + Zeros(63 - |tail|))[..56] == tail + [0x80] + Zeros(55 - |tail|)
  {
    ZerosSplit(63 - |tail|, 55 - |tail|);
  }

  lemma AddSize(n: nat, size: nat)
    ensures (n % TWO_64 + size) % TWO_64 == (n + size) % TWO_64
  {
  }

  /** The program adds the terms of the schedule in the opposite order. */
  lemma Sum4Reverse(a: bv32, b: bv32, c: bv32, d: bv32)
    ensures Sum4(a, b, c, d) == Sum4(d, c, b, a)
  {
  }

  /** The last loop of sha256_calculate_chunk. */
  method AddInto(hcomps: array<bv32>, tv: array<bv32>)
    requires hcomps.Length == tv.Length == 8 && hcomps != tv
    modifies hcomps
    ensures hcomps[..] == Sum(FromArray(tv), old(hcomps[..]))
  {
    hide Add;
    for i := 0 to 8
      invariant forall j :: 0 <= j < i ==> hcomps[j] == Add(tv[j], old(hcomps[j]))
      invariant forall j :: i <= j < 8 ==> hcomps[j] == old(hcomps[j])
    {
      hcomps[i] := Add(tv[i], hcomps[i]);
    }
  }

  /** What the second schedule loop computes for word i from the words before it. */
  lemma ScheduleNext(chunk: Block, i: nat)
    requires 16 <= i < 64
    ensures Sum4(Schedule(chunk, i - 16), SmallSigma0(Schedule(chunk, i - 15)), Schedule(chunk, i - 7),
                 SmallSigma1(Schedule(chunk, i - 2))) == Schedule(chunk, i)
  {
    hide Sum4, SmallSigma0, SmallSigma1, BlockWord;
    Sum4Reverse(Schedule(chunk, i - 16), SmallSigma0(Schedule(chunk, i - 15)), Schedule(chunk, i - 7),
                SmallSigma1(Schedule(chunk, i - 2)));
  }

  lemma ScheduleFirst(chunk: Block, i: nat)
    requires i < 16
    ensures JoinBytes(chunk[4 * i], chunk[4 * i + 1], chunk[4 * i + 2], chunk[4 * i + 3]) == Schedule(chunk, i)
  {
    hide JoinBytes;
  }

  /** The first two loops of sha256_calculate_chunk. */
  method MessageSchedule(chunk: Bytes) returns (w: array<bv32>)
    requires |chunk| == 64
    ensures fresh(w) && w.Length == 64
    ensures forall j :: 0 <= j < 64 ==> w[j] == Schedule(chunk, j)
  {
    hide Sum4, Lower0, Lower1, JoinBytes, Schedule;
    w := new bv32[64];
    for i := 0 to 16
      invariant forall j :: 0 <= j < i ==> w[j] == Schedule(chunk, j)
    {
      ScheduleFirst(chunk, i);
      w[i] := JoinBytes(chunk[4 * i], chunk[4 * i + 1], chunk[4 * i + 2], chunk[4 * i + 3]);
    }
    for i := 16 to 64
      invariant forall j :: 0 <= j < i ==> w[j] == Schedule(chunk, j)
    {
      ScheduleNext(chunk, i);
      var s0 := Lower0(w[i - 15]);
      var s1 := Lower1(w[i - 2]);
      w[i] := Sum4(w[i - 16], s0, w[i - 7], s1);
    }
  }

  /** The working variables held in the array tv. */
  function FromArray(tv: array<bv32>): Vars
    requires tv.Length == 8
    reads tv
  {
    Vars(tv[0], tv[1], tv[2], tv[3], tv[4], tv[5], tv[6], tv[7])
  }

  /** One iteration of the round loop of sha256_calculate_chunk. */
  method CompressRound(tv: array<bv32>, w: array<bv32>, i: nat)
    requires tv.Length == 8 && w.Length == 64 && i < 64 && tv != w
    modifies tv
    ensures FromArray(tv) == Round(old(FromArray(tv)), RoundConstant(i), w[i])
  {
    hide Add, Lower0, Lower1, Upper0, Upper1, RoundConstant, Ch, Maj;
    var S1 := Upper1(tv[4]);
    var ch := Ch(tv[4], tv[5], tv[6]);
    var temp1 := Add(Add(Add(Add(tv[7], S1), ch), RoundConstant(i)), w[i]);
    var S0 := Upper0(tv[0]);
    var maj := Maj(tv[0], tv[1], tv[2]);
    var temp2 := Add(S0, maj);
    tv[7] := tv[6];
    tv[6] := tv[5];
    tv[5] := tv[4];
    tv[4] := Add(tv[3], temp1);
    tv[3] := tv[2];
    tv[2] := tv[1];
    tv[1] := tv[0];
    tv[0] := Add(temp1, temp2);
  }
}
