/**
 The per-frame encryption of Cast streaming (optional/cast/CastTransport.cpp): the nonce derived from
 the frame id, AES-128 in counter mode over an uninterpreted block cipher, and the disjointness of the
 counter blocks that different frames use (section 6.5 and Appendix B of NIST SP 800-38A).
 */
module CastCrypto {
  import opened Bytes
  import opened Arith

  /** A keyed block cipher: byte `k` of the encryption of the 128-bit counter block `c`. */
  type BlockCipher = (nat, nat) -> byte

  const TWO_96 := 0x1_0000_0000_0000_0000_0000_0000
  const TWO_128 := 0x1_0000_0000_0000_0000_0000_0000_0000_0000
  const BLOCK_BYTES := 16
  const MAX_FRAME_BYTES := 0x10_0000_0000 // 2^32 blocks

  // ------------------------------------------------------------------ nonce

  /** The frame id, big-endian, in bytes 8..11 of an otherwise zero block. */
  function IdBlock(frameId: uint32): (s: bytes)
    ensures |s| == 16
  {
    [0, 0, 0, 0, 0, 0, 0, 0] + BE32(frameId) + [0, 0, 0, 0]
  }

  function XorBlocks(a: bytes, b: bytes): (s: bytes)
    requires |a| == |b|
    ensures |s| == |a|
  {
    seq(|a|, i requires 0 <= i < |a| => Xor8(a[i], b[i]))
  }

  function Nonce(frameId: uint32, ivMask: bytes): (s: bytes)
    requires |ivMask| == 16
    ensures |s| == 16
  {
    XorBlocks(ivMask, IdBlock(frameId))
  }

  method CastNonce(frameId: uint32, ivMask: bytes, out: array<byte>)
    requires |ivMask| == 16 && out.Length == 16
    modifies out
    ensures out[..] == Nonce(frameId, ivMask)
  {
    forall i | 0 <= i < 16 {
      out[i] := ivMask[i];
    }
    var off := 8;
    out[off] := Xor8(out[off], frameId / 0x100_0000);
    out[off + 1] := Xor8(out[off + 1], frameId / 0x1_0000 % 0x100);
    out[off + 2] := Xor8(out[off + 2], frameId / 0x100 % 0x100);
    out[off + 3] := Xor8(out[off + 3], frameId % 0x100);
    IdBytes(frameId);
    forall i | 0 <= i < 16
      ensures out[i] == Nonce(frameId, ivMask)[i]
    {
      XorZero(ivMask[i]);
    }
  }

  lemma IdBytes(frameId: uint32)
    ensures BE32(frameId) == [frameId / 0x100_0000, frameId / 0x1_0000 % 0x100, frameId / 0x100 % 0x100,
            frameId % 0x100]
  {
    var hi, lo := frameId / 0x1_0000, frameId % 0x1_0000;
    var a, b, c, d := hi / 0x100, hi % 0x100, lo / 0x100, lo % 0x100;
    assert frameId == 0x100_0000 * a + 0x1_0000 * b + 0x100 * c + d;
    Quotient(frameId, 0x100_0000, a, 0x1_0000 * b + 0x100 * c + d);
    Quotient(frameId, 0x1_0000, 0x100 * a + b, 0x100 * c + d);
    Quotient(0x100 * a + b, 0x100, a, b);
    Quotient(frameId, 0x100, 0x1_0000 * a + 0x100 * b + c, d);
    Quotient(0x1_0000 * a + 0x100 * b + c, 0x100, 0x100 * a + b, c);
  }

  lemma XorZero(a: byte)
    ensures Xor8(a, 0) == a
  {
    XorZeroAny(a);
  }

  lemma {:induction false} XorZeroAny(a: nat)
    ensures Xor(a, 0) == a
  {
    if a != 0 {
      XorZeroAny(a / 2);
    }
  }

  /** The nonce as the initial 128-bit counter, most significant word first. */
  function CounterStart(frameId: uint32, ivMask: bytes): nat
    requires |ivMask| == 16
  {
    var n := Nonce(frameId, ivMask);
    GetBE32(n, 0) as int * TWO_96 + GetBE32(n, 4) as int * TWO_64 + GetBE32(n, 8) as int * TWO_32
        + GetBE32(n, 12) as int
  }

  function CounterBlock(frameId: uint32, ivMask: bytes, j: nat): nat
    requires |ivMask| == 16
  {
    (CounterStart(frameId, ivMask) + j) % TWO_128
  }

  /** Only the third word depends on the frame id, and it determines the frame id. */
  lemma NonceWords(f: uint32, g: uint32, ivMask: bytes)
    requires |ivMask| == 16
    ensures var a, b := Nonce(f, ivMask), Nonce(g, ivMask);
            && GetBE32(a, 0) == GetBE32(b, 0) && GetBE32(a, 4) == GetBE32(b, 4) && GetBE32(a, 12) == GetBE32(b, 12)
            && (GetBE32(a, 8) == GetBE32(b, 8) <==> f == g)
  {
    hide Xor8, BE32;
    var a, b := Nonce(f, ivMask), Nonce(g, ivMask);
    assert forall i :: 0 <= i < 8 || 12 <= i < 16 ==> a[i] == b[i];
    if GetBE32(a, 8) == GetBE32(b, 8) {
      WriteBE32(a, 8);
      WriteBE32(b, 8);
      forall i | 0 <= i < 4
        ensures BE32(f)[i] == BE32(g)[i]
      {
        assert a[8 + i] == a[8..12][i] && b[8 + i] == b[8..12][i];
        assert IdBlock(f)[8 + i] == BE32(f)[i] && IdBlock(g)[8 + i] == BE32(g)[i];
        Xor8Injective(BE32(f)[i], BE32(g)[i], ivMask[8 + i]);
        XorSwaps(BE32(f)[i], ivMask[8 + i]);
        XorSwaps(BE32(g)[i], ivMask[8 + i]);
      }
      assert BE32(f) == BE32(g);
      ReadBE32(f, BE32(f), 0);
      ReadBE32(g, BE32(g), 0);
    }
  }

  lemma XorSwaps(a: byte, b: byte)
    ensures Xor8(a, b) == Xor8(b, a)
  {
    XorSwapsAny(a, b);
  }

  lemma {:induction false} XorSwapsAny(a: nat, b: nat)
    ensures Xor(a, b) == Xor(b, a)
  {
    if a != 0 || b != 0 {
      XorSwapsAny(a / 2, b / 2);
    }
  }

  /**
   No counter block is used twice: within 2^32 blocks of each start, two frames' blocks coincide only
   for the same frame id and the same index, however the addition wraps.
   */
  lemma CounterBlocksDisjoint(f: uint32, g: uint32, ivMask: bytes, j: uint32, k: uint32)
    requires |ivMask| == 16
    ensures CounterBlock(f, ivMask, j) == CounterBlock(g, ivMask, k) <==> f == g && j == k
  {
    hide Nonce, GetBE32;
    NonceWords(f, g, ivMask);
    var d := (GetBE32(Nonce(f, ivMask), 8) as int - GetBE32(Nonce(g, ivMask), 8) as int) * TWO_32 + (j - k);
    assert CounterStart(f, ivMask) + j == CounterStart(g, ivMask) + k + d;
    CongruentAndClose(CounterStart(f, ivMask) + j, CounterStart(g, ivMask) + k, TWO_128);
  }

  // ------------------------------------------------------------------ counter mode

  function Ctr(cipher: BlockCipher, frameId: uint32, ivMask: bytes, data: bytes): (r: bytes)
    requires |ivMask| == 16
    ensures |r| == |data|
  {
    seq<byte>(|data|, p requires 0 <= p < |data| =>
      Xor8(data[p], cipher(CounterBlock(frameId, ivMask, p / BLOCK_BYTES), p % BLOCK_BYTES)))
  }

  function Encrypt(cipher: BlockCipher, ivMask: bytes, frameId: uint32, plain: bytes): (r: bytes)
    requires |ivMask| == 16
    ensures |r| == |plain|
  {
    Ctr(cipher, frameId, ivMask, plain)
  }

  /** Decryption is the same transform. */
  function Decrypt(cipher: BlockCipher, ivMask: bytes, frameId: uint32, text: bytes): (r: bytes)
    requires |ivMask| == 16
    ensures |r| == |text|
  {
    Encrypt(cipher, ivMask, frameId, text)
  }

  /** The mask with the frame id's four octets, most significant first, XORed into octets 8 to 11. */
  function Masked(frameId: uint32, ivMask: bytes): bytes
    requires |ivMask| == 16
  {
    ivMask[8 := Xor8(ivMask[8], frameId / 0x100_0000)][9 := Xor8(ivMask[9], frameId / 0x1_0000 % 0x100)]
    [10 := Xor8(ivMask[10], frameId / 0x100 % 0x100)][11 := Xor8(ivMask[11], frameId % 0x100)]
  }

  lemma NonceIsMasked(frameId: uint32, ivMask: bytes)
    requires |ivMask| == 16
    ensures Nonce(frameId, ivMask) == Masked(frameId, ivMask)
  {
    hide Xor8;
    IdBytes(frameId);
    forall i | 0 <= i < 16 ensures Nonce(frameId, ivMask)[i] == Masked(frameId, ivMask)[i] {
      XorZero(ivMask[i]);
    }
  }

  lemma StartIsSpelled(frameId: uint32, ivMask: bytes)
    requires |ivMask| == 16
    ensures CounterStart(frameId, ivMask) == Spelled(Masked(frameId, ivMask))
  {
    hide GetBE32, Nonce, Masked;
    NonceIsMasked(frameId, ivMask);
    var n := Nonce(frameId, ivMask);
    SpelledWord([], n[..4]);
    SpelledWord(n[..4], n[4..8]);
    SpelledWord(n[..8], n[8..12]);
    SpelledWord(n[..12], n[12..16]);
    assert [] + n[..4] == n[..4] && n[..4] + n[4..8] == n[..8] && n[..8] + n[8..12] == n[..12]
           && n[..12] + n[12..16] == n;
    assert Spelled([]) == 0;
    GetInSlice(n, 0, 4, 0);
    GetInSlice(n, 4, 8, 0);
    GetInSlice(n, 8, 12, 0);
    GetInSlice(n, 12, 16, 0);
    assert n[0..4] == n[..4];
  }

  /**
   The keystream of a frame: byte `p` is XORed with octet p mod 16 of the cipher's output on the number that the
   mask spells, with the frame id's octets XORed into its octets 8 to 11, plus the number of whole blocks before
   `p`, mod 2^128.
   */
  lemma KeystreamIs(cipher: BlockCipher, ivMask: bytes, id: uint32, plain: bytes, p: nat)
    requires |ivMask| == 16 && p < |plain|
    ensures var masked := ivMask[8 := Xor8(ivMask[8], id / 0x100_0000)][9 := Xor8(ivMask[9], id / 0x1_0000 % 0x100)]
                          [10 := Xor8(ivMask[10], id / 0x100 % 0x100)][11 := Xor8(ivMask[11], id % 0x100)];
            var block := (Spelled(masked) + p / 16) % 0x1_0000_0000_0000_0000_0000_0000_0000_0000;
            Encrypt(cipher, ivMask, id, plain)[p] == Xor8(plain[p], cipher(block, p % 16))
  {
    hide Xor8, CounterBlock, Encrypt;
    EncryptAt(cipher, ivMask, id, plain, p);
    BlockIs(ivMask, id, p / 16);
  }

  lemma EncryptAt(cipher: BlockCipher, ivMask: bytes, id: uint32, plain: bytes, p: nat)
    requires |ivMask| == 16 && p < |plain|
    ensures Encrypt(cipher, ivMask, id, plain)[p] == Xor8(plain[p], cipher(CounterBlock(id, ivMask, p / 16), p % 16))
  {
    hide Xor8, CounterBlock;
  }

  lemma BlockIs(ivMask: bytes, id: uint32, j: nat)
    requires |ivMask| == 16
    ensures CounterBlock(id, ivMask, j)
         == (Spelled(Masked(id, ivMask)) + j) % 0x1_0000_0000_0000_0000_0000_0000_0000_0000
  {
    hide CounterStart, Masked;
    StartIsSpelled(id, ivMask);
  }

  /**
   Two bytes of two frames, of any length, are encrypted with the same keystream byte under every cipher if and only
   if their octets in the block agree and their block numbers do, mod 2^128.
   */
  lemma KeystreamCoincides(ivMask: bytes, f: uint32, g: uint32, a: bytes, b: bytes, p: nat, q: nat)
    requires |ivMask| == 16 && p < |a| && q < |b|
    ensures (forall c: BlockCipher :: Xor8(Encrypt(c, ivMask, f, a)[p], a[p])
                                   == Xor8(Encrypt(c, ivMask, g, b)[q], b[q]))
       <==> && p % 16 == q % 16
            && (Spelled(Masked(f, ivMask)) + p / 16) % 0x1_0000_0000_0000_0000_0000_0000_0000_0000
               == (Spelled(Masked(g, ivMask)) + q / 16) % 0x1_0000_0000_0000_0000_0000_0000_0000_0000
  {
    hide Xor8, CounterBlock, Encrypt, Masked, Spelled;
    var x, y := CounterBlock(f, ivMask, p / 16), CounterBlock(g, ivMask, q / 16);
    BlockIs(ivMask, f, p / 16);
    BlockIs(ivMask, g, q / 16);
    forall c: BlockCipher
      ensures Xor8(Encrypt(c, ivMask, f, a)[p], a[p]) == c(x, p % 16)
      ensures Xor8(Encrypt(c, ivMask, g, b)[q], b[q]) == c(y, q % 16)
    {
      KeystreamByte(c, ivMask, f, a, p);
      KeystreamByte(c, ivMask, g, b, q);
    }
    if !(x == y && p % 16 == q % 16) {
      var probe: BlockCipher := (block: nat, k: nat) => if block == x && k == p % 16 then 1 else 0;
      assert probe(x, p % 16) != probe(y, q % 16);
    }
  }

  /** For two bytes of two frames of a run, each of at most 2^36 bytes: if and only if id and offset agree. */
  lemma KeystreamBytesDiffer(ivMask: bytes, n: nat, m: nat, a: bytes, b: bytes, p: nat, q: nat)
    requires |ivMask| == 16 && p < |a| && q < |b| && p < MAX_FRAME_BYTES && q < MAX_FRAME_BYTES
    ensures (forall c: BlockCipher :: Xor8(Encrypt(c, ivMask, n % TWO_32, a)[p], a[p])
                                   == Xor8(Encrypt(c, ivMask, m % TWO_32, b)[q], b[q]))
       <==> n % TWO_32 == m % TWO_32 && p == q
  {
    hide Xor8, CounterBlock, Encrypt, Masked, Spelled;
    KeystreamNeverReused(ivMask, n, m, p, q);
    KeystreamCoincides(ivMask, n % TWO_32, m % TWO_32, a, b, p, q);
    BlockIs(ivMask, n % TWO_32, p / 16);
    BlockIs(ivMask, m % TWO_32, q / 16);
  }

  lemma KeystreamByte(cipher: BlockCipher, ivMask: bytes, frameId: uint32, plain: bytes, p: nat)
    requires |ivMask| == 16 && p < |plain|
    ensures Xor8(Encrypt(cipher, ivMask, frameId, plain)[p], plain[p])
         == cipher(CounterBlock(frameId, ivMask, p / BLOCK_BYTES), p % 16)
  {
    hide Xor8, CounterBlock, Encrypt;
    EncryptAt(cipher, ivMask, frameId, plain, p);
    var k := cipher(CounterBlock(frameId, ivMask, p / BLOCK_BYTES), p % 16);
    XorSwaps(plain[p], k);
    Xor8Involution(k, plain[p]);
  }

  /** A longer frame runs into the next frame's blocks: byte 2^36 of frame 0 and byte 0 of frame 1, say. */
  lemma LongFramesReuse(cipher: BlockCipher, a: bytes, b: bytes)
    requires |a| > 0x10_0000_0000 && b != []
    ensures var z: bytes := [0, 0, 0, 0, 0, 0, 0, 0, 0, 0, 0, 0, 0, 0, 0, 0];
            Xor8(Encrypt(cipher, z, 0, a)[0x10_0000_0000], a[0x10_0000_0000]) == Xor8(Encrypt(cipher, z, 1, b)[0], b[0])
  {
    hide Xor8, CounterBlock, Encrypt, Masked, Spelled;
    var z: bytes := [0, 0, 0, 0, 0, 0, 0, 0, 0, 0, 0, 0, 0, 0, 0, 0];
    KeystreamByte(cipher, z, 0, a, 0x10_0000_0000);
    KeystreamByte(cipher, z, 1, b, 0);
    BlockIs(z, 0, 0x1_0000_0000);
    BlockIs(z, 1, 0);
    MaskedZeros();
  }

  lemma MaskedZeros()
    ensures var z: bytes := [0, 0, 0, 0, 0, 0, 0, 0, 0, 0, 0, 0, 0, 0, 0, 0];
            Spelled(Masked(0, z)) == 0 && Spelled(Masked(1, z)) == 0x1_0000_0000
  {
    hide Xor8, Spelled;
    XorZero(0);
    XorSwaps(0, 1);
    XorZero(1);
    ZerosSpelled();
    var z: bytes := [0, 0, 0, 0];
    var all := z + z + z + z;
    assert all == [0, 0, 0, 0, 0, 0, 0, 0, 0, 0, 0, 0, 0, 0, 0, 0];
    assert Masked(0, all) == all;
    assert Masked(1, all) == z + z + [0, 0, 0, 1] + z;
  }

  lemma ZerosSpelled()
    ensures var z: bytes := [0, 0, 0, 0];
            Spelled(z + z + z + z) == 0 && Spelled(z + z + [0, 0, 0, 1] + z) == 0x1_0000_0000
  {
    hide Spelled;
    var z: bytes, one: bytes := [0, 0, 0, 0], [0, 0, 0, 1];
    NothingSpelled();
    assert [] + z == z;
    SpelledWord([], z);
    SpelledWord(z, z);
    SpelledWord(z + z, z);
    SpelledWord(z + z, one);
    SpelledWord(z + z + z, z);
    SpelledWord(z + z + one, z);
  }

  lemma NothingSpelled()
    ensures Spelled([]) == 0
  {
  }

  lemma DecryptInvertsEncrypt(cipher: BlockCipher, ivMask: bytes, frameId: uint32, plain: bytes)
    requires |ivMask| == 16
    ensures Decrypt(cipher, ivMask, frameId, Encrypt(cipher, ivMask, frameId, plain)) == plain
  {
    hide Xor8, CounterBlock;
    var e := Encrypt(cipher, ivMask, frameId, plain);
    forall p | 0 <= p < |plain|
      ensures Decrypt(cipher, ivMask, frameId, e)[p] == plain[p]
    {
      Xor8Involution(plain[p], cipher(CounterBlock(frameId, ivMask, p / BLOCK_BYTES), p % BLOCK_BYTES));
    }
  }

  /**
   Over a whole run the n-th frame is encrypted under id n mod 2^32. Two bytes of two frames of at most
   2^36 bytes share their keystream position exactly when the frame ids coincide, that is, when the
   frames are a multiple of 2^32 apart, and the bytes have the same offset.
   */
  lemma KeystreamNeverReused(ivMask: bytes, n: nat, m: nat, p: nat, q: nat)
    requires |ivMask| == 16
    requires p < MAX_FRAME_BYTES && q < MAX_FRAME_BYTES
    ensures && CounterBlock(n % TWO_32, ivMask, p / BLOCK_BYTES) == CounterBlock(m % TWO_32, ivMask, q / BLOCK_BYTES)
            && p % BLOCK_BYTES == q % BLOCK_BYTES
            <==> n % TWO_32 == m % TWO_32 && p == q
    ensures -TWO_32 < n - m < TWO_32 ==> (n % TWO_32 == m % TWO_32 <==> n == m)
  {
    hide CounterBlock;
    CounterBlocksDisjoint(n % TWO_32, m % TWO_32, ivMask, p / BLOCK_BYTES, q / BLOCK_BYTES);
  }
}
