/** An independent statement of CCM encryption as section 2 of RFC 3610
    defines it, for M = 8, L = 2 and no additional authenticated data, with
    the YubiHSM's choice of the 13-byte nonce N; and the proof that the soft
    HSM's seal computes exactly that. */
module Rfc3610 {
  import opened Bytes
  import opened Errors
  import Ccm
  import Util
  import Defines

  /** N: 15 - L = 13 bytes, here the key handle, the AEAD nonce, three zeros. */
  function CcmNonce(kh: uint32, nonce: seq<byte>): (n: seq<byte>)
    requires |nonce| == Defines.AeadNonceSize
    ensures |n| == 13
  {
    LE32(kh) + nonce + [0, 0, 0]
  }

  /** B_0 (section 2.2): Flags = 64*Adata + 8*M' + L' = 0 + 8*3 + 1, then N,
      then l(m) in L = 2 bytes. */
  function B0(kh: uint32, nonce: seq<byte>, len: uint16): Ccm.Block
    requires |nonce| == Defines.AeadNonceSize
  {
    [0x19] + CcmNonce(kh, nonce) + BE16(len)
  }

  /** A_i (section 2.3): Flags = L' = 1, then N, then i in L = 2 bytes. */
  function A(kh: uint32, nonce: seq<byte>, i: uint16): Ccm.Block
    requires |nonce| == Defines.AeadNonceSize
  {
    [0x01] + CcmNonce(kh, nonce) + BE16(i)
  }

  /** B_1 .. B_n: the message cut into 16-octet blocks, the last one padded
      with zeros. */
  function AuthBlocks(m: seq<byte>): (r: seq<Ccm.Block>) {
    var g := Util.Group(m, 16);
    seq(|g|, i requires 0 <= i < |g| => PadRight(g[i], 16))
  }

  /** X_{i+1} := E(K, X_i XOR B_i). */
  function CbcMac(E: Ccm.Cipher, key: seq<byte>, x: Ccm.Block, blocks: seq<Ccm.Block>): Ccm.Block
    decreases |blocks|
  {
    if |blocks| == 0 then x else CbcMac(E, key, E(key, Xor(x, blocks[0])), blocks[1..])
  }

  /** T := first-M-bytes(X_{n+1}), with X_1 := E(K, B_0). */
  function T(E: Ccm.Cipher, key: seq<byte>, kh: uint32, nonce: seq<byte>, m: seq<byte>): seq<byte>
    requires |nonce| == Defines.AeadNonceSize && |m| <= 0xffff
  {
    CbcMac(E, key, E(key, B0(kh, nonce, |m|)), AuthBlocks(m))[..8]
  }

  /** S_i := E(K, A_i). */
  function S(E: Ccm.Cipher, key: seq<byte>, kh: uint32, nonce: seq<byte>, i: uint16): Ccm.Block
    requires |nonce| == Defines.AeadNonceSize
  {
    E(key, A(kh, nonce, i))
  }

  function SFun(E: Ccm.Cipher, key: seq<byte>, kh: uint32, nonce: seq<byte>): uint16 -> Ccm.Block
    requires |nonce| == Defines.AeadNonceSize
  {
    (i: uint16) => S(E, key, kh, nonce, i)
  }

  /** sf(1) || sf(2) || ... || sf(k): with sf = S, the keystream S of
      section 2.3. */
  function Blocks(sf: uint16 -> Ccm.Block, k: nat): (s: seq<byte>)
    requires k <= 0xffff
    ensures |s| == 16 * k
  {
    if k == 0 then [] else Blocks(sf, k - 1) + sf(k)
  }

  /** The encrypted message: (m XOR first-l(m)-bytes(S)) || U, where
      U := T XOR first-M-bytes(S_0). */
  function Encrypt(E: Ccm.Cipher, key: seq<byte>, kh: uint32, nonce: seq<byte>, m: seq<byte>): seq<byte>
    requires |nonce| == Defines.AeadNonceSize && |m| <= 0xffff
  {
    var k := (|m| + 15) / 16;
    Xor(m, Blocks(SFun(E, key, kh, nonce), k)) + Xor(T(E, key, kh, nonce, m), S(E, key, kh, nonce, 0)[..8])
  }

  // ---- the soft HSM computes RFC 3610 ------------------------------------

  lemma CounterBlocksAreRfcBlocks(kh: uint32, nonce: seq<byte>, v: uint16)
    requires |nonce| == Defines.AeadNonceSize
    ensures Ccm.CounterBlock(Ccm.MacFlags, kh, nonce, v) == B0(kh, nonce, v)
    ensures Ccm.CounterBlock(Ccm.CtrFlags, kh, nonce, v) == A(kh, nonce, v)
  {
  }

  lemma {:induction false} BlocksAt(sf: uint16 -> Ccm.Block, k: nat, q: nat, o: nat)
    requires k <= 0xffff
    requires q < k && o < 16
    ensures Blocks(sf, k)[16 * q + o] == sf(q + 1)[o]
  {
    if q < k - 1 {
      BlocksAt(sf, k - 1, q, o);
    }
  }

  lemma {:induction false} MacBlocksIsCbcMac(E: Ccm.Cipher, key: seq<byte>, x: Ccm.Block, m: seq<byte>)
    ensures Ccm.MacBlocks(E, key, x, m) == CbcMac(E, key, x, AuthBlocks(m))
    decreases |m|
  {
    var blocks := AuthBlocks(m);
    if |m| == 0 {
    } else if |m| <= 16 {
      assert Util.Group(m, 16) == [m];
      assert blocks == [PadRight(m, 16)];
    } else {
      var g := Util.Group(m, 16);
      assert g == [m[..16]] + Util.Group(m[16..], 16);
      assert blocks[0] == PadRight(m[..16], 16);
      assert blocks[1..] == AuthBlocks(m[16..]);
      MacBlocksIsCbcMac(E, key, E(key, Xor(x, blocks[0])), m[16..]);
    }
  }

  /** CTR over a keystream is m XOR the concatenation of its blocks from 1 on. */
  lemma CtrIsXorBlocks(ks: uint16 -> Ccm.Block, sf: uint16 -> Ccm.Block, m: seq<byte>)
    requires |m| <= 0xffff
    requires forall i: uint16 :: ks(i) == sf(i)
    ensures Ccm.Ctr(ks, m, 1) == Xor(m, Blocks(sf, (|m| + 15) / 16))
  {
    var k := (|m| + 15) / 16;
    var c := Ccm.Ctr(ks, m, 1);
    var x := Xor(m, Blocks(sf, k));
    assert 16 * k >= |m|;
    assert |x| == |m| == |c|;
    forall j | 0 <= j < |m| ensures c[j] == x[j] {
      CtrByteIsXorBlocksByte(ks, sf, m, j);
    }
  }

  lemma CtrByteIsXorBlocksByte(ks: uint16 -> Ccm.Block, sf: uint16 -> Ccm.Block, m: seq<byte>, j: nat)
    requires |m| <= 0xffff && j < |m|
    requires forall i: uint16 :: ks(i) == sf(i)
    ensures Ccm.Ctr(ks, m, 1)[j] == m[j] ^ Blocks(sf, (|m| + 15) / 16)[j]
  {
    var k := (|m| + 15) / 16;
    var q, o := j / 16, j % 16;
    assert j == 16 * q + o;
    assert q < k;
    Ccm.CtrAt(ks, m, 1, q, o);
    BlocksAt(sf, k, q, o);
    assert ks(1 + q) == sf(q + 1);
  }

  /** The soft HSM's keystream blocks are the S_i of the RFC. */
  lemma KeystreamIsS(E: Ccm.Cipher, key: seq<byte>, kh: uint32, nonce: seq<byte>)
    requires |nonce| == Defines.AeadNonceSize
    ensures forall i: uint16 :: Ccm.Keystream(E, key, kh, nonce)(i) == SFun(E, key, kh, nonce)(i)
  {
    forall i: uint16 ensures Ccm.Keystream(E, key, kh, nonce)(i) == SFun(E, key, kh, nonce)(i) {
      CounterBlocksAreRfcBlocks(kh, nonce, i);
    }
  }

  /** The ciphertext part of a seal is m XOR the RFC keystream. */
  lemma CtrIsRfcEncryption(E: Ccm.Cipher, key: seq<byte>, kh: uint32, nonce: seq<byte>, m: seq<byte>)
    requires |nonce| == Defines.AeadNonceSize && |m| <= 0xffff
    ensures Ccm.Ctr(Ccm.Keystream(E, key, kh, nonce), m, 1) == Xor(m, Blocks(SFun(E, key, kh, nonce), (|m| + 15) / 16))
  {
    KeystreamIsS(E, key, kh, nonce);
    CtrIsXorBlocks(Ccm.Keystream(E, key, kh, nonce), SFun(E, key, kh, nonce), m);
  }

  lemma TagIsRfcTag(E: Ccm.Cipher, key: seq<byte>, kh: uint32, nonce: seq<byte>, m: seq<byte>)
    requires |nonce| == Defines.AeadNonceSize && |m| <= 0xffff
    ensures Ccm.Tag(E, key, kh, nonce, m) == Xor(T(E, key, kh, nonce, m), S(E, key, kh, nonce, 0)[..8])
  {
    CounterBlocksAreRfcBlocks(kh, nonce, |m|);
    CounterBlocksAreRfcBlocks(kh, nonce, 0);
    MacBlocksIsCbcMac(E, key, E(key, B0(kh, nonce, |m|)), m);
  }

  /** With arguments aesCCM accepts, sealing is RFC 3610 CCM encryption
      under the zero-padded nonce. */
  lemma SealIsRfc3610(E: Ccm.Cipher, key: seq<byte>, kh: int, nonce: seq<byte>, m: seq<byte>)
    requires Ccm.ArgsOk(key, kh, nonce, |m|)
    ensures Ccm.AesCcm(E, key, kh, nonce, m, false)
      == Success(Encrypt(E, key, kh, PadRight(nonce, Defines.AeadNonceSize), m))
  {
    var n6 := PadRight(nonce, Defines.AeadNonceSize);
    CtrIsRfcEncryption(E, key, kh, n6, m);
    TagIsRfcTag(E, key, kh, n6, m);
  }
}
