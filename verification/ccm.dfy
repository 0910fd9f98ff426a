/** The YubiHSM flavour of AES-CCM that the soft HSM computes: an 8-byte
    CBC-MAC tag over the plaintext and CTR encryption, with no associated
    data, a 2-byte length field, and a 13-byte CCM nonce made of the key
    handle, the 6-byte AEAD nonce and three zero bytes. AES is a parameter. */
module Ccm {
  import opened Bytes
  import opened Errors
  import Defines
  import Util

  type Block = s: seq<byte> | |s| == 16 witness [0, 0, 0, 0, 0, 0, 0, 0, 0, 0, 0, 0, 0, 0, 0, 0]

  /** AES encryption of one block under a key: a foreign primitive. */
  type Cipher = (seq<byte>, Block) -> Block

  /** The flags of a counter block: L - 1 with a 2-byte counter field. */
  const CtrFlags: byte := ByteOf(Defines.CcmCtrSize - 1)

  /** The flags of the first MAC block: (M - 2) / 2 in bits 3..5, L - 1 below. */
  const MacFlags: byte := ByteOf(((Defines.AeadMacSize - 2) / 2) * 8 + (Defines.CcmCtrSize - 1))

  /** The aesCtr struct: flags, key handle (little-endian), the 6-byte nonce,
      three reserved zero bytes, and the counter value (big-endian). */
  function CounterBlock(flags: byte, kh: uint32, nonce: seq<byte>, value: uint16): (b: Block)
    requires |nonce| == Defines.AeadNonceSize
    ensures b[0] == flags
    ensures b[1..5] == LE32(kh)
    ensures b[5..11] == nonce
    ensures b[11..14] == [0, 0, 0]
    ensures b[14..] == BE16(value)
  {
    [flags] + LE32(kh) + nonce + [0, 0, 0] + BE16(value)
  }

  /** A counter block determines all four of its fields, so the first MAC
      block (flags 0x19) never equals a keystream block (flags 1), and
      keystream blocks of different counters, key handles or nonces differ. */
  lemma CounterBlockInjective(f1: byte, kh1: uint32, n1: seq<byte>, v1: uint16,
                              f2: byte, kh2: uint32, n2: seq<byte>, v2: uint16)
    requires |n1| == Defines.AeadNonceSize && |n2| == Defines.AeadNonceSize
    requires CounterBlock(f1, kh1, n1, v1) == CounterBlock(f2, kh2, n2, v2)
    ensures f1 == f2 && kh1 == kh2 && n1 == n2 && v1 == v2
  {
    var b := CounterBlock(f1, kh1, n1, v1);
    assert LE32(kh1) == b[1..5] == LE32(kh2);
    LittleEndianInjective(kh1, kh2, 4);
    assert BE16(v1) == b[14..] == BE16(v2);
  }

  lemma MacBlockIsNoCounterBlock(kh1: uint32, n1: seq<byte>, len: uint16, kh2: uint32, n2: seq<byte>, i: uint16)
    requires |n1| == Defines.AeadNonceSize && |n2| == Defines.AeadNonceSize
    ensures CounterBlock(MacFlags, kh1, n1, len) != CounterBlock(CtrFlags, kh2, n2, i)
  {
    if CounterBlock(MacFlags, kh1, n1, len) == CounterBlock(CtrFlags, kh2, n2, i) {
      CounterBlockInjective(MacFlags, kh1, n1, len, CtrFlags, kh2, n2, i);
    }
  }

  /** S_i: the i-th keystream block, AES of counter block i. */
  function KeystreamBlock(E: Cipher, key: seq<byte>, kh: uint32, nonce: seq<byte>, i: uint16): Block
    requires |nonce| == Defines.AeadNonceSize
  {
    E(key, CounterBlock(CtrFlags, kh, nonce, i))
  }

  /** The keystream of one key, key handle and nonce, block by block. */
  function Keystream(E: Cipher, key: seq<byte>, kh: uint32, nonce: seq<byte>): uint16 -> Block
    requires |nonce| == Defines.AeadNonceSize
  {
    (i: uint16) => KeystreamBlock(E, key, kh, nonce, i)
  }

  function Min(a: int, b: int): int {
    if a <= b then a else b
  }

  /** CTR mode from keystream block i on, 16 bytes at a time; a short last
      chunk uses only the head of its keystream block. */
  function Ctr(ks: uint16 -> Block, data: seq<byte>, i: nat): (r: seq<byte>)
    requires 1 <= i && |data| + 16 * i <= 0x10_0000
    ensures |r| == |data|
    decreases |data|
  {
    if |data| == 0 then []
    else
      var n := Min(|data|, 16);
      Xor(data[..n], ks(i)) + Ctr(ks, data[n..], i + 1)
  }

  lemma CtrHead(ks: uint16 -> Block, data: seq<byte>, i: nat, o: nat)
    requires 1 <= i && |data| + 16 * i <= 0x10_0000
    requires o < 16 && o < |data|
    ensures i < 0x1_0000
    ensures Ctr(ks, data, i)[o] == data[o] ^ ks(i)[o]
  {
    var n := Min(|data|, 16);
    assert Ctr(ks, data, i)[..n] == Xor(data[..n], ks(i));
  }

  lemma CtrTail(ks: uint16 -> Block, data: seq<byte>, i: nat)
    requires 1 <= i && |data| + 16 * i <= 0x10_0000
    requires |data| > 16
    ensures Ctr(ks, data, i)[16..] == Ctr(ks, data[16..], i + 1)
  {
  }

  /** Byte o of chunk q of the CTR output is the same byte of the input XOR
      byte o of keystream block i + q: the keystream starts at block i (1
      in aesCCM) and advances once per 16 bytes. */
  lemma {:induction false} CtrAt(ks: uint16 -> Block, data: seq<byte>, i: nat, q: nat, o: nat)
    requires 1 <= i && |data| + 16 * i <= 0x10_0000
    requires o < 16 && 16 * q + o < |data|
    ensures i + q < 0x1_0000
    ensures Ctr(ks, data, i)[16 * q + o] == data[16 * q + o] ^ ks(i + q)[o]
    decreases q
  {
    if q == 0 {
      CtrHead(ks, data, i, o);
    } else {
      var c := Ctr(ks, data, i);
      var j := 16 * (q - 1) + o;
      CtrTail(ks, data, i);
      CtrAt(ks, data[16..], i + 1, q - 1, o);
      assert c[16 * q + o] == c[16..][j];
      assert data[16 * q + o] == data[16..][j];
      assert (i + 1) + (q - 1) == i + q;
    }
  }

  /** CTR mode undoes itself. */
  lemma CtrInvolution(ks: uint16 -> Block, data: seq<byte>, i: nat)
    requires 1 <= i && |data| + 16 * i <= 0x10_0000
    ensures Ctr(ks, Ctr(ks, data, i), i) == data
  {
    var c := Ctr(ks, data, i);
    var d := Ctr(ks, c, i);
    forall j | 0 <= j < |data| ensures d[j] == data[j] {
      var q, o := j / 16, j % 16;
      assert j == 16 * q + o;
      CtrAt(ks, data, i, q, o);
      CtrAt(ks, c, i, q, o);
      var k := ks(i + q)[o];
      assert d[j] == (data[j] ^ k) ^ k;
    }
  }

  /** The CBC-MAC update loop: each chunk zero-padded, XORed in, encrypted. */
  function MacBlocks(E: Cipher, key: seq<byte>, mac: Block, data: seq<byte>): Block
    decreases |data|
  {
    if |data| == 0 then mac
    else
      var n := Min(|data|, 16);
      MacBlocks(E, key, E(key, Xor(mac, PadRight(data[..n], 16))), data[n..])
  }

  /** The 8-byte tag of a plaintext: the CBC-MAC from the flags-0x19 block
      carrying the length, XORed with S_0, cut to eight bytes. */
  function Tag(E: Cipher, key: seq<byte>, kh: uint32, nonce: seq<byte>, plain: seq<byte>): (t: seq<byte>)
    requires |nonce| == Defines.AeadNonceSize
    requires |plain| <= 0xffff
    ensures |t| == Defines.AeadMacSize
  {
    var mac := MacBlocks(E, key, E(key, CounterBlock(MacFlags, kh, nonce, |plain|)), plain);
    Xor(mac, KeystreamBlock(E, key, kh, nonce, 0))[..Defines.AeadMacSize]
  }

  predicate ValidKeyLength(key: seq<byte>) {
    |key| == 16 || |key| == 24 || |key| == 32
  }

  /** What aesCCM processes: all of data when sealing; all but the last
      eight bytes when opening, cut with Python's slice rules. */
  function Body(data: seq<byte>, decrypt: bool): (b: seq<byte>)
    ensures !decrypt ==> b == data
    ensures decrypt && |data| >= Defines.AeadMacSize ==> b == data[..|data| - Defines.AeadMacSize]
    ensures |b| <= |data|
  {
    if decrypt then PySlice(data, 0, |data| - Defines.AeadMacSize) else data
  }

  /** The tag an opened input carries: what follows the body. */
  function SavedTag(data: seq<byte>): (t: seq<byte>)
    ensures |data| >= Defines.AeadMacSize ==> t == data[|data| - Defines.AeadMacSize..]
    ensures |t| <= Defines.AeadMacSize
    ensures |data| < Defines.AeadMacSize ==> |t| < Defines.AeadMacSize
  {
    PySlice(data, |data| - Defines.AeadMacSize, |data|)
  }

  /** The arguments aesCCM accepts before it touches the data: a nonce of at
      most six bytes, a key handle and a length that fit their struct
      fields, and a key of an AES size. */
  predicate ArgsOk(key: seq<byte>, kh: int, nonce: seq<byte>, len: nat) {
    |nonce| <= Defines.AeadNonceSize && 0 <= kh < 0x1_0000_0000 && len <= 0xffff && ValidKeyLength(key)
  }

  /** `aesCCM`. Sealing returns the ciphertext followed by the tag of the
      plaintext; opening decrypts the body, recomputes the tag over the
      decrypted bytes, and fails unless it equals the saved tag. Errors come
      in the source's order: the nonce, then the struct fields, then the key. */
  function AesCcm(E: Cipher, key: seq<byte>, kh: int, nonce: seq<byte>, data: seq<byte>, decrypt: bool): (r: Result<seq<byte>>)
    ensures |nonce| > Defines.AeadNonceSize ==> r == Failure(InputTooLong)
    ensures |nonce| <= Defines.AeadNonceSize && !(0 <= kh < 0x1_0000_0000 && |Body(data, decrypt)| <= 0xffff) ==>
      r == Failure(StructError)
    ensures (|nonce| <= Defines.AeadNonceSize && 0 <= kh < 0x1_0000_0000 && |Body(data, decrypt)| <= 0xffff &&
             !ValidKeyLength(key)) ==> r == Failure(InvalidAesKeyLength)
    ensures r.Failure? && r.error == IntegrityCheckFailed ==> decrypt && ArgsOk(key, kh, nonce, |Body(data, decrypt)|)
    ensures r.Success? ==> ArgsOk(key, kh, nonce, |Body(data, decrypt)|)
    ensures r.Success? && !decrypt ==> |r.value| == |data| + Defines.AeadMacSize
    ensures r.Success? && decrypt ==> |r.value| == |data| - Defines.AeadMacSize
  {
    var body := Body(data, decrypt);
    var saved := SavedTag(data);
    match Util.ValidateNonce(nonce, true)
    case Failure(e) => Failure(e)
    case Success(n6) =>
      if !(0 <= kh < 0x1_0000_0000) || |body| > 0xffff then Failure(StructError)
      else if !ValidKeyLength(key) then Failure(InvalidAesKeyLength)
      else
        var out := Ctr(Keystream(E, key, kh, n6), body, 1);
        if decrypt then
          if Tag(E, key, kh, n6, out) != saved then Failure(IntegrityCheckFailed) else Success(out)
        else Success(out + Tag(E, key, kh, n6, body))
  }

  /** Opening with good arguments succeeds exactly when the tag recomputed
      over the decrypted body equals the saved tag, and then yields that
      decryption. */
  lemma OpenSucceedsIffTagMatches(E: Cipher, key: seq<byte>, kh: int, nonce: seq<byte>, data: seq<byte>)
    requires ArgsOk(key, kh, nonce, |Body(data, true)|)
    ensures var n6 := PadRight(nonce, Defines.AeadNonceSize);
      var plain := Ctr(Keystream(E, key, kh, n6), Body(data, true), 1);
      && (AesCcm(E, key, kh, nonce, data, true).Success? <==> Tag(E, key, kh, n6, plain) == SavedTag(data))
      && (AesCcm(E, key, kh, nonce, data, true).Success? ==> AesCcm(E, key, kh, nonce, data, true).value == plain)
      && (AesCcm(E, key, kh, nonce, data, true).Failure? ==> AesCcm(E, key, kh, nonce, data, true).error == IntegrityCheckFailed)
  {
  }

  /** Seal then open gives back the plaintext. */
  lemma {:induction false} SealOpen(E: Cipher, key: seq<byte>, kh: int, nonce: seq<byte>, plain: seq<byte>)
    requires AesCcm(E, key, kh, nonce, plain, false).Success?
    ensures AesCcm(E, key, kh, nonce, AesCcm(E, key, kh, nonce, plain, false).value, true) == Success(plain)
  {
    var n6 := PadRight(nonce, Defines.AeadNonceSize);
    var ct := Ctr(Keystream(E, key, kh, n6), plain, 1);
    var tag := Tag(E, key, kh, n6, plain);
    var sealed := ct + tag;
    assert AesCcm(E, key, kh, nonce, plain, false).value == sealed;
    assert Body(sealed, true) == ct;
    assert SavedTag(sealed) == tag;
    CtrInvolution(Keystream(E, key, kh, n6), plain, 1);
  }

  /** Whatever opens is the seal of what it opens to: open accepts nothing
      but genuine seals under the same key, key handle and nonce. */
  lemma OpenedIsSealed(E: Cipher, key: seq<byte>, kh: int, nonce: seq<byte>, data: seq<byte>)
    requires AesCcm(E, key, kh, nonce, data, true).Success?
    ensures AesCcm(E, key, kh, nonce, AesCcm(E, key, kh, nonce, data, true).value, false) == Success(data)
  {
    var n6 := PadRight(nonce, Defines.AeadNonceSize);
    var body := Body(data, true);
    var plain := Ctr(Keystream(E, key, kh, n6), body, 1);
    assert |data| >= Defines.AeadMacSize;
    CtrInvolution(Keystream(E, key, kh, n6), body, 1);
    assert body + SavedTag(data) == data;
  }

  /** The ciphertext of a seal is followed by its tag, and any other eight
      bytes in its place make the open fail. */
  lemma OpenRejectsForgedTag(E: Cipher, key: seq<byte>, kh: int, nonce: seq<byte>, plain: seq<byte>, forged: seq<byte>)
    requires AesCcm(E, key, kh, nonce, plain, false).Success?
    requires |forged| == Defines.AeadMacSize
    requires forged != AesCcm(E, key, kh, nonce, plain, false).value[|plain|..]
    ensures AesCcm(E, key, kh, nonce, AesCcm(E, key, kh, nonce, plain, false).value[..|plain|] + forged, true)
      == Failure(IntegrityCheckFailed)
  {
    var n6 := PadRight(nonce, Defines.AeadNonceSize);
    var ct := Ctr(Keystream(E, key, kh, n6), plain, 1);
    var tag := Tag(E, key, kh, n6, plain);
    var sealed := ct + tag;
    assert sealed[..|plain|] == ct && sealed[|plain|..] == tag;
    var data := ct + forged;
    assert Body(data, true) == ct;
    assert SavedTag(data) == forged;
    CtrInvolution(Keystream(E, key, kh, n6), plain, 1);
  }

  /** An input shorter than a tag never opens: what is left after the
      Python slice is too short to match the eight-byte tag. */
  lemma OpenShortInputFails(E: Cipher, key: seq<byte>, kh: int, nonce: seq<byte>, data: seq<byte>)
    requires |data| < Defines.AeadMacSize
    requires ArgsOk(key, kh, nonce, |data|)
    ensures AesCcm(E, key, kh, nonce, data, true) == Failure(IntegrityCheckFailed)
  {
  }
}
