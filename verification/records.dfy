/** The value classes of the AEAD commands: a generated AEAD (nonce, key
    handle, sealed data) and the 22-byte YubiKey secret that is sealed in it. */
module Records {
  import opened Bytes
  import Defines

  /** YHSM_GeneratedAEAD. An absent nonce (Python None) is the empty sequence,
      which it matches in the emptiness tests of the OTP check and the store;
      saving or validating a None nonce raises, an empty one does not. */
  datatype GeneratedAead = GeneratedAead(nonce: seq<byte>, keyHandle: int, data: seq<byte>)

  /** YHSM_YubiKeySecret: the device's AES key and its secret unique id. */
  datatype YubiKeySecret = YubiKeySecret(key: seq<byte>, uid: seq<byte>)

  /** The two things `input_validate_aead` accepts. */
  datatype AeadInput = AeadRecord(record: GeneratedAead) | AeadBytes(bytes: seq<byte>)

  /** The two things `input_validate_yubikey_secret` accepts. */
  datatype DataInput = SecretData(secret: YubiKeySecret) | RawData(bytes: seq<byte>)

  /** The YUBIKEY_SECRETS struct: the key, then the uid zero-padded to six bytes. */
  function Pack(secret: YubiKeySecret): (r: seq<byte>)
    ensures |secret.key| == Defines.KeySize && |secret.uid| <= Defines.UidSize ==>
              |r| == Defines.KeySize + Defines.UidSize
    ensures |r| >= |secret.key| && r[..|secret.key|] == secret.key
    ensures r[|secret.key|..] == PadRight(secret.uid, Defines.UidSize)
  {
    secret.key + PadRight(secret.uid, Defines.UidSize)
  }

  /** How the soft HSM splits an opened secret: key first, uid after it. */
  function Unpack(plain: seq<byte>): (r: YubiKeySecret)
    requires |plain| >= Defines.KeySize
  {
    YubiKeySecret(plain[..Defines.KeySize], plain[Defines.KeySize..])
  }

  /** Unpacking a packed secret gives back the key and the padded uid, so a
      six-byte uid comes back unchanged. */
  lemma UnpackOfPack(secret: YubiKeySecret)
    requires |secret.key| == Defines.KeySize && |secret.uid| <= Defines.UidSize
    ensures Unpack(Pack(secret)) == YubiKeySecret(secret.key, PadRight(secret.uid, Defines.UidSize))
    ensures |secret.uid| == Defines.UidSize ==> Unpack(Pack(secret)) == secret
  {
  }
}
