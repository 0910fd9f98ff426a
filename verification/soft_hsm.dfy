/** SoftYHSM: the part of a YubiHSM done in software, a map from key handles
    to AES keys, a data buffer, AEAD generation from the buffer and the
    decryption and check of a YubiKey OTP under an AEAD. */
module SoftHsm {
  import opened Bytes
  import opened Errors
  import opened Util
  import opened Records
  import Defines
  import Ccm
  import Crc
  import Otp
  import ValidateCmd

  /** The AES block cipher under a key, in both directions (`AES.MODE_ECB`). */
  datatype Aes = Aes(encrypt: Ccm.Cipher, decrypt: Ccm.Cipher)

  /** Decryption undoes encryption under the same key. */
  ghost predicate Inverts(aes: Aes) {
    forall key: seq<byte>, b: Ccm.Block :: aes.decrypt(key, aes.encrypt(key, b)) == b
  }

  /** The soft HSM's state: its keys by handle and its data buffer. */
  datatype Hsm = Hsm(keys: map<int, seq<byte>>, buffer: seq<byte>)

  /** `SoftYHSM.__init__`: at least one key, and every key of an AES size;
      the buffer starts empty. */
  function NewSoftHsm(keys: map<int, seq<byte>>): (r: Result<Hsm>)
    ensures r.Success? <==> |keys| > 0 && forall kh :: kh in keys ==> Ccm.ValidKeyLength(keys[kh])
    ensures r.Success? ==> r.value == Hsm(keys, [])
    ensures |keys| == 0 ==> r == Failure(NoKeyHandles)
    ensures r.Failure? && |keys| > 0 ==> r == Failure(UnsupportedKeyLength)
  {
    if |keys| == 0 then Failure(NoKeyHandles)
    else if exists kh :: kh in keys && !Ccm.ValidKeyLength(keys[kh]) then Failure(UnsupportedKeyLength)
    else Success(Hsm(keys, []))
  }

  /** `_get_key`: the key under a handle, or the command fails with
      YSM_KEY_HANDLE_INVALID. */
  function GetKey(hsm: Hsm, kh: int, command: int): (r: Result<seq<byte>>)
    ensures r.Success? <==> kh in hsm.keys
    ensures r.Success? ==> r.value == hsm.keys[kh]
    ensures r.Failure? ==> r.error == CommandFailed(command, Defines.KeyHandleInvalid)
  {
    if kh in hsm.keys then Success(hsm.keys[kh]) else Failure(CommandFailed(command, Defines.KeyHandleInvalid))
  }

  /** `load_secret`: the buffer becomes the packed secret. */
  function LoadSecret(hsm: Hsm, secret: YubiKeySecret): (h: Hsm)
    ensures h.keys == hsm.keys
    ensures |secret.key| == Defines.KeySize && |secret.uid| <= Defines.UidSize ==>
      |h.buffer| == Defines.KeySize + Defines.UidSize &&
      Unpack(h.buffer) == YubiKeySecret(secret.key, PadRight(secret.uid, Defines.UidSize))
  {
    if |secret.key| == Defines.KeySize && |secret.uid| <= Defines.UidSize then UnpackOfPack(secret); hsm.(buffer := Pack(secret))
    else hsm.(buffer := Pack(secret))
  }

  /** `generate_aead` with a caller's nonce: the buffer sealed under the key
      of the handle, as YSM_BUFFER_AEAD_GENERATE. */
  function GenerateAead(aes: Aes, hsm: Hsm, nonce: seq<byte>, kh: int): (r: Result<GeneratedAead>)
    ensures kh !in hsm.keys ==> r == Failure(CommandFailed(Defines.CmdBufferAeadGenerate, Defines.KeyHandleInvalid))
    ensures r.Success? ==> kh in hsm.keys && Ccm.ArgsOk(hsm.keys[kh], kh, nonce, |hsm.buffer|)
    ensures r.Success? ==> (r.value.nonce == nonce && r.value.keyHandle == kh &&
      |r.value.data| == |hsm.buffer| + Defines.AeadMacSize)
    ensures kh in hsm.keys && Ccm.ArgsOk(hsm.keys[kh], kh, nonce, |hsm.buffer|) ==> r.Success?
  {
    var key :- GetKey(hsm, kh, Defines.CmdBufferAeadGenerate);
    var ct :- Ccm.AesCcm(aes.encrypt, key, kh, nonce, hsm.buffer, false);
    Success(GeneratedAead(nonce, kh, ct))
  }

  /** A generated AEAD opens, under the same key, handle and nonce, to the
      buffer it was generated from. */
  lemma GeneratedAeadOpens(aes: Aes, hsm: Hsm, nonce: seq<byte>, kh: int)
    requires GenerateAead(aes, hsm, nonce, kh).Success?
    ensures Ccm.AesCcm(aes.encrypt, hsm.keys[kh], kh, nonce, GenerateAead(aes, hsm, nonce, kh).value.data, true)
      == Success(hsm.buffer)
  {
    Ccm.SealOpen(aes.encrypt, hsm.keys[kh], kh, nonce, hsm.buffer);
  }

  // ---- OTP validation ----------------------------------------------------

  /** The OTP check on a decrypted block: its first six bytes are the uid
      from the AEAD, and it carries a good CRC. */
  predicate OtpAccepted(plain: seq<byte>, uid: seq<byte>) {
    |plain| == Defines.OtpSize && plain[..Defines.UidSize] == uid && Otp.CrcOk(plain)
  }

  /** `validate_aead_otp`: the key of the handle (else YSM_KEY_HANDLE_INVALID
      before anything else), the validated request, the AEAD opened under
      that key with the request's key handle and padded public id, the OTP
      decrypted with the YubiKey key from the AEAD; the OTP is accepted only
      on the AEAD's uid and a good CRC, and otherwise YSM_OTP_INVALID. */
  function ValidateAeadOtp(aes: Aes, hsm: Hsm, publicId: seq<byte>, otp: seq<byte>, kh: int, aead: seq<byte>)
    : (r: Result<ValidateCmd.ValidationResult>)
    ensures kh !in hsm.keys ==> r == Failure(CommandFailed(ValidateCmd.Command, Defines.KeyHandleInvalid))
    ensures r.Success? ==> (kh in hsm.keys && |publicId| <= Defines.AeadNonceSize && |otp| == Defines.OtpSize &&
      |aead| == Defines.YubikeyAeadSize && 0 <= kh < 0x1_0000_0000)
    ensures r.Success? ==> r.value.publicId == PadRight(publicId, Defines.AeadNonceSize)
    ensures r.Success? ==>
      var pt := Ccm.AesCcm(aes.encrypt, hsm.keys[kh], kh, PadRight(publicId, Defines.AeadNonceSize), aead, true);
      pt.Success? && OtpAccepted(aes.decrypt(pt.value[..Defines.KeySize], otp), pt.value[Defines.KeySize..])
    ensures kh in hsm.keys && ValidateCmd.NewValidateOtp(publicId, otp, KhInt(kh), AeadBytes(aead)).Success? ==>
      var pt := Ccm.AesCcm(aes.encrypt, hsm.keys[kh], kh, PadRight(publicId, Defines.AeadNonceSize), aead, true);
      pt.Success? ==>
        var plain := aes.decrypt(pt.value[..Defines.KeySize], otp);
        var t := Otp.Decode(plain);
        && (r.Success? <==> OtpAccepted(plain, pt.value[Defines.KeySize..]))
        && (r.Success? ==> r.value == ValidateCmd.ValidationResult(
              PadRight(publicId, Defines.AeadNonceSize), t.useCtr, t.sessionCtr, t.tsHigh, t.tsLow))
        && (r.Failure? ==> r == Failure(CommandFailed(ValidateCmd.Command, Defines.OtpInvalid)))
  {
    var key :- GetKey(hsm, kh, ValidateCmd.Command);
    var cmd :- ValidateCmd.NewValidateOtp(publicId, otp, KhInt(kh), AeadBytes(aead));
    var pt :- Ccm.AesCcm(aes.encrypt, key, cmd.keyHandle, cmd.publicId, aead, true);
    var ykKey, ykUid := pt[..Defines.KeySize], pt[Defines.KeySize..];
    var plain := aes.decrypt(ykKey, cmd.otp);
    var t := Otp.Decode(plain);
    if t.uid == ykUid && Otp.CrcOk(plain) then
      Success(ValidateCmd.ValidationResult(cmd.publicId, t.useCtr, t.sessionCtr, t.tsHigh, t.tsLow))
    else Failure(CommandFailed(ValidateCmd.Command, Defines.OtpInvalid))
  }

  /** The conditions under which a YubiKey, provisioned with a secret whose
      AEAD the soft HSM generated, produces an OTP the soft HSM decrypts. */
  predicate Provisioned(hsm: Hsm, secret: YubiKeySecret, nonce: seq<byte>, kh: int) {
    && kh in hsm.keys && Ccm.ValidKeyLength(hsm.keys[kh]) && 0 <= kh < 0x1_0000_0000
    && |nonce| <= Defines.AeadNonceSize
    && |secret.key| == Defines.KeySize && |secret.uid| <= Defines.UidSize
  }

  /** The AEAD the soft HSM generates for a secret. */
  function SecretAead(aes: Aes, hsm: Hsm, secret: YubiKeySecret, nonce: seq<byte>, kh: int): (a: GeneratedAead)
    requires Provisioned(hsm, secret, nonce, kh)
    ensures |a.data| == Defines.YubikeyAeadSize && a.nonce == nonce && a.keyHandle == kh
  {
    GenerateAead(aes, LoadSecret(hsm, secret), nonce, kh).value
  }

  lemma SecretAeadOpens(aes: Aes, hsm: Hsm, secret: YubiKeySecret, nonce: seq<byte>, kh: int)
    requires Provisioned(hsm, secret, nonce, kh)
    ensures var pt := Ccm.AesCcm(aes.encrypt, hsm.keys[kh], kh, PadRight(nonce, Defines.AeadNonceSize),
                                 SecretAead(aes, hsm, secret, nonce, kh).data, true);
      pt == Success(Pack(secret)) &&
      pt.value[..Defines.KeySize] == secret.key && pt.value[Defines.KeySize..] == PadRight(secret.uid, Defines.UidSize)
  {
    var loaded := LoadSecret(hsm, secret);
    var ct := SecretAead(aes, hsm, secret, nonce, kh).data;
    GeneratedAeadOpens(aes, loaded, nonce, kh);
    assert Ccm.AesCcm(aes.encrypt, hsm.keys[kh], kh, nonce, ct, true) == Success(Pack(secret));
    PaddedNonceOpensAlike(aes.encrypt, hsm.keys[kh], kh, nonce, ct);
  }

  /** aesCCM pads the nonce itself, so padding it first changes nothing. */
  lemma PaddedNonceOpensAlike(E: Ccm.Cipher, key: seq<byte>, kh: int, nonce: seq<byte>, data: seq<byte>)
    requires |nonce| <= Defines.AeadNonceSize
    ensures Ccm.AesCcm(E, key, kh, PadRight(nonce, Defines.AeadNonceSize), data, true) == Ccm.AesCcm(E, key, kh, nonce, data, true)
  {
    var p := PadRight(nonce, Defines.AeadNonceSize);
    assert PadRight(p, Defines.AeadNonceSize) == p;
  }

  /** Under the AEAD generated for a secret, an OTP is accepted exactly when
      it decrypts, under the secret's key, to a block that starts with the
      secret's padded uid and passes the CRC check; the result then carries
      that block's counters, and every refusal is YSM_OTP_INVALID. */
  lemma AcceptsExactly(aes: Aes, hsm: Hsm, secret: YubiKeySecret, nonce: seq<byte>, kh: int, otp: seq<byte>)
    requires Provisioned(hsm, secret, nonce, kh)
    requires |otp| == Defines.OtpSize
    ensures var plain := aes.decrypt(secret.key, otp);
      var r := ValidateAeadOtp(aes, hsm, nonce, otp, kh, SecretAead(aes, hsm, secret, nonce, kh).data);
      && (r.Success? <==> OtpAccepted(plain, PadRight(secret.uid, Defines.UidSize)))
      && (r.Success? ==> r.value == ValidateCmd.ValidationResult(PadRight(nonce, Defines.AeadNonceSize),
            Otp.Decode(plain).useCtr, Otp.Decode(plain).sessionCtr, Otp.Decode(plain).tsHigh, Otp.Decode(plain).tsLow))
      && (r.Failure? ==> r.error == CommandFailed(ValidateCmd.Command, Defines.OtpInvalid))
  {
    SecretAeadOpens(aes, hsm, secret, nonce, kh);
  }

  /** End to end: an OTP a YubiKey makes from the provisioned secret, with
      the secret's (padded) uid, is accepted under the AEAD the soft HSM
      generated for that secret, and the result carries the OTP's counters
      and timestamp. */
  lemma AcceptsGenuineOtp(aes: Aes, hsm: Hsm, secret: YubiKeySecret, nonce: seq<byte>, kh: int, token: Otp.Token)
    requires Inverts(aes)
    requires Provisioned(hsm, secret, nonce, kh)
    requires token.uid == PadRight(secret.uid, Defines.UidSize)
    ensures var otp := aes.encrypt(secret.key, Otp.Encode(token));
      ValidateAeadOtp(aes, hsm, nonce, otp, kh, SecretAead(aes, hsm, secret, nonce, kh).data)
        == Success(ValidateCmd.ValidationResult(PadRight(nonce, Defines.AeadNonceSize), token.useCtr, token.sessionCtr, token.tsHigh, token.tsLow))
  {
    var block := Otp.Encode(token);
    var otp := aes.encrypt(secret.key, block);
    AcceptsExactly(aes, hsm, secret, nonce, kh, otp);
    Otp.DecodeEncode(token);
    assert aes.decrypt(secret.key, otp) == block;
  }

  /** An OTP whose decrypted uid is not the uid sealed in the AEAD is refused
      with YSM_OTP_INVALID, whatever its CRC. */
  lemma RejectsForeignUid(aes: Aes, hsm: Hsm, secret: YubiKeySecret, nonce: seq<byte>, kh: int, token: Otp.Token)
    requires Inverts(aes)
    requires Provisioned(hsm, secret, nonce, kh)
    requires |token.uid| == Defines.UidSize && token.uid != PadRight(secret.uid, Defines.UidSize)
    ensures var otp := aes.encrypt(secret.key, Otp.Encode(token));
      ValidateAeadOtp(aes, hsm, nonce, otp, kh, SecretAead(aes, hsm, secret, nonce, kh).data)
        == Failure(CommandFailed(ValidateCmd.Command, Defines.OtpInvalid))
  {
    var block := Otp.Encode(token);
    var otp := aes.encrypt(secret.key, block);
    AcceptsExactly(aes, hsm, secret, nonce, kh, otp);
    Otp.DecodeEncode(token);
    assert aes.decrypt(secret.key, otp) == block;
  }
}
