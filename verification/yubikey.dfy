/** YubiKey helpers: the modhex alphabet a YubiKey types its OTP in, the split
    of a typed OTP into public id and OTP, and the validation of a typed OTP
    under an AEAD by the soft HSM. */
module Yubikey {
  import opened Bytes
  import opened Errors
  import opened Numerals
  import opened Records
  import opened Util
  import Defines
  import SoftHsm
  import ValidateCmd
  import Otp

  const HexAlphabet: string := "0123456789abcdef"

  /** The sixteen keys whose scan codes are the same on common keyboard
      layouts, standing for the hex digits in order. */
  const ModhexAlphabet: string := "cbdefghijklnrtuv"

  predicate Distinct(s: string) {
    forall i, j :: 0 <= i < j < |s| ==> s[i] != s[j]
  }

  predicate Over(s: string, alphabet: string) {
    forall i :: 0 <= i < |s| ==> s[i] in alphabet
  }

  /** The first position of c in s. */
  function IndexOf(s: string, c: char): (i: nat)
    requires c in s
    ensures i < |s| && s[i] == c
    ensures forall j :: 0 <= j < i ==> s[j] != c
  {
    if s[0] == c then 0 else 1 + IndexOf(s[1..], c)
  }

  /** `str.translate` with `str.maketrans(from, to)`: a character of `from`
      becomes the character at the same place in `to`; any other character
      is kept. */
  function Translate(s: string, from: string, to: string): (r: string)
    requires |from| == |to|
    ensures |r| == |s|
    ensures forall i :: 0 <= i < |s| && s[i] in from ==> r[i] == to[IndexOf(from, s[i])]
    ensures forall i :: 0 <= i < |s| && s[i] !in from ==> r[i] == s[i]
  {
    seq(|s|, i requires 0 <= i < |s| => if s[i] in from then to[IndexOf(from, s[i])] else s[i])
  }

  /** `modhex_encode`. */
  function ModhexEncode(s: string): (r: string)
    ensures |r| == |s|
  {
    Translate(s, HexAlphabet, ModhexAlphabet)
  }

  /** `modhex_decode`. */
  function ModhexDecode(s: string): (r: string)
    ensures |r| == |s|
  {
    Translate(s, ModhexAlphabet, HexAlphabet)
  }

  lemma AlphabetsDistinct()
    ensures Distinct(HexAlphabet) && Distinct(ModhexAlphabet)
  {
  }

  /** Translating with a table and then with its reverse restores a string
      over the table's source alphabet, when neither alphabet repeats a
      character. */
  lemma TranslateBack(s: string, a: string, b: string)
    requires |a| == |b| && Distinct(a) && Distinct(b)
    requires Over(s, a)
    ensures Over(Translate(s, a, b), b)
    ensures Translate(Translate(s, a, b), b, a) == s
  {
    var t := Translate(s, a, b);
    forall i | 0 <= i < |s| ensures t[i] in b && Translate(t, b, a)[i] == s[i] {
      var k := IndexOf(a, s[i]);
      assert t[i] == b[k];
      assert IndexOf(b, b[k]) == k;
    }
  }

  /** Modhex-encoding a lower-case hex string gives a modhex string, which
      decodes back to it. */
  lemma DecodeEncode(s: string)
    requires Over(s, HexAlphabet)
    ensures Over(ModhexEncode(s), ModhexAlphabet)
    ensures ModhexDecode(ModhexEncode(s)) == s
  {
    AlphabetsDistinct();
    TranslateBack(s, HexAlphabet, ModhexAlphabet);
  }

  /** Decoding a modhex string gives a lower-case hex string, which encodes
      back to it. */
  lemma EncodeDecode(t: string)
    requires Over(t, ModhexAlphabet)
    ensures Over(ModhexDecode(t), HexAlphabet)
    ensures ModhexEncode(ModhexDecode(t)) == t
  {
    AlphabetsDistinct();
    TranslateBack(t, ModhexAlphabet, HexAlphabet);
  }

  /** The round trip needs the hex alphabet: "g" is no hex digit, so encoding
      keeps it, and then decoding reads it as the modhex digit for 5. */
  lemma RoundTripNeedsHex()
    ensures ModhexEncode("g") == "g"
    ensures ModhexDecode(ModhexEncode("g")) == "5"
  {
    assert "g"[0] !in HexAlphabet;
    assert "g"[0] == ModhexAlphabet[5];
    AlphabetsDistinct();
    assert IndexOf(ModhexAlphabet, 'g') == 5;
  }

  /** The digits of `bytes.hex()` are in the lower-case hex alphabet. */
  lemma ToHexIsLowerHex(b: seq<byte>)
    ensures Over(ToHex(b), HexAlphabet)
  {
    var s := ToHex(b);
    forall i | 0 <= i < |s| ensures s[i] in HexAlphabet {
      var c := s[i];
      assert c == HexAlphabet[if IsDecDigit(c) then c as int - '0' as int else c as int - 'a' as int + 10];
    }
  }

  /** Every character the decoder yields for modhex input is a hex digit. */
  lemma LowerHexIsHex(s: string)
    requires Over(s, HexAlphabet)
    ensures AllDigits(s, 16)
  {
  }

  /** The modhex form of bytes decodes back to them through `bytes.fromhex`. */
  lemma ModhexOfBytes(b: seq<byte>)
    ensures Over(ModhexEncode(ToHex(b)), ModhexAlphabet)
    ensures FromHex(ModhexDecode(ModhexEncode(ToHex(b)))) == Success(b)
  {
    ToHexIsLowerHex(b);
    DecodeEncode(ToHex(b));
    FromHexOfToHex(b);
  }

  // ---- split_id_otp -------------------------------------------------------

  const OtpChars := 32

  /** `split_id_otp`: the last 32 characters are the OTP, what precedes them
      the public id (empty for exactly 32); fewer than 32 is a YHSM_Error. */
  function SplitIdOtp(fromKey: string): (r: Result<(string, string)>)
    ensures r.Success? <==> |fromKey| >= OtpChars
    ensures r.Failure? ==> r.error == BadFromKeyLength
    ensures r.Success? ==> r.value.0 + r.value.1 == fromKey && |r.value.1| == OtpChars
  {
    if |fromKey| > OtpChars then Success((fromKey[..|fromKey| - OtpChars], fromKey[|fromKey| - OtpChars..]))
    else if |fromKey| == OtpChars then Success(("", fromKey))
    else Failure(BadFromKeyLength)
  }

  /** Splitting undoes concatenation with a 32-character OTP. */
  lemma SplitOfConcat(publicId: string, otp: string)
    requires |otp| == OtpChars
    ensures SplitIdOtp(publicId + otp) == Success((publicId, otp))
  {
    var s := publicId + otp;
    assert s[..|s| - OtpChars] == publicId && s[|s| - OtpChars..] == otp;
  }

  // ---- validate_yubikey_with_aead -----------------------------------------

  /** The longest typed OTP accepted: a 16-character public id and the OTP. */
  const MaxFromKey := 48

  /** The nonce the AEAD is opened with: the AEAD's own, or, when it has
      none, the public id decoded from modhex and hex. */
  function NonceFor(aead: GeneratedAead, publicId: string): (r: Result<seq<byte>>)
    ensures |aead.nonce| > 0 ==> r == Success(aead.nonce)
    ensures |aead.nonce| == 0 ==> r == FromHex(ModhexDecode(publicId))
  {
    if |aead.nonce| == 0 then FromHex(ModhexDecode(publicId)) else Success(aead.nonce)
  }

  /** `validate_yubikey_with_aead` with the soft HSM: the typed OTP is at most
      48 characters, the AEAD's data at most 72 bytes, the key handle must
      parse; the public id and OTP are split off, decoded from modhex and
      hex, and handed to the HSM with the AEAD's data. */
  function ValidateYubikeyWithAead(aes: SoftHsm.Aes, hsm: SoftHsm.Hsm, fromKey: string, aead: GeneratedAead, kh: KeyHandleInput)
    : (r: Result<ValidateCmd.ValidationResult>)
    ensures |fromKey| > MaxFromKey ==> r == Failure(InputTooLong)
    ensures |fromKey| <= MaxFromKey && |aead.data| > Defines.AeadMaxSize ==> r == Failure(InputTooLong)
    ensures (|fromKey| <= MaxFromKey && |aead.data| <= Defines.AeadMaxSize && ValidateKeyHandle(kh).Failure?) ==>
      r == Failure(ValidateKeyHandle(kh).error)
    ensures (|fromKey| <= MaxFromKey && |aead.data| <= Defines.AeadMaxSize && ValidateKeyHandle(kh).Success? &&
      |fromKey| < OtpChars) ==> r == Failure(BadFromKeyLength)
    ensures r.Success? ==> OtpChars <= |fromKey| <= MaxFromKey && ValidateKeyHandle(kh).Success?
    ensures r.Success? ==> var split := SplitIdOtp(fromKey).value;
      && NonceFor(aead, split.0).Success? && FromHex(ModhexDecode(split.1)).Success?
      && r == SoftHsm.ValidateAeadOtp(aes, hsm, NonceFor(aead, split.0).value, FromHex(ModhexDecode(split.1)).value,
                                      ValidateKeyHandle(kh).value, aead.data)
  {
    var _ :- ValidateLength(fromKey, Some(MaxFromKey), None);
    var data :- ValidateAead(AeadRecord(aead), None, Defines.AeadMaxSize);
    var k :- ValidateKeyHandle(kh);
    var split :- SplitIdOtp(fromKey);
    var publicId, otp := ModhexDecode(split.0), ModhexDecode(split.1);
    var nonce :- NonceFor(aead, split.0);
    var otpBytes :- FromHex(otp);
    SoftHsm.ValidateAeadOtp(aes, hsm, nonce, otpBytes, k, data)
  }

  /** An AEAD without a nonce is opened with the public id as its nonce: it
      validates exactly as the same AEAD carrying the decoded public id. */
  lemma EmptyNonceMeansPublicId(aes: SoftHsm.Aes, hsm: SoftHsm.Hsm, publicId: string, otp: string, aead: GeneratedAead,
                                kh: KeyHandleInput, idBytes: seq<byte>)
    requires |otp| == OtpChars
    requires |aead.nonce| == 0
    requires FromHex(ModhexDecode(publicId)) == Success(idBytes) && |idBytes| > 0
    ensures ValidateYubikeyWithAead(aes, hsm, publicId + otp, aead, kh)
      == ValidateYubikeyWithAead(aes, hsm, publicId + otp, aead.(nonce := idBytes), kh)
  {
    SplitOfConcat(publicId, otp);
  }

  /** With a nonce in the AEAD, a well-sized typed OTP comes down to the HSM
      check of its decoded OTP under the AEAD's nonce. */
  lemma ReducesToHsmCheck(aes: SoftHsm.Aes, hsm: SoftHsm.Hsm, publicId: string, otp: string, aead: GeneratedAead,
                          kh: int, otpBytes: seq<byte>)
    requires |otp| == OtpChars && |publicId| + OtpChars <= MaxFromKey
    requires |aead.data| <= Defines.AeadMaxSize && |aead.nonce| > 0
    requires FromHex(ModhexDecode(otp)) == Success(otpBytes)
    ensures ValidateYubikeyWithAead(aes, hsm, publicId + otp, aead, KhInt(kh))
      == SoftHsm.ValidateAeadOtp(aes, hsm, aead.nonce, otpBytes, kh, aead.data)
  {
    SplitOfConcat(publicId, otp);
  }

  /** End to end through the modhex layer: a YubiKey provisioned with a
      secret, typing its public id and an OTP made with the secret's key and
      uid, is validated under the AEAD generated for the secret, and the
      result carries the token's counters. */
  lemma ValidatesTypedOtp(aes: SoftHsm.Aes, hsm: SoftHsm.Hsm, secret: YubiKeySecret, publicId: seq<byte>,
                          nonce: seq<byte>, kh: int, token: Otp.Token)
    requires SoftHsm.Inverts(aes)
    requires SoftHsm.Provisioned(hsm, secret, nonce, kh) && |nonce| > 0
    requires |publicId| <= 8
    requires token.uid == PadRight(secret.uid, Defines.UidSize)
    ensures var otp := aes.encrypt(secret.key, Otp.Encode(token));
      var typed := ModhexEncode(ToHex(publicId)) + ModhexEncode(ToHex(otp));
      ValidateYubikeyWithAead(aes, hsm, typed, SoftHsm.SecretAead(aes, hsm, secret, nonce, kh), KhInt(kh))
        == Success(ValidateCmd.ValidationResult(PadRight(nonce, Defines.AeadNonceSize), token.useCtr, token.sessionCtr, token.tsHigh, token.tsLow))
  {
    var otp := aes.encrypt(secret.key, Otp.Encode(token));
    var pid, o := ModhexEncode(ToHex(publicId)), ModhexEncode(ToHex(otp));
    ModhexOfBytes(otp);
    ReducesToHsmCheck(aes, hsm, pid, o, SoftHsm.SecretAead(aes, hsm, secret, nonce, kh), kh, otp);
    SoftHsm.AcceptsGenuineOtp(aes, hsm, secret, nonce, kh, token);
  }
}
