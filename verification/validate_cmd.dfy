/** YHSM_Cmd_AEAD_Validate_OTP: the request that asks an HSM to decrypt a
    YubiKey OTP with the secret sealed in a 30-byte AEAD, and the reading of
    its 17-byte response. */
module ValidateCmd {
  import opened Bytes
  import opened Errors
  import opened Util
  import opened Records
  import Defines

  /** What a successful validation reports: the request's public id and the
      counters and timestamp halves decrypted from the OTP. */
  datatype ValidationResult = ValidationResult(publicId: seq<byte>, useCtr: uint16, sessionCtr: uint8, tsHigh: uint8, tsLow: uint16)

  /** The validated fields of a request. */
  datatype OtpRequest = OtpRequest(publicId: seq<byte>, keyHandle: uint32, otp: seq<byte>, aead: seq<byte>)

  /** The request fields have the sizes of the packed structure. */
  predicate WellFormed(req: OtpRequest) {
    |req.publicId| == Defines.AeadNonceSize && |req.otp| == Defines.OtpSize && |req.aead| == Defines.YubikeyAeadSize
  }

  /** The command code the request carries. */
  const Command := Defines.CmdAeadYubikeyOtpDecode

  /** The constructor: the public id is padded to six bytes, the OTP must be
      16 bytes, the key handle goes through the parser, the AEAD must be 30
      bytes, and `struct.pack` refuses a key handle outside 32 bits. */
  function NewValidateOtp(publicId: seq<byte>, otp: seq<byte>, kh: KeyHandleInput, aead: AeadInput): (r: Result<OtpRequest>)
    ensures r.Success? <==>
      |publicId| <= Defines.AeadNonceSize && |otp| == Defines.OtpSize && ValidateKeyHandle(kh).Success? &&
      |AeadBytesOf(aead)| == Defines.YubikeyAeadSize && 0 <= ValidateKeyHandle(kh).value < 0x1_0000_0000
    ensures r.Success? ==>
      r.value == OtpRequest(PadRight(publicId, Defines.AeadNonceSize), ValidateKeyHandle(kh).value, otp, AeadBytesOf(aead)) &&
      WellFormed(r.value)
    ensures |publicId| > Defines.AeadNonceSize ==> r == Failure(InputTooLong)
    ensures |publicId| <= Defines.AeadNonceSize && |otp| != Defines.OtpSize ==> r == Failure(WrongInputSize)
    ensures |publicId| <= Defines.AeadNonceSize && |otp| == Defines.OtpSize && ValidateKeyHandle(kh).Failure? ==>
      r == Failure(ValidateKeyHandle(kh).error)
    ensures (|publicId| <= Defines.AeadNonceSize && |otp| == Defines.OtpSize && ValidateKeyHandle(kh).Success? &&
      |AeadBytesOf(aead)| != Defines.YubikeyAeadSize) ==> r == Failure(WrongInputSize)
    ensures (r.Failure? && |publicId| <= Defines.AeadNonceSize && |otp| == Defines.OtpSize && ValidateKeyHandle(kh).Success? &&
      |AeadBytesOf(aead)| == Defines.YubikeyAeadSize) ==> r == Failure(StructError)
  {
    var pid :- ValidateNonce(publicId, true);
    var o :- ValidateLength(otp, None, Some(Defines.OtpSize));
    var k :- ValidateKeyHandle(kh);
    var a :- ValidateAead(aead, Some(Defines.YubikeyAeadSize), Defines.AeadMaxSize);
    if 0 <= k < 0x1_0000_0000 then Success(OtpRequest(pid, k, o, a)) else Failure(StructError)
  }

  /** The packed request `<6sI16s30s`. */
  function Payload(req: OtpRequest): (p: seq<byte>)
    requires WellFormed(req)
    ensures |p| == 56
    ensures p[..6] == req.publicId && p[6..10] == LE32(req.keyHandle)
    ensures p[10..26] == req.otp && p[26..] == req.aead
  {
    req.publicId + LE32(req.keyHandle) + req.otp + req.aead
  }

  /** The HSM's reading of a 56-byte request. */
  function ReadPayload(p: seq<byte>): (req: OtpRequest)
    requires |p| == 56
    ensures WellFormed(req)
  {
    OtpRequest(p[..6], UInt32Of(p[6..10]), p[10..26], p[26..])
  }

  /** The request packs without loss: the HSM reads back every field. */
  lemma ReadPayloadOfPayload(req: OtpRequest)
    requires WellFormed(req)
    ensures ReadPayload(Payload(req)) == req
  {
    UInt32OfLE32(req.keyHandle);
  }

  // ---- the response ------------------------------------------------------

  /** The fields of `YHSM_AEAD_OTP_DECODED_RESP`, `<6sIHBBHB`. */
  datatype OtpResponse = OtpResponse(publicId: seq<byte>, keyHandle: uint32, useCtr: uint16,
                                     sessionCtr: uint8, tsHigh: uint8, tsLow: uint16, status: uint8)

  function EncodeResponse(resp: OtpResponse): (d: seq<byte>)
    requires |resp.publicId| == Defines.PublicIdSize
    ensures |d| == 17
  {
    resp.publicId + LE32(resp.keyHandle) + LE16(resp.useCtr) + [ByteOf(resp.sessionCtr), ByteOf(resp.tsHigh)] +
    LE16(resp.tsLow) + [ByteOf(resp.status)]
  }

  /** `struct.unpack`: only exactly 17 bytes unpack. */
  function DecodeResponse(data: seq<byte>): (r: Result<OtpResponse>)
    ensures r.Success? <==> |data| == 17
    ensures r.Failure? ==> r.error == StructError
    ensures r.Success? ==> |r.value.publicId| == Defines.PublicIdSize
  {
    if |data| != 17 then Failure(StructError)
    else Success(OtpResponse(data[..6], UInt32Of(data[6..10]), UInt16Of(data[10..12]),
                             data[12] as int, data[13] as int, UInt16Of(data[14..16]), data[16] as int))
  }

  lemma DecodeEncodeResponse(resp: OtpResponse)
    requires |resp.publicId| == Defines.PublicIdSize
    ensures DecodeResponse(EncodeResponse(resp)) == Success(resp)
  {
    var d := EncodeResponse(resp);
    assert d[..6] == resp.publicId;
    assert d[12] as int == resp.sessionCtr && d[13] as int == resp.tsHigh && d[16] as int == resp.status;
    assert d[6..10] == LE32(resp.keyHandle);
    assert d[10..12] == LE16(resp.useCtr);
    assert d[14..16] == LE16(resp.tsLow);
    UInt32OfLE32(resp.keyHandle);
    UInt16OfLE16(resp.useCtr);
    UInt16OfLE16(resp.tsLow);
  }

  lemma EncodeDecodeResponse(data: seq<byte>)
    requires DecodeResponse(data).Success?
    ensures EncodeResponse(DecodeResponse(data).value) == data
  {
    assert data == data[..6] + data[6..10] + data[10..12] + [data[12], data[13]] + data[14..16] + [data[16]];
  }

  /** `parse_result`: the echoed public id, then the echoed key handle, must
      match the request; then status OK yields the counters with the
      request's public id, and any other status fails the command. */
  function ParseResult(req: OtpRequest, data: seq<byte>): (r: Result<ValidationResult>)
    ensures |data| != 17 ==> r == Failure(StructError)
    ensures r.Success? <==>
      DecodeResponse(data).Success? && DecodeResponse(data).value.publicId == req.publicId &&
      DecodeResponse(data).value.keyHandle == req.keyHandle && DecodeResponse(data).value.status == Defines.StatusOk
    ensures r.Success? ==> var resp := DecodeResponse(data).value;
      r.value == ValidationResult(req.publicId, resp.useCtr, resp.sessionCtr, resp.tsHigh, resp.tsLow)
    ensures (DecodeResponse(data).Success? &&
      (DecodeResponse(data).value.publicId != req.publicId || DecodeResponse(data).value.keyHandle != req.keyHandle)) ==>
      r == Failure(ResponseMismatch)
    ensures (DecodeResponse(data).Success? && DecodeResponse(data).value.publicId == req.publicId &&
      DecodeResponse(data).value.keyHandle == req.keyHandle && DecodeResponse(data).value.status != Defines.StatusOk) ==>
      r == Failure(CommandFailed(Command, DecodeResponse(data).value.status))
  {
    var resp :- DecodeResponse(data);
    var _ :- ValidateCmdResponse(resp.publicId, req.publicId);
    var _ :- ValidateCmdResponse(resp.keyHandle, req.keyHandle);
    if resp.status == Defines.StatusOk then
      Success(ValidationResult(req.publicId, resp.useCtr, resp.sessionCtr, resp.tsHigh, resp.tsLow))
    else Failure(CommandFailed(Command, resp.status))
  }

  /** The response an HSM sends for an accepted OTP parses to the counters it
      carries; any other status it sends fails the command with that status. */
  lemma ParseResultOfEcho(req: OtpRequest, useCtr: uint16, sessionCtr: uint8, tsHigh: uint8, tsLow: uint16, status: uint8)
    requires WellFormed(req)
    ensures var data := EncodeResponse(OtpResponse(req.publicId, req.keyHandle, useCtr, sessionCtr, tsHigh, tsLow, status));
      ParseResult(req, data) ==
        if status == Defines.StatusOk then Success(ValidationResult(req.publicId, useCtr, sessionCtr, tsHigh, tsLow))
        else Failure(CommandFailed(Command, status))
  {
    DecodeEncodeResponse(OtpResponse(req.publicId, req.keyHandle, useCtr, sessionCtr, tsHigh, tsLow, status));
  }

  /** Conversely, the only response that parses to a result is the echo of
      the request with status OK and that result's counters. */
  lemma ParseResultOnlyFromEcho(req: OtpRequest, data: seq<byte>)
    requires ParseResult(req, data).Success?
    ensures var v := ParseResult(req, data).value;
      data == EncodeResponse(OtpResponse(req.publicId, req.keyHandle, v.useCtr, v.sessionCtr, v.tsHigh, v.tsLow, Defines.StatusOk))
  {
    EncodeDecodeResponse(data);
  }
}
