/** The AEAD commands of a YubiHSM: the packing of the AEAD_GENERATE,
    RANDOM_AEAD_GENERATE, BUFFER_AEAD_GENERATE and AEAD_DECRYPT_CMP requests,
    and the reading of their responses. */
module AeadCmd {
  import opened Bytes
  import opened Errors
  import opened Records
  import opened Util
  import Defines

  /** A command ready to send: its code, the validated nonce (padded to six
      bytes) and key handle it remembers for the response checks, and the
      packed request body. */
  datatype AeadRequest = AeadRequest(command: int, nonce: seq<byte>, keyHandle: uint32, packed: seq<byte>)

  /** A `struct` 'I' field of a key handle argument: only an int in 32 bits packs. */
  function PackKeyHandle(kh: KeyHandleInput): (r: Result<seq<byte>>)
    ensures r.Success? <==> kh.KhInt? && 0 <= kh.n < 0x1_0000_0000
    ensures r.Success? ==> r.value == LE32(kh.n)
    ensures r.Failure? ==> r.error == StructError
  {
    if kh.KhInt? && 0 <= kh.n < 0x1_0000_0000 then Success(LE32(kh.n)) else Failure(StructError)
  }

  /** A `struct` 'B' field. */
  function PackByte(n: int): (r: Result<byte>)
    ensures r.Success? <==> 0 <= n < 0x100
    ensures r.Success? ==> r.value as int == n
    ensures r.Failure? ==> r.error == StructError
  {
    if 0 <= n < 0x100 then Success(ByteOf(n)) else Failure(StructError)
  }

  // ---- AEAD_GENERATE -------------------------------------------------------

  /** The body of an AEAD_GENERATE request once the fields are validated:
      the nonce field, the key handle field given, the data length, the data. */
  function BuildGenerate(nonce: seq<byte>, k: int, khField: KeyHandleInput, data: seq<byte>): (r: Result<AeadRequest>)
    requires |nonce| == Defines.AeadNonceSize
    ensures r.Success? <==> (PackKeyHandle(khField).Success? && |data| < 0x100 && 0 <= k < 0x1_0000_0000)
    ensures r.Failure? ==> r.error == StructError
    ensures r.Success? ==>
      r.value == AeadRequest(Defines.CmdAeadGenerate, nonce, k, nonce + PackKeyHandle(khField).value + [ByteOf(|data|)] + data)
  {
    var khBytes :- PackKeyHandle(khField);
    var len :- PackByte(|data|);
    if 0 <= k < 0x1_0000_0000 then
      Success(AeadRequest(Defines.CmdAeadGenerate, nonce, k, nonce + khBytes + [len] + data))
    else Failure(StructError)
  }

  /** `YHSM_Cmd_AEAD_Generate` as written: the request packs the key handle
      argument itself rather than its validated value, so a key handle given
      as text never packs. */
  function GenerateRequestAsWritten(nonce: seq<byte>, kh: KeyHandleInput, data: DataInput): (r: Result<AeadRequest>)
    ensures kh.KhText? ==> r.Failure?
    ensures kh.KhInt? ==> r == GenerateRequest(nonce, kh, data)
  {
    var n :- ValidateNonce(nonce, true);
    var k :- ValidateKeyHandle(kh);
    var d := ValidateYubikeySecret(data);
    BuildGenerate(n, k, kh, d)
  }

  /** `YHSM_Cmd_AEAD_Generate` packing the validated key handle: the 6-byte
      nonce field, the key handle, a length byte, then the data (a secret
      packed to 22 bytes). */
  function GenerateRequest(nonce: seq<byte>, kh: KeyHandleInput, data: DataInput): (r: Result<AeadRequest>)
    ensures |nonce| > Defines.AeadNonceSize ==> r == Failure(InputTooLong)
    ensures |nonce| <= Defines.AeadNonceSize && ValidateKeyHandle(kh).Failure? ==> r == Failure(ValidateKeyHandle(kh).error)
    ensures r.Success? <==> (|nonce| <= Defines.AeadNonceSize && ValidateKeyHandle(kh).Success? &&
      0 <= ValidateKeyHandle(kh).value < 0x1_0000_0000 && |ValidateYubikeySecret(data)| < 0x100)
    ensures r.Success? ==> var d := ValidateYubikeySecret(data);
      && r.value.command == Defines.CmdAeadGenerate
      && r.value.nonce == PadRight(nonce, Defines.AeadNonceSize) && r.value.keyHandle == ValidateKeyHandle(kh).value
      && r.value.packed == r.value.nonce + LE32(r.value.keyHandle) + [ByteOf(|d|)] + d
  {
    var n :- ValidateNonce(nonce, true);
    var k :- ValidateKeyHandle(kh);
    var d := ValidateYubikeySecret(data);
    BuildGenerate(n, k, KhInt(k), d)
  }

  /** The two differ exactly on a key handle given as text: one that parses
      to a 32-bit value packs in the corrected request, never as written. */
  lemma GenerateAsWrittenRefusesText(text: string, data: DataInput)
    requires ValidateKeyHandle(KhText(text)).Success? && 0 <= ValidateKeyHandle(KhText(text)).value < 0x1_0000_0000
    requires |ValidateYubikeySecret(data)| < 0x100
    ensures GenerateRequestAsWritten([], KhText(text), data) == Failure(StructError)
    ensures GenerateRequest([], KhText(text), data).Success?
    ensures GenerateRequest([], KhText(text), data).value.packed[6..10] == LE32(ValidateKeyHandle(KhText(text)).value)
  {
    var p := GenerateRequest([], KhText(text), data).value.packed;
    assert p[6..10] == LE32(ValidateKeyHandle(KhText(text)).value);
  }

  /** "KSM1", the key handle the KSM is usually given, is such a handle. */
  lemma GenerateAsWrittenRefusesKsm1(data: DataInput)
    requires |ValidateYubikeySecret(data)| < 0x100
    ensures GenerateRequestAsWritten([], KhText("KSM1"), data) == Failure(StructError)
    ensures GenerateRequest([], KhText("KSM1"), data).Success?
    ensures GenerateRequest([], KhText("KSM1"), data).value.packed[6..10] == LE32(0x314d534b)
  {
    KeyHandleOfKsm1();
    GenerateAsWrittenRefusesText("KSM1", data);
  }

  // ---- RANDOM_AEAD_GENERATE ------------------------------------------------

  function BuildRandomGenerate(nonce: seq<byte>, k: int, khField: KeyHandleInput, numBytes: int): (r: Result<AeadRequest>)
    requires |nonce| == Defines.AeadNonceSize
    ensures r.Success? <==> (PackKeyHandle(khField).Success? && 0 <= numBytes < 0x100 && 0 <= k < 0x1_0000_0000)
    ensures r.Failure? ==> r.error == StructError
    ensures r.Success? ==>
      r.value == AeadRequest(Defines.CmdRandomAeadGenerate, nonce, k, nonce + PackKeyHandle(khField).value + [ByteOf(numBytes)])
  {
    var khBytes :- PackKeyHandle(khField);
    var num :- PackByte(numBytes);
    if 0 <= k < 0x1_0000_0000 then
      Success(AeadRequest(Defines.CmdRandomAeadGenerate, nonce, k, nonce + khBytes + [num]))
    else Failure(StructError)
  }

  /** `YHSM_Cmd_AEAD_Random_Generate` as written, packing the key handle argument. */
  function RandomGenerateRequestAsWritten(nonce: seq<byte>, kh: KeyHandleInput, numBytes: int): (r: Result<AeadRequest>)
    ensures kh.KhText? ==> r.Failure?
    ensures kh.KhInt? ==> r == RandomGenerateRequest(nonce, kh, numBytes)
  {
    var n :- ValidateNonce(nonce, true);
    var k :- ValidateKeyHandle(kh);
    BuildRandomGenerate(n, k, kh, numBytes)
  }

  /** `YHSM_Cmd_AEAD_Random_Generate` packing the validated key handle: the
      nonce field, the key handle, the number of random bytes wanted. */
  function RandomGenerateRequest(nonce: seq<byte>, kh: KeyHandleInput, numBytes: int): (r: Result<AeadRequest>)
    ensures |nonce| > Defines.AeadNonceSize ==> r == Failure(InputTooLong)
    ensures r.Success? <==> (|nonce| <= Defines.AeadNonceSize && ValidateKeyHandle(kh).Success? &&
      0 <= ValidateKeyHandle(kh).value < 0x1_0000_0000 && 0 <= numBytes < 0x100)
    ensures r.Success? ==> var p := r.value.packed;
      && r.value.command == Defines.CmdRandomAeadGenerate
      && r.value.nonce == PadRight(nonce, Defines.AeadNonceSize) && r.value.keyHandle == ValidateKeyHandle(kh).value
      && p == r.value.nonce + LE32(r.value.keyHandle) + [ByteOf(numBytes)]
  {
    var n :- ValidateNonce(nonce, true);
    var k :- ValidateKeyHandle(kh);
    BuildRandomGenerate(n, k, KhInt(k), numBytes)
  }

  /** As for AEAD_GENERATE, a text key handle packs only in the corrected request. */
  lemma RandomGenerateAsWrittenRefusesText(text: string, numBytes: int)
    requires ValidateKeyHandle(KhText(text)).Success? && 0 <= ValidateKeyHandle(KhText(text)).value < 0x1_0000_0000
    requires 0 <= numBytes < 0x100
    ensures RandomGenerateRequestAsWritten([], KhText(text), numBytes) == Failure(StructError)
    ensures RandomGenerateRequest([], KhText(text), numBytes).Success?
    ensures RandomGenerateRequest([], KhText(text), numBytes).value.packed[6..10] == LE32(ValidateKeyHandle(KhText(text)).value)
  {
    var p := RandomGenerateRequest([], KhText(text), numBytes).value.packed;
    assert p[6..10] == LE32(ValidateKeyHandle(KhText(text)).value);
  }

  lemma RandomGenerateAsWrittenRefusesKsm1(numBytes: int)
    requires 0 <= numBytes < 0x100
    ensures RandomGenerateRequestAsWritten([], KhText("KSM1"), numBytes) == Failure(StructError)
    ensures RandomGenerateRequest([], KhText("KSM1"), numBytes).Success?
    ensures RandomGenerateRequest([], KhText("KSM1"), numBytes).value.packed[6..10] == LE32(0x314d534b)
  {
    KeyHandleOfKsm1();
    RandomGenerateAsWrittenRefusesText("KSM1", numBytes);
  }

  // ---- BUFFER_AEAD_GENERATE ------------------------------------------------

  /** `YHSM_Cmd_AEAD_Buffer_Generate`: the nonce field and the key handle. */
  function BufferGenerateRequest(nonce: seq<byte>, kh: KeyHandleInput): (r: Result<AeadRequest>)
    ensures |nonce| > Defines.AeadNonceSize ==> r == Failure(InputTooLong)
    ensures r.Success? <==> (|nonce| <= Defines.AeadNonceSize && ValidateKeyHandle(kh).Success? &&
      0 <= ValidateKeyHandle(kh).value < 0x1_0000_0000)
    ensures r.Success? ==>
      && r.value.command == Defines.CmdBufferAeadGenerate
      && r.value.nonce == PadRight(nonce, Defines.AeadNonceSize) && r.value.keyHandle == ValidateKeyHandle(kh).value
      && r.value.packed == r.value.nonce + LE32(r.value.keyHandle)
  {
    var n :- ValidateNonce(nonce, true);
    var k :- ValidateKeyHandle(kh);
    if 0 <= k < 0x1_0000_0000 then Success(AeadRequest(Defines.CmdBufferAeadGenerate, n, k, n + LE32(k)))
    else Failure(StructError)
  }

  // ---- AEAD_DECRYPT_CMP ----------------------------------------------------

  /** The largest cleartext plus AEAD a request carries. */
  const MaxCmpData := Defines.MaxPktSize - 10

  function BuildDecryptCmp(nonce: seq<byte>, k: int, khField: KeyHandleInput, data: seq<byte>): (r: Result<AeadRequest>)
    requires |nonce| == Defines.AeadNonceSize
    ensures |data| > MaxCmpData ==> r == Failure(InputTooLong)
    ensures |data| <= MaxCmpData && r.Failure? ==> r.error == StructError
    ensures r.Success? <==> (|data| <= MaxCmpData && PackKeyHandle(khField).Success? && 0 <= k < 0x1_0000_0000)
    ensures r.Success? ==>
      r.value == AeadRequest(Defines.CmdAeadDecryptCmp, nonce, k, nonce + PackKeyHandle(khField).value + [ByteOf(|data|)] + data)
  {
    if |data| > MaxCmpData then Failure(InputTooLong)
    else
      var khBytes :- PackKeyHandle(khField);
      if 0 <= k < 0x1_0000_0000 then
        Success(AeadRequest(Defines.CmdAeadDecryptCmp, nonce, k, nonce + khBytes + [ByteOf(|data|)] + data))
      else Failure(StructError)
  }

  /** `YHSM_Cmd_AEAD_Decrypt_Cmp` as written, packing the key handle argument,
      apart from its cleartext: the source checks it as text and then joins it
      to the AEAD's bytes, which Python 3 refuses; here both are bytes. */
  function DecryptCmpRequestAsWritten(nonce: seq<byte>, kh: KeyHandleInput, aead: AeadInput, cleartext: seq<byte>)
    : (r: Result<AeadRequest>)
    ensures kh.KhText? ==> r.Failure?
    ensures kh.KhInt? ==> r == DecryptCmpRequest(nonce, kh, aead, cleartext)
  {
    var a :- ValidateAead(aead, None, Defines.AeadMaxSize);
    var c :- ValidateLength(cleartext, None, Some(|a| - Defines.AeadMacSize));
    var n :- ValidateNonce(nonce, true);
    var k :- ValidateKeyHandle(kh);
    BuildDecryptCmp(n, k, kh, c + a)
  }

  /** `YHSM_Cmd_AEAD_Decrypt_Cmp` packing the validated key handle: the AEAD
      (at most 72 bytes), then a cleartext of exactly the AEAD's length less
      the tag, then the nonce and key handle are checked; cleartext and AEAD
      together may not exceed 86 bytes. */
  function DecryptCmpRequest(nonce: seq<byte>, kh: KeyHandleInput, aead: AeadInput, cleartext: seq<byte>)
    : (r: Result<AeadRequest>)
    ensures |AeadBytesOf(aead)| > Defines.AeadMaxSize ==> r == Failure(InputTooLong)
    ensures |AeadBytesOf(aead)| <= Defines.AeadMaxSize && |cleartext| != |AeadBytesOf(aead)| - Defines.AeadMacSize ==>
      r == Failure(WrongInputSize)
    ensures r.Success? <==>
      && |AeadBytesOf(aead)| <= Defines.AeadMaxSize && |cleartext| == |AeadBytesOf(aead)| - Defines.AeadMacSize
      && |nonce| <= Defines.AeadNonceSize && ValidateKeyHandle(kh).Success?
      && |cleartext| + |AeadBytesOf(aead)| <= MaxCmpData && 0 <= ValidateKeyHandle(kh).value < 0x1_0000_0000
    ensures r.Success? ==> var d := cleartext + AeadBytesOf(aead);
      && r.value.command == Defines.CmdAeadDecryptCmp
      && r.value.nonce == PadRight(nonce, Defines.AeadNonceSize) && r.value.keyHandle == ValidateKeyHandle(kh).value
      && r.value.packed == r.value.nonce + LE32(r.value.keyHandle) + [ByteOf(|d|)] + d
  {
    var a :- ValidateAead(aead, None, Defines.AeadMaxSize);
    var c :- ValidateLength(cleartext, None, Some(|a| - Defines.AeadMacSize));
    var n :- ValidateNonce(nonce, true);
    var k :- ValidateKeyHandle(kh);
    BuildDecryptCmp(n, k, KhInt(k), c + a)
  }

  /** A cleartext and AEAD that fit pack as written only for an int key handle. */
  lemma DecryptCmpAsWrittenRefusesText(text: string, aead: seq<byte>, cleartext: seq<byte>)
    requires ValidateKeyHandle(KhText(text)).Success? && 0 <= ValidateKeyHandle(KhText(text)).value < 0x1_0000_0000
    requires 2 * |aead| - Defines.AeadMacSize <= MaxCmpData && |cleartext| == |aead| - Defines.AeadMacSize
    ensures DecryptCmpRequestAsWritten([], KhText(text), AeadBytes(aead), cleartext) == Failure(StructError)
    ensures DecryptCmpRequest([], KhText(text), AeadBytes(aead), cleartext).Success?
    ensures DecryptCmpRequest([], KhText(text), AeadBytes(aead), cleartext).value.packed[6..10]
      == LE32(ValidateKeyHandle(KhText(text)).value)
  {
    var p := DecryptCmpRequest([], KhText(text), AeadBytes(aead), cleartext).value.packed;
    assert p[6..10] == LE32(ValidateKeyHandle(KhText(text)).value);
  }

  lemma DecryptCmpAsWrittenRefusesKsm1(aead: seq<byte>, cleartext: seq<byte>)
    requires 2 * |aead| - Defines.AeadMacSize <= MaxCmpData && |cleartext| == |aead| - Defines.AeadMacSize
    ensures DecryptCmpRequestAsWritten([], KhText("KSM1"), AeadBytes(aead), cleartext) == Failure(StructError)
    ensures DecryptCmpRequest([], KhText("KSM1"), AeadBytes(aead), cleartext).Success?
    ensures DecryptCmpRequest([], KhText("KSM1"), AeadBytes(aead), cleartext).value.packed[6..10] == LE32(0x314d534b)
  {
    KeyHandleOfKsm1();
    DecryptCmpAsWrittenRefusesText("KSM1", aead, cleartext);
  }

  // ---- responses -----------------------------------------------------------

  /** The head of a YSM_AEAD_GENERATE_RESP: nonce, key handle, status, length. */
  const RespHeaderSize := Defines.AeadNonceSize + 6

  /** An HSM's YSM_AEAD_GENERATE_RESP: the nonce used, the key handle echoed,
      the status, the length and the AEAD. */
  function EncodeAeadResponse(nonce: seq<byte>, kh: uint32, status: uint8, aead: seq<byte>): (d: seq<byte>)
    requires |nonce| == Defines.AeadNonceSize && |aead| < 0x100
    ensures |d| == RespHeaderSize + |aead|
  {
    nonce + LE32(kh) + [ByteOf(status), ByteOf(|aead|)] + aead
  }

  /** `YHSM_AEAD_Cmd.parse_result`: the echoed key handle must match for every
      status; only on status OK is the nonce checked and the AEAD taken from
      the bytes after the 12-byte head; any other status fails the command. */
  function ParseAeadResult(req: AeadRequest, data: seq<byte>): (r: Result<GeneratedAead>)
    ensures |data| < RespHeaderSize ==> r == Failure(StructError)
    ensures |data| >= RespHeaderSize && UInt32Of(data[6..10]) != req.keyHandle ==> r == Failure(ResponseMismatch)
    ensures (|data| >= RespHeaderSize && UInt32Of(data[6..10]) == req.keyHandle && data[10] as int != Defines.StatusOk) ==>
      r == Failure(CommandFailed(req.command, data[10] as int))
    ensures r.Success? <==> (|data| >= RespHeaderSize && UInt32Of(data[6..10]) == req.keyHandle &&
      data[10] as int == Defines.StatusOk && ValidateCmdResponseNonce(data[..6], req.nonce).Success?)
    ensures r.Success? ==> (r.value.nonce == data[..6] && r.value.keyHandle == req.keyHandle &&
      r.value.data == PySlice(data, RespHeaderSize, RespHeaderSize + data[11] as int))
  {
    if |data| < RespHeaderSize then Failure(StructError)
    else
      var nonce, kh, status, num := data[..6], UInt32Of(data[6..10]), data[10] as int, data[11] as int;
      var _ :- ValidateCmdResponse(kh, req.keyHandle);
      if status == Defines.StatusOk then
        var _ :- ValidateCmdResponseNonce(nonce, req.nonce);
        Success(GeneratedAead(nonce, kh, PySlice(data, RespHeaderSize, RespHeaderSize + num)))
      else Failure(CommandFailed(req.command, status))
  }

  /** An HSM's answer that echoes the request and reports OK parses to the
      AEAD it carries, under the nonce it reports. */
  lemma ParseAeadResultOfResponse(req: AeadRequest, nonce: seq<byte>, aead: seq<byte>)
    requires |nonce| == Defines.AeadNonceSize && |aead| < 0x100
    requires ValidateCmdResponseNonce(nonce, req.nonce).Success?
    ensures ParseAeadResult(req, EncodeAeadResponse(nonce, req.keyHandle, Defines.StatusOk, aead))
      == Success(GeneratedAead(nonce, req.keyHandle, aead))
  {
    var d := EncodeAeadResponse(nonce, req.keyHandle, Defines.StatusOk, aead);
    assert d[..6] == nonce && d[6..10] == LE32(req.keyHandle);
    assert d[10] as int == Defines.StatusOk && d[11] as int == |aead|;
    assert PySlice(d, RespHeaderSize, RespHeaderSize + |aead|) == d[RespHeaderSize..] == aead;
    UInt32OfLE32(req.keyHandle);
  }

  /** A response that echoes the key handle but reports another status fails
      the command with that status, whatever the rest holds. */
  lemma ParseAeadResultOfFailure(req: AeadRequest, nonce: seq<byte>, status: uint8, aead: seq<byte>)
    requires |nonce| == Defines.AeadNonceSize && |aead| < 0x100 && status != Defines.StatusOk
    ensures ParseAeadResult(req, EncodeAeadResponse(nonce, req.keyHandle, status, aead))
      == Failure(CommandFailed(req.command, status))
  {
    var d := EncodeAeadResponse(nonce, req.keyHandle, status, aead);
    assert d[6..10] == LE32(req.keyHandle);
    UInt32OfLE32(req.keyHandle);
  }

  /** A request that asked the HSM to choose the nonce (all zeros) refuses an
      answer that still carries the zero nonce. */
  lemma ParseAeadResultRefusesZeroNonce(req: AeadRequest, aead: seq<byte>)
    requires req.nonce == Zeros(Defines.AeadNonceSize) && |aead| < 0x100
    ensures ParseAeadResult(req, EncodeAeadResponse(req.nonce, req.keyHandle, Defines.StatusOk, aead))
      == Failure(ResponseMismatch)
  {
    var d := EncodeAeadResponse(req.nonce, req.keyHandle, Defines.StatusOk, aead);
    assert d[..6] == req.nonce && d[6..10] == LE32(req.keyHandle);
    UInt32OfLE32(req.keyHandle);
  }

  /** Every parsed AEAD comes from such a response: the head of the data is
      the encoding of what was parsed. */
  lemma ParseAeadResultOnlyFromResponse(req: AeadRequest, data: seq<byte>)
    requires ParseAeadResult(req, data).Success?
    requires RespHeaderSize + data[11] as int <= |data|
    ensures var a := ParseAeadResult(req, data).value;
      data[..RespHeaderSize + |a.data|] == EncodeAeadResponse(a.nonce, req.keyHandle, Defines.StatusOk, a.data)
  {
    var a := ParseAeadResult(req, data).value;
    var n := RespHeaderSize + |a.data|;
    assert a.data == data[RespHeaderSize..n];
    assert ByteOf(|a.data|) == data[11] && ByteOf(Defines.StatusOk) == data[10];
    assert data[6..10] == LE32(UInt32Of(data[6..10])) == LE32(req.keyHandle);
    assert data[..n] == data[..6] + data[6..10] + [data[10], data[11]] + data[RespHeaderSize..n];
  }

  // ---- the AEAD_DECRYPT_CMP response ---------------------------------------

  function EncodeDecryptCmpResponse(nonce: seq<byte>, kh: uint32, status: uint8): (d: seq<byte>)
    requires |nonce| == Defines.AeadNonceSize
    ensures |d| == 11
  {
    nonce + LE32(kh) + [ByteOf(status)]
  }

  /** `YHSM_Cmd_AEAD_Decrypt_Cmp.parse_result`: exactly 11 bytes; the nonce
      and then the key handle must echo the request; OK means the cleartext
      matched, MISMATCH that it did not, anything else fails the command. */
  function ParseDecryptCmpResult(req: AeadRequest, data: seq<byte>): (r: Result<bool>)
    ensures |data| != 11 ==> r == Failure(StructError)
    ensures |data| == 11 && (data[..6] != req.nonce || UInt32Of(data[6..10]) != req.keyHandle) ==> r == Failure(ResponseMismatch)
    ensures r.Success? <==> (|data| == 11 && data[..6] == req.nonce && UInt32Of(data[6..10]) == req.keyHandle &&
      data[10] as int in {Defines.StatusOk, Defines.Mismatch})
    ensures r.Success? ==> (r.value <==> data[10] as int == Defines.StatusOk)
    ensures (|data| == 11 && data[..6] == req.nonce && UInt32Of(data[6..10]) == req.keyHandle &&
      data[10] as int !in {Defines.StatusOk, Defines.Mismatch}) ==> r == Failure(CommandFailed(req.command, data[10] as int))
  {
    if |data| != 11 then Failure(StructError)
    else
      var _ :- ValidateCmdResponse(data[..6], req.nonce);
      var _ :- ValidateCmdResponse(UInt32Of(data[6..10]), req.keyHandle);
      var status := data[10] as int;
      if status == Defines.StatusOk then Success(true)
      else if status == Defines.Mismatch then Success(false)
      else Failure(CommandFailed(req.command, status))
  }

  /** The HSM's echo parses to its verdict: OK to a match, MISMATCH to none,
      and any other status to a failed command. */
  lemma ParseDecryptCmpOfEcho(req: AeadRequest, status: uint8)
    requires |req.nonce| == Defines.AeadNonceSize
    ensures ParseDecryptCmpResult(req, EncodeDecryptCmpResponse(req.nonce, req.keyHandle, status)) ==
      if status == Defines.StatusOk then Success(true)
      else if status == Defines.Mismatch then Success(false)
      else Failure(CommandFailed(req.command, status))
  {
    var d := EncodeDecryptCmpResponse(req.nonce, req.keyHandle, status);
    assert d[..6] == req.nonce && d[6..10] == LE32(req.keyHandle);
    UInt32OfLE32(req.keyHandle);
  }

  /** Only the echo of the request parses to a verdict. */
  lemma ParseDecryptCmpOnlyFromEcho(req: AeadRequest, data: seq<byte>)
    requires ParseDecryptCmpResult(req, data).Success?
    ensures data == EncodeDecryptCmpResponse(req.nonce, req.keyHandle, data[10] as int)
  {
    assert data == data[..6] + data[6..10] + [data[10]];
  }
}
