/** Input validation and response checks shared by the commands, chunking,
    and the key-handle parser of the configuration and file names. */
module Util {
  import opened Bytes
  import opened Errors
  import opened Numerals
  import opened Records
  import Defines

  /** The concatenation of a sequence of chunks. */
  function Flatten<T>(chunks: seq<seq<T>>): seq<T> {
    if |chunks| == 0 then [] else chunks[0] + Flatten(chunks[1..])
  }

  /** `group`: data cut into consecutive chunks of num items, the last one
      possibly shorter. A negative num makes Python's range empty. */
  function Group<T>(data: seq<T>, num: int): (r: seq<seq<T>>)
    requires num != 0
    ensures num < 0 ==> r == []
    ensures num > 0 ==> Flatten(r) == data
    ensures num > 0 ==> forall i :: 0 <= i < |r| ==> 0 < |r[i]| <= num
    ensures num > 0 ==> forall i :: 0 <= i < |r| - 1 ==> |r[i]| == num
    ensures num > 0 ==> |r| * num >= |data| > (|r| - 1) * num
    decreases |data|
  {
    if num < 0 || |data| == 0 then []
    else if |data| <= num then
      assert Flatten([data]) == data + Flatten([]);
      [data]
    else
      var rest := Group(data[num..], num);
      assert Flatten([data[..num]] + rest) == data[..num] + Flatten(rest) by {
        assert ([data[..num]] + rest)[1..] == rest;
      }
      [data[..num]] + rest
  }

  // ---- key handles ------------------------------------------------------

  /** What Python's `int(s)` accepts here: an optional sign and ASCII digits.
      (Surrounding white space, `_` separators and non-ASCII digits, which
      `int` also takes, are not modelled.) */
  predicate IsPyDecimal(s: string) {
    if |s| > 0 && (s[0] == '+' || s[0] == '-') then |s| >= 2 && AllDigits(s[1..], 10)
    else |s| >= 1 && AllDigits(s, 10)
  }

  function PyDecimal(s: string): (n: int)
    requires IsPyDecimal(s)
  {
    if s[0] == '-' then 0 - ParseNat(s[1..], 10) as int
    else if s[0] == '+' then ParseNat(s[1..], 10)
    else ParseNat(s, 10)
  }

  /** The code point of every character fits in a byte. */
  predicate IsLatin1(s: string) {
    forall i :: 0 <= i < |s| ==> s[i] as int < 0x100
  }

  function Latin1(s: string): (b: seq<byte>)
    requires IsLatin1(s)
    ensures |b| == |s|
    ensures forall i :: 0 <= i < |s| ==> b[i] as int == s[i] as int
  {
    seq(|s|, i requires 0 <= i < |s| => ByteOf(s[i] as int))
  }

  /** `key_handle_to_int`: a decimal number, else a `0x` hexadecimal number,
      else a four-character tag read as a little-endian 32-bit value (so the
      tag's bytes appear in order in a packet), else a YHSM_Error. A string
      with the `0x` prefix and bad digits raises int()'s ValueError. */
  function KeyHandleToInt(s: string): (r: Result<int>)
    ensures IsPyDecimal(s) ==> r.Success?
    ensures r.Failure? ==>
      (r.error == BadHexString <==> StartsWith(s, "0x")) &&
      (r.error == BadKeyHandle <==> !StartsWith(s, "0x"))
    ensures r.Success? && !IsPyDecimal(s) && !StartsWith(s, "0x") ==>
      |s| == 4 && IsLatin1(s) && 0 <= r.value < 0x1_0000_0000 && LE32(r.value) == Latin1(s)
  {
    if IsPyDecimal(s) then Success(PyDecimal(s))
    else if StartsWith(s, "0x") then
      if |s| > 2 && AllDigits(s[2..], 16) then Success(ParseNat(s[2..], 16))
      else Failure(BadHexString)
    else if |s| == 4 && IsLatin1(s) then
      var tag := Latin1(s);
      var n := FromLittleEndian(tag);
      LittleEndianOfFromLittleEndian(tag);
      Success(n)
    else Failure(BadKeyHandle)
  }

  /** The decimal form of any number parses back to it. */
  lemma KeyHandleOfDecimal(n: nat)
    ensures KeyHandleToInt(FormatNat(n, 10)) == Success(n)
  {
    var s := FormatNat(n, 10);
    ParseFormatNat(n, 10);
    assert s[0] != '+' && s[0] != '-' by { assert IsDigit(s[0], 10); }
  }

  /** A negative decimal key handle parses too; only range checks later refuse it. */
  lemma KeyHandleOfNegative(n: nat)
    requires n > 0
    ensures KeyHandleToInt("-" + FormatNat(n, 10)) == Success(-(n as int))
  {
    var s := "-" + FormatNat(n, 10);
    ParseFormatNat(n, 10);
    assert s[1..] == FormatNat(n, 10);
  }

  /** `0x` followed by the hexadecimal form of a number parses back to it. */
  lemma KeyHandleOfHex(n: nat)
    ensures KeyHandleToInt("0x" + FormatNat(n, 16)) == Success(n)
  {
    var s := "0x" + FormatNat(n, 16);
    ParseFormatNat(n, 16);
    assert s[2..] == FormatNat(n, 16);
    assert StartsWith(s, "0x");
    assert !AllDigits(s, 10) by { assert !IsDigit(s[1], 10); }
  }

  /** A four-character tag that is not a number parses to the 32-bit value
      whose little-endian bytes are the tag: "KSM1" is 0x314d534b. */
  lemma KeyHandleOfTag(tag: string)
    requires |tag| == 4 && IsLatin1(tag)
    requires !IsPyDecimal(tag) && !StartsWith(tag, "0x")
    ensures KeyHandleToInt(tag).Success?
    ensures var n := KeyHandleToInt(tag).value;
      0 <= n < 0x1_0000_0000 && LE32(n) == Latin1(tag)
  {
  }

  /** The bytes of "KSM1" as a little-endian number. */
  lemma Ksm1Value()
    ensures IsLatin1("KSM1") && FromLittleEndian(Latin1("KSM1")) == 0x314d534b
  {
    var b := Latin1("KSM1");
    assert b == [0x4b, 0x53, 0x4d, 0x31];
    assert b[1..] == [0x53, 0x4d, 0x31];
    assert b[2..] == [0x4d, 0x31];
    assert b[3..] == [0x31];
    assert b[4..] == [];
  }

  lemma KeyHandleOfKsm1()
    ensures KeyHandleToInt("KSM1") == Success(0x314d534b)
  {
    var s := "KSM1";
    assert !IsPyDecimal(s) by { assert !IsDigit(s[0], 10); }
    assert !StartsWith(s, "0x") by { assert s[0] != '0'; }
    Ksm1Value();
  }

  // ---- input validation -------------------------------------------------

  /** How the commands are given a key handle: an int, or configuration text. */
  datatype KeyHandleInput = KhInt(n: int) | KhText(text: string)

  /** `input_validate_key_handle`: an int passes through; text goes through
      the parser, whose YHSM_Error becomes a wrong-type error while the
      ValueError of a bad `0x` number passes out unchanged. */
  function ValidateKeyHandle(k: KeyHandleInput): (r: Result<int>)
    ensures k.KhInt? ==> r == Success(k.n)
    ensures k.KhText? && KeyHandleToInt(k.text).Success? ==> r == KeyHandleToInt(k.text)
    ensures k.KhText? && r.Failure? ==> r.error == WrongInputType || r.error == BadHexString
    ensures k.KhText? && r.Failure? ==> (r.error == WrongInputType <==> !StartsWith(k.text, "0x"))
  {
    match k
    case KhInt(n) => Success(n)
    case KhText(s) =>
      match KeyHandleToInt(s)
      case Success(n) => Success(n)
      case Failure(e) => if e == BadKeyHandle then Failure(WrongInputType) else Failure(e)
  }

  /** `input_validate_str` / `input_validate_bytes` once the type is right:
      the maximum length is checked before the exact length, and an accepted
      value comes back unchanged. */
  function ValidateLength<T>(s: seq<T>, maxLen: Option<int>, exactLen: Option<int>): (r: Result<seq<T>>)
    ensures r.Success? <==>
      (maxLen.None? || |s| <= maxLen.value) && (exactLen.None? || |s| == exactLen.value)
    ensures r.Success? ==> r.value == s
    ensures maxLen.Some? && |s| > maxLen.value ==> r == Failure(InputTooLong)
    ensures r.Failure? && r.error != InputTooLong ==> r.error == WrongInputSize
  {
    if maxLen.Some? && |s| > maxLen.value then Failure(InputTooLong)
    else if exactLen.Some? && |s| != exactLen.value then Failure(WrongInputSize)
    else Success(s)
  }

  /** `input_validate_nonce`: at most six bytes, optionally zero-padded to six. */
  function ValidateNonce(nonce: seq<byte>, pad: bool): (r: Result<seq<byte>>)
    ensures r.Success? <==> |nonce| <= Defines.AeadNonceSize
    ensures r.Failure? ==> r.error == InputTooLong
    ensures r.Success? && !pad ==> r.value == nonce
    ensures r.Success? && pad ==>
      |r.value| == Defines.AeadNonceSize && r.value[..|nonce|] == nonce &&
      forall i :: |nonce| <= i < Defines.AeadNonceSize ==> r.value[i] == 0
  {
    if |nonce| > Defines.AeadNonceSize then Failure(InputTooLong)
    else if pad then Success(PadRight(nonce, Defines.AeadNonceSize))
    else Success(nonce)
  }

  /** `input_validate_yubikey_secret`: a secret becomes its packed 22 bytes. */
  function ValidateYubikeySecret(d: DataInput): (r: seq<byte>)
    ensures d.RawData? ==> r == d.bytes
    ensures d.SecretData? && |d.secret.key| == Defines.KeySize && |d.secret.uid| <= Defines.UidSize ==>
      |r| == Defines.KeySize + Defines.UidSize && Unpack(r) == YubiKeySecret(d.secret.key, PadRight(d.secret.uid, Defines.UidSize))
  {
    match d
    case RawData(b) => b
    case SecretData(s) =>
      if |s.key| == Defines.KeySize && |s.uid| <= Defines.UidSize then UnpackOfPack(s); Pack(s)
      else Pack(s)
  }

  function AeadBytesOf(a: AeadInput): seq<byte> {
    match a
    case AeadRecord(g) => g.data
    case AeadBytes(b) => b
  }

  /** `input_validate_aead`: the AEAD's data, of the expected length when one
      is given and otherwise no longer than maxLen (72 by default). */
  function ValidateAead(a: AeadInput, expectedLen: Option<int>, maxLen: int): (r: Result<seq<byte>>)
    ensures r.Success? ==> r.value == AeadBytesOf(a)
    ensures expectedLen.Some? ==> (r.Success? <==> |AeadBytesOf(a)| == expectedLen.value)
    ensures expectedLen.Some? && r.Failure? ==> r.error == WrongInputSize
    ensures expectedLen.None? ==> (r.Success? <==> |AeadBytesOf(a)| <= maxLen)
    ensures expectedLen.None? && r.Failure? ==> r.error == InputTooLong
  {
    if expectedLen.Some? then ValidateLength(AeadBytesOf(a), None, expectedLen)
    else ValidateLength(AeadBytesOf(a), Some(maxLen), None)
  }

  // ---- response checks --------------------------------------------------

  /** `validate_cmd_response_int` / `_hex` / `_bytes` / `_str`: the field the
      HSM echoed must equal what the request carried. */
  function ValidateCmdResponse<T(==)>(got: T, expected: T): (r: Result<T>)
    ensures r.Success? <==> got == expected
    ensures r.Success? ==> r.value == expected
    ensures r.Failure? ==> r.error == ResponseMismatch
  {
    if got != expected then Failure(ResponseMismatch) else Success(got)
  }

  /** `validate_cmd_response_nonce`: an all-zero request nonce asks the HSM to
      pick one, so then the echoed nonce must differ from it; any other
      request nonce must come back unchanged. */
  function ValidateCmdResponseNonce(got: seq<byte>, used: seq<byte>): (r: Result<seq<byte>>)
    ensures used == Zeros(Defines.AeadNonceSize) ==> (r.Success? <==> got != used)
    ensures used != Zeros(Defines.AeadNonceSize) ==> (r.Success? <==> got == used)
    ensures r.Success? ==> r.value == got
    ensures r.Failure? ==> r.error == ResponseMismatch
  {
    if used == Zeros(Defines.AeadNonceSize) then
      if got == used then Failure(ResponseMismatch) else Success(got)
    else ValidateCmdResponse(got, used)
  }
}
