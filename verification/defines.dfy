/** Sizes, status codes and command codes of the YubiHSM protocol, and their
    printable names. */
module Defines {
  import opened Numerals
  import opened Errors

  const PublicIdSize := 6      // public id for standard OTP validation
  const OtpSize := 16          // an OTP is one AES block
  const BlockSize := 16        // AES block
  const MaxKeySize := 32       // largest CCM key
  const DataBufSize := 64      // internal data buffer
  const AeadNonceSize := 6     // AEAD nonce, not counting the key handle
  const AeadMacSize := 8       // AEAD MAC field
  const CcmCtrSize := 2        // AES-CCM counter field
  const AeadMaxSize := DataBufSize + AeadMacSize   // 72: largest AEAD block
  const MaxPktSize := 0x60     // largest packet, not counting the command byte
  const TempKeyHandle := 0xffff_ffff

  const UidSize := 6
  const KeySize := 16
  const YubikeyAeadSize := KeySize + UidSize + AeadMacSize   // 30

  // Response statuses: thirteen distinct codes from 0x80 to 0x8c.
  const StatusOk := 0x80
  const KeyHandleInvalid := 0x81
  const AeadInvalid := 0x82
  const OtpInvalid := 0x83
  const OtpReplay := 0x84
  const IdDuplicate := 0x85
  const IdNotFound := 0x86
  const DbFull := 0x87
  const MemoryError := 0x88
  const FunctionDisabled := 0x89
  const KeyStorageLocked := 0x8a
  const Mismatch := 0x8b
  const InvalidParameter := 0x8c

  // Command codes.
  const CmdNull := 0x00
  const CmdAeadGenerate := 0x01
  const CmdBufferAeadGenerate := 0x02
  const CmdRandomAeadGenerate := 0x03
  const CmdAeadDecryptCmp := 0x04
  const CmdDbYubikeyAeadStore := 0x05
  const CmdAeadYubikeyOtpDecode := 0x06
  const CmdDbOtpValidate := 0x07
  const CmdDbYubikeyAeadStore2 := 0x08
  const CmdAesEcbBlockEncrypt := 0x0d
  const CmdAesEcbBlockDecrypt := 0x0e
  const CmdAesEcbBlockDecryptCmp := 0x0f
  const CmdHmacSha1Generate := 0x10
  const CmdTempKeyLoad := 0x11
  const CmdBufferLoad := 0x20
  const CmdBufferRandomLoad := 0x21
  const CmdNonceGet := 0x22
  const CmdEcho := 0x23
  const CmdRandomGenerate := 0x24
  const CmdRandomReseed := 0x25
  const CmdSystemInfoQuery := 0x26
  const CmdKeyStorageUnlock := 0x27
  const CmdHsmUnlock := 0x28
  const CmdKeyStoreDecrypt := 0x29
  const CmdMonitorExit := 0x7f

  const StatusNames: seq<(int, string)> := [
    (0x80, "YSM_STATUS_OK"),
    (0x81, "YSM_KEY_HANDLE_INVALID"),
    (0x82, "YSM_AEAD_INVALID"),
    (0x83, "YSM_OTP_INVALID"),
    (0x84, "YSM_OTP_REPLAY"),
    (0x85, "YSM_ID_DUPLICATE"),
    (0x86, "YSM_ID_NOT_FOUND"),
    (0x87, "YSM_DB_FULL"),
    (0x88, "YSM_MEMORY_ERROR"),
    (0x89, "YSM_FUNCTION_DISABLED"),
    (0x8a, "YSM_KEY_STORAGE_LOCKED"),
    (0x8b, "YSM_MISMATCH"),
    (0x8c, "YSM_INVALID_PARAMETER")]

  const CommandNames: seq<(int, string)> := [
    (0x00, "YSM_NULL"),
    (0x01, "YSM_AEAD_GENERATE"),
    (0x02, "YSM_BUFFER_AEAD_GENERATE"),
    (0x03, "YSM_RANDOM_AEAD_GENERATE"),
    (0x04, "YSM_AEAD_DECRYPT_CMP"),
    (0x05, "YSM_DB_YUBIKEY_AEAD_STORE"),
    (0x06, "YSM_AEAD_YUBIKEY_OTP_DECODE"),
    (0x07, "YSM_DB_OTP_VALIDATE"),
    (0x08, "YSM_DB_YUBIKEY_AEAD_STORE2"),
    (0x0d, "YSM_AES_ECB_BLOCK_ENCRYPT"),
    (0x0e, "YSM_AES_ECB_BLOCK_DECRYPT"),
    (0x0f, "YSM_AES_ECB_BLOCK_DECRYPT_CMP"),
    (0x10, "YSM_HMAC_SHA1_GENERATE"),
    (0x11, "YSM_TEMP_KEY_LOAD"),
    (0x20, "YSM_BUFFER_LOAD"),
    (0x21, "YSM_BUFFER_RANDOM_LOAD"),
    (0x22, "YSM_NONCE_GET"),
    (0x23, "YSM_ECHO"),
    (0x24, "YSM_RANDOM_GENERATE"),
    (0x25, "YSM_RANDOM_RESEED"),
    (0x26, "YSM_SYSTEM_INFO_QUERY"),
    (0x27, "YSM_KEY_STORAGE_UNLOCK"),
    (0x28, "YSM_HSM_UNLOCK"),
    (0x29, "YSM_KEY_STORE_DECRYPT"),
    (0x7f, "YSM_MONITOR_EXIT")]

  /** Python's `'%02x' % n`: at least two digits; a negative number keeps its
      sign inside the width, so `-5` gives `-5`. */
  function Hex02(n: int): (s: string)
    ensures 2 <= |s|
    ensures n >= 0 ==> AllDigits(s, 16) && ParseNat(s, 16) == n
    ensures n < 0 ==> s[0] == '-' && AllDigits(s[1..], 16) && ParseNat(s[1..], 16) == -n
  {
    if n >= 0 then FormatHex(n, 2) else "-" + FormatHex(-n, 1)
  }

  /** Where num sits in a table of (code, name) pairs, if anywhere. */
  function Find(table: seq<(int, string)>, num: int): (r: Option<nat>)
    ensures r.Some? ==> r.value < |table| && table[r.value].0 == num
    ensures r.None? ==> forall i :: 0 <= i < |table| ==> table[i].0 != num
  {
    if |table| == 0 then None
    else if table[0].0 == num then Some(0)
    else match Find(table[1..], num)
      case None => None
      case Some(i) => Some(i + 1)
  }

  /** The symbolic name of a known code, else `"0x%02x" % num`. */
  function NameOrHex(table: seq<(int, string)>, num: int): string {
    match Find(table, num)
    case Some(i) => table[i].1
    case None => "0x" + Hex02(num)
  }

  /** Every name is distinct and symbolic (it starts with 'Y', never a digit). */
  predicate WellFormedTable(table: seq<(int, string)>) {
    && (forall i, j :: 0 <= i < j < |table| ==> table[i].1 != table[j].1)
    && (forall i :: 0 <= i < |table| ==> |table[i].1| > 0 && table[i].1[0] == 'Y')
  }

  /** Distinct codes never print alike: a symbolic name never starts with
      '0', and the hex form reads back as its number. */
  lemma NameOrHexInjective(table: seq<(int, string)>, a: int, b: int)
    requires WellFormedTable(table)
    requires NameOrHex(table, a) == NameOrHex(table, b)
    ensures a == b
  {
    var sa, sb := NameOrHex(table, a), NameOrHex(table, b);
    match (Find(table, a), Find(table, b))
    case (Some(i), Some(j)) =>
      assert table[i].1 == table[j].1;
      assert i == j;
    case (Some(_), None) =>
    case (None, Some(_)) =>
    case (None, None) =>
      assert Hex02(a) == sa[2..] && Hex02(b) == sb[2..];
      Hex02Injective(a, b);
  }

  lemma Hex02Injective(a: int, b: int)
    requires Hex02(a) == Hex02(b)
    ensures a == b
  {
    if a < 0 && b < 0 {
      assert Hex02(a)[1..] == Hex02(b)[1..];
    }
  }

  function Status2Str(num: int): (s: string)
    ensures Find(StatusNames, num).Some? ==> s == StatusNames[Find(StatusNames, num).value].1
    ensures Find(StatusNames, num).None? ==> s == "0x" + Hex02(num)
  {
    NameOrHex(StatusNames, num)
  }

  function Cmd2Str(cmd: int): (s: string)
    ensures Find(CommandNames, cmd).Some? ==> s == CommandNames[Find(CommandNames, cmd).value].1
    ensures Find(CommandNames, cmd).None? ==> s == "0x" + Hex02(cmd)
  {
    NameOrHex(CommandNames, cmd)
  }

  lemma Status2StrInjective(a: int, b: int)
    requires Status2Str(a) == Status2Str(b)
    ensures a == b
  {
    StatusNamesWellFormed();
    NameOrHexInjective(StatusNames, a, b);
  }

  lemma StatusNamesWellFormed()
    ensures WellFormedTable(StatusNames)
  {
  }

  // The 300 pairs of command names are compared in three batches.
  lemma CommandNamesDistinctFrom0()
    ensures forall i, j :: 0 <= i < j < |CommandNames| && i < 6 ==> CommandNames[i].1 != CommandNames[j].1
  {
  }

  lemma CommandNamesDistinctFrom6()
    ensures forall i, j :: 6 <= i < j < |CommandNames| && i < 12 ==> CommandNames[i].1 != CommandNames[j].1
  {
  }

  lemma CommandNamesDistinctFrom12()
    ensures forall i, j :: 12 <= i < j < |CommandNames| ==> CommandNames[i].1 != CommandNames[j].1
  {
  }

  lemma CommandNamesWellFormed()
    ensures WellFormedTable(CommandNames)
  {
    CommandNamesDistinctFrom0();
    CommandNamesDistinctFrom6();
    CommandNamesDistinctFrom12();
  }

  lemma Cmd2StrInjective(a: int, b: int)
    requires Cmd2Str(a) == Cmd2Str(b)
    ensures a == b
  {
    CommandNamesWellFormed();
    NameOrHexInjective(CommandNames, a, b);
  }
}
