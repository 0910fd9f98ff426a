# Soft YubiHSM and YubiKey KSM in Dafny

A model of the software YubiHSM and the YubiKey key storage module (KSM)
that uses it. The model covers:

- the AES-CCM variant that seals and opens AEADs;
- the CRC-16 a YubiKey puts in its OTP;
- the soft HSM's key map, its data buffer, AEAD generation and OTP validation;
- the AEAD request and response codecs and the AEAD file format;
- the request and response of the validate-OTP command;
- the input checks of the utility module;
- modhex and the split of a typed OTP;
- the KSM's input pattern, its file-system AEAD store and the reply line it
  sends for a decrypt request.

AES itself is a parameter (`SoftHsm.Aes`: an encryption and a decryption
function of a key and a 16-byte block). Nothing here depends on what AES
computes. Where a proof needs decryption to undo encryption, it says so with
`SoftHsm.Inverts`. Python exceptions are the kinds of `Errors.Error`, and
`Errors.IsYhsmError` marks the ones derived from `YHSM_Error`. A file system is
a map from paths to file contents. Bytes are `bv8`. An absent nonce (`None`)
is the empty sequence. The two agree in the emptiness tests of
`validate_yubikey_with_aead` (src/yubikey.py:66) and `load_aead`
(build/src/ksm.py:218), but not everywhere; "## Left out" lists where they
differ.

One module per source file:

| module | source |
|---|---|
| `Bytes` | `struct` fields and byte strings |
| `Numerals` | `int()`, `%x` and `bytes.fromhex` |
| `Errors` | `ksmexception.py` |
| `Defines` | `defines.py` |
| `Util` | `util.py` |
| `Records` | the value classes of `aead_cmd.py` |
| `Ccm` and `Rfc3610` | `aesCCM` and its helpers |
| `Crc` and `Otp` | `crc16` and the OTP block |
| `SoftHsm` | `SoftYHSM` |
| `ValidateCmd` | `validate_cmd.py` |
| `AeadCmd` and `AeadFile` | `aead_cmd.py` |
| `Yubikey` | `yubikey.py` |
| `Ksm` | the named parts of `build/src/ksm.py` |

The code was written for Python 2 and carried to Python 3 only in part. In
several places it mixes text and bytes, for example by comparing a byte with
a one-character string or by calling `.decode('hex')` on a `str`. In those
places the model follows the byte-level behaviour the code evidently means;
"## Left out" lists each place.

The flagship results are:

- `Ksm.ServesGenuineOtp`: with a secret provisioned and its AEAD saved where
  the store looks for the YubiKey's public id, the OTP the YubiKey types
  gets the success line carrying the token's counters.
- `Ksm.RefusesForeignOtp`: an OTP made with another uid gets the bare "ERR".
- `Ccm.SealOpen` and `Ccm.OpenedIsSealed`: the AEAD round trip in both
  directions.
- `Rfc3610.SealIsRfc3610`: sealing is CCM encryption as section 2 of RFC 3610
  defines it.
- `Otp.CrcOkIffEncoded`: the CRC check accepts exactly the blocks a YubiKey
  builds.

## Model

| member | source | states |
|---|---|---|
| Defines.Status2Str | src/defines.py:109-128 | a known status gives its symbolic name from the table; any other number gives "0x" and at least two hex digits |
| Defines.Cmd2Str | src/defines.py:162-192 | a known command code gives its name; any other gives the "0x%02x" form |
| Defines.Status2StrInjective | src/defines.py:109-128 | two statuses that print alike are equal, so the text in a YHSM_CommandFailed identifies the status |
| Defines.Cmd2StrInjective | src/defines.py:162-192 | two command codes that print alike are equal, so a failure's command name identifies the command |
| Defines.NameOrHexInjective | src/defines.py:126-128 | for a table of distinct names starting with 'Y', a name and the hex fallback never collide and the fallback reads back as its number |
| Defines.Hex02 | src/defines.py:128 | `'%02x' % n` has at least two characters and reads back as n; a negative n is '-' followed by the digits of -n |
| Util.Group | src/util.py:36-38 | the chunks concatenate back to the data; every chunk is non-empty and at most num long, all but the last exactly num; a negative num gives no chunks |
| Util.KeyHandleToInt | src/util.py:40-57 | decimals always parse; a failure is int()'s ValueError exactly when the text starts with "0x" and a YHSM_Error otherwise; a four-character tag becomes the 32-bit value whose little-endian bytes are the tag |
| Util.KeyHandleOfDecimal | src/util.py:48-50 | the decimal form of any number parses back to that number |
| Util.KeyHandleOfNegative | src/util.py:48-50 | a negative decimal parses to its negative value; nothing in the parser refuses it |
| Util.KeyHandleOfHex | src/util.py:51-53 | "0x" followed by the hex form of a number parses back to it |
| Util.KeyHandleOfTag | src/util.py:54-56 | a four-character Latin-1 tag that is neither decimal nor "0x" parses to a 32-bit value whose little-endian bytes are the tag |
| Util.KeyHandleOfKsm1 | src/util.py:40-56 | "KSM1" parses to 0x314d534b |
| Util.ValidateKeyHandle | src/util.py:101-108 | an int passes unchanged; text that parses gives its value; the parser's YHSM_Error becomes YHSM_WrongInputType and its ValueError passes through |
| Util.ValidateLength | src/util.py:59-78 | accepts exactly the values within the maximum and of the exact length, returning them unchanged; too long gives InputTooLong, checked first; a wrong exact length gives WrongInputSize |
| Util.ValidateNonce | src/util.py:88-99 | accepts exactly nonces of at most six bytes; padding keeps the nonce as a prefix and fills with zeros up to six |
| Util.ValidateYubikeySecret | src/util.py:110-114 | raw data passes unchanged; a well-sized secret becomes 22 bytes that unpack to its key and padded uid |
| Util.ValidateAead | src/util.py:116-123 | returns the AEAD's bytes; with an expected length it accepts exactly that length and fails with WrongInputSize otherwise; without one it accepts at most maxLen and fails with InputTooLong otherwise |
| Util.ValidateCmdResponse | src/util.py:125-158 | succeeds exactly when the echoed field equals the request's, otherwise a response mismatch |
| Util.ValidateCmdResponseNonce | src/util.py:160-171 | with the intended six-byte nonce size: an all-zero request nonce needs a different echoed nonce; any other request nonce must come back unchanged |
| Records.Pack | src/aead_cmd.py:262-269 | the key followed by the uid zero-padded to six bytes: 22 bytes for a 16-byte key |
| Records.UnpackOfPack | src/aead_cmd.py:262-269 | unpacking a packed secret gives the key and the padded uid, and a six-byte uid comes back unchanged |
| AeadFile.NewYubiKeySecret | src/aead_cmd.py:256-260 | accepts exactly a 16-byte key and a uid of at most six bytes; the key is checked first with WrongInputSize, then the uid with InputTooLong; the pack splits into the key and the padded uid |
| Ccm.CounterBlock | src/soft_hsm.py:54-63 | the aesCtr struct: the flags byte, the little-endian key handle, the nonce, three zero bytes and the big-endian counter, each at its offset |
| Ccm.CounterBlockInjective | src/soft_hsm.py:54-63 | a counter block determines its flags, key handle, nonce and counter |
| Ccm.MacBlockIsNoCounterBlock | src/soft_hsm.py:71-73 | the first CBC-MAC block never equals a keystream counter block |
| Ccm.CtrAt | src/soft_hsm.py:112-126 | byte o of chunk q of the CTR output is the input byte XOR byte o of keystream block i + q |
| Ccm.Keystream | src/soft_hsm.py:41-63 | the key stream: block i is the cipher of the counter block with flags 0x01, the LE32 key handle, the nonce and counter i; its fields are recovered by Ccm.CounterBlockInjective |
| Ccm.Ctr | src/soft_hsm.py:112-126 | the output has the input's length; its bytes are the input XOR the key stream from block 1 on, as Ccm.CtrAt and Rfc3610.CtrIsRfcEncryption state |
| Ccm.MacBlocks | src/soft_hsm.py:66-92 | the `update` loop of the CBC-MAC; Rfc3610.MacBlocksIsCbcMac states it is the CBC-MAC of the zero-padded 16-byte blocks |
| Ccm.CtrInvolution | src/soft_hsm.py:112-126 | CTR mode applied twice with the same keystream gives back the data |
| Ccm.Tag | src/soft_hsm.py:66-92 | the tag is eight bytes |
| Ccm.Body | src/soft_hsm.py:106-107 | sealing processes all the data; opening processes all but the last eight bytes |
| Ccm.SavedTag | src/soft_hsm.py:106-107 | the saved tag is the last eight bytes, and less than eight bytes when the input is shorter |
| Ccm.AesCcm | src/soft_hsm.py:101-136 | errors come in the source's order: a long nonce, then out-of-range struct fields, then a bad AES key length; an integrity failure happens only when opening with good arguments; a seal is eight bytes longer and an opening eight bytes shorter |
| Ccm.OpenSucceedsIffTagMatches | src/soft_hsm.py:119-133 | with good arguments, opening succeeds exactly when the tag recomputed over the decrypted body equals the saved tag, and then yields that decryption; otherwise the integrity check fails |
| Ccm.SealOpen | src/soft_hsm.py:101-136 | opening a seal gives back the plaintext |
| Ccm.OpenedIsSealed | src/soft_hsm.py:101-136 | whatever opens is the seal of what it opens to |
| Ccm.OpenRejectsForgedTag | src/soft_hsm.py:131-133 | a seal with any other eight bytes in place of its tag fails the integrity check |
| Ccm.OpenShortInputFails | src/soft_hsm.py:106-107 | an input shorter than a tag never opens |
| Rfc3610.CounterBlocksAreRfcBlocks | src/soft_hsm.py:54-73 | the MAC start block and the counter blocks are RFC 3610's B_0 and A_i |
| Rfc3610.MacBlocksIsCbcMac | src/soft_hsm.py:77-81 | the update loop is the CBC-MAC over the zero-padded 16-byte blocks of the message |
| Rfc3610.CtrIsRfcEncryption | src/soft_hsm.py:112-126 | the ciphertext is the message XOR S_1, S_2, ... |
| Rfc3610.TagIsRfcTag | src/soft_hsm.py:128-135 | the tag is the first eight bytes of T XOR S_0 |
| Rfc3610.SealIsRfc3610 | src/soft_hsm.py:101-136 | with accepted arguments, sealing is RFC 3610 CCM encryption under the zero-padded nonce |
| Crc.ComputeCrc16 | src/soft_hsm.py:139-151 | the two loops compute the bytewise definition of the CRC (initial value 0xffff, reflected polynomial 0x8408) |
| Crc.TrailerResidue | src/soft_hsm.py:205 | a register followed by its complement, low byte first, gives the residue 0xf0b8 |
| Crc.ResidueOnlyFromTrailer | src/soft_hsm.py:205 | the complement is the only pair of bytes that gives the residue |
| Crc.CheckedMessageResidue | src/soft_hsm.py:205 | any message followed by its CRC trailer passes the 0xf0b8 check |
| Otp.Decode | src/soft_hsm.py:201-203 | the uid is the first six bytes, then the `<HHBBHH` fields |
| Otp.DecodeEncode | src/soft_hsm.py:201-205 | a block a YubiKey builds decodes back to its token and passes the CRC check |
| Otp.CrcOkIffEncoded | src/soft_hsm.py:201-205 | the CRC check accepts a block exactly when the block is the encoding of the token it decodes to |
| SoftHsm.NewSoftHsm | src/soft_hsm.py:155-163 | succeeds exactly on a non-empty key map whose keys all have AES sizes, with an empty buffer; an empty map fails first, then a bad key length |
| SoftHsm.GetKey | src/soft_hsm.py:182-188 | the key under the handle, else the command fails with YSM_KEY_HANDLE_INVALID |
| SoftHsm.LoadSecret | src/soft_hsm.py:213-214 | the keys are unchanged and the buffer unpacks to the secret's key and padded uid |
| SoftHsm.GenerateAead | src/soft_hsm.py:219-225 | an unknown handle gives YSM_KEY_HANDLE_INVALID; with the key and accepted CCM arguments it succeeds, with the given nonce and handle and data eight bytes longer than the buffer |
| SoftHsm.GeneratedAeadOpens | src/soft_hsm.py:219-225 | a generated AEAD opens to the buffer it was made from |
| SoftHsm.ValidateAeadOtp | src/soft_hsm.py:190-211 | an unknown handle fails before anything else; success needs well-sized fields, an AEAD that opens, and an OTP block with the AEAD's uid and a good CRC; once the request is valid and the AEAD opens, the OTP is accepted exactly when its uid and CRC are good, the result then carries the padded public id and the decoded counters, and every refusal is YSM_OTP_INVALID |
| SoftHsm.SecretAeadOpens | src/soft_hsm.py:190-195 | the AEAD generated for a secret opens under the padded nonce to the packed secret |
| SoftHsm.AcceptsExactly | src/soft_hsm.py:190-211 | under a secret's AEAD an OTP is accepted exactly when it decrypts to a block with the secret's padded uid and a good CRC; the result carries that block's counters, and every refusal is YSM_OTP_INVALID |
| SoftHsm.AcceptsGenuineOtp | src/soft_hsm.py:190-211 | an OTP a YubiKey makes from the provisioned secret is accepted, with the token's counters |
| SoftHsm.RejectsForeignUid | src/soft_hsm.py:205-211 | an OTP whose decrypted uid is not the AEAD's fails with YSM_OTP_INVALID |
| SoftHsm.PaddedNonceOpensAlike | src/soft_hsm.py:109 | aesCCM pads the nonce itself, so padding it first changes nothing |
| ValidateCmd.NewValidateOtp | src/validate_cmd.py:32-50 | succeeds exactly on a public id of at most six bytes, a 16-byte OTP, a key handle that parses to 32 bits and a 30-byte AEAD; each error appears in the constructor's order |
| ValidateCmd.Payload | src/validate_cmd.py:32-50 | the 56-byte `<6sI16s30s` request with every field at its offset |
| ValidateCmd.ReadPayloadOfPayload | src/validate_cmd.py:32-50 | the packed request reads back field for field |
| ValidateCmd.DecodeResponse | src/validate_cmd.py:52-78 | only a 17-byte response unpacks |
| ValidateCmd.DecodeEncodeResponse | src/validate_cmd.py:52-78 | encoding then decoding a response gives it back |
| ValidateCmd.EncodeDecodeResponse | src/validate_cmd.py:52-78 | any 17 bytes that decode re-encode to themselves |
| ValidateCmd.ParseResult | src/validate_cmd.py:52-78 | succeeds exactly on a 17-byte echo of the public id and key handle with status OK, giving the counters and the request's public id; a mismatched echo is a response mismatch; any other status fails the command |
| ValidateCmd.ParseResultOfEcho | src/validate_cmd.py:52-78 | an echoing response parses to its counters with status OK and fails with its status otherwise |
| ValidateCmd.ParseResultOnlyFromEcho | src/validate_cmd.py:52-78 | only the echo with status OK carrying the result's counters parses to a result |
| AeadCmd.PackKeyHandle | src/aead_cmd.py:106 | a struct 'I' field packs exactly an int within 32 bits, little-endian |
| AeadCmd.GenerateRequestAsWritten | src/aead_cmd.py:95-107 | as written, a key handle given as text always fails to pack; an int key handle gives the corrected request |
| AeadCmd.GenerateRequest | src/aead_cmd.py:95-107 | a long nonce gives InputTooLong; success exactly on a good nonce, a 32-bit key handle and under 256 bytes of data; the packet is the padded nonce, the key handle, the length byte and the data |
| AeadCmd.GenerateAsWrittenRefusesText | src/aead_cmd.py:105-106 | for any text key handle that parses to 32 bits, the request as written fails with a struct error while the corrected one packs its value |
| AeadCmd.GenerateAsWrittenRefusesKsm1 | src/aead_cmd.py:105-106 | the key handle "KSM1" makes the request as written fail while the corrected one packs 0x314d534b |
| AeadCmd.RandomGenerateRequestAsWritten | src/aead_cmd.py:115-126 | as written, a text key handle always fails; an int key handle gives the corrected request |
| AeadCmd.RandomGenerateRequest | src/aead_cmd.py:115-126 | success exactly on a good nonce, a 32-bit key handle and a byte-sized count; the packet is the padded nonce, the key handle and the count |
| AeadCmd.RandomGenerateAsWrittenRefusesText | src/aead_cmd.py:124-125 | a text key handle that parses packs only in the corrected request |
| AeadCmd.RandomGenerateAsWrittenRefusesKsm1 | src/aead_cmd.py:124-125 | "KSM1" fails as written and packs as 0x314d534b when corrected |
| AeadCmd.BufferGenerateRequest | src/aead_cmd.py:142-151 | success exactly on a good nonce and a 32-bit key handle; the packet is the padded nonce and the key handle |
| AeadCmd.DecryptCmpRequestAsWritten | src/aead_cmd.py:161-179 | as written apart from lines 164 and 167 (cleartext read as bytes): a text key handle always fails; an int key handle gives the corrected request |
| AeadCmd.DecryptCmpRequest | src/aead_cmd.py:161-179 | in order: an AEAD over 72 bytes, a cleartext not eight bytes shorter than the AEAD, the nonce, the key handle, then more than 86 bytes together; on success the packet is the nonce, the key handle, the length and the cleartext followed by the AEAD |
| AeadCmd.DecryptCmpAsWrittenRefusesText | src/aead_cmd.py:177-178 | a text key handle that parses packs only in the corrected request |
| AeadCmd.DecryptCmpAsWrittenRefusesKsm1 | src/aead_cmd.py:177-178 | "KSM1" fails as written and packs as 0x314d534b when corrected |
| AeadCmd.ParseAeadResult | src/aead_cmd.py:61-87 | under 12 bytes does not unpack; the key handle is checked for every status; a non-OK status fails the command; success exactly when the nonce check also passes, and the AEAD is the Python slice after the header |
| AeadCmd.ParseAeadResultOfResponse | src/aead_cmd.py:61-87 | the HSM's response with status OK parses to its nonce, the key handle and the AEAD it carries |
| AeadCmd.ParseAeadResultOfFailure | src/aead_cmd.py:86-87 | an echoing response with any other status fails the command with that status |
| AeadCmd.ParseAeadResultRefusesZeroNonce | src/aead_cmd.py:81 | for a request that let the HSM pick the nonce, an all-zero nonce in the response is refused |
| AeadCmd.ParseAeadResultOnlyFromResponse | src/aead_cmd.py:61-87 | a parsed result comes from a response whose head is its nonce, the key handle, status OK and the length, followed by the AEAD |
| AeadCmd.ParseDecryptCmpResult | src/aead_cmd.py:181-196 | exactly 11 bytes; the nonce, then the key handle must echo; OK means a match, YSM_MISMATCH means no match, any other status fails the command |
| AeadCmd.ParseDecryptCmpOfEcho | src/aead_cmd.py:181-196 | an echoing response reads as the match, no match or failure its status says |
| AeadCmd.ParseDecryptCmpOnlyFromEcho | src/aead_cmd.py:181-196 | a response that parses is the echo of the request with status OK or YSM_MISMATCH |
| AeadFile.Save | src/aead_cmd.py:218-230 | fails exactly on a key handle outside 32 bits; the file is the marker, version 1, the key handle, the nonce in its six-byte field, then the data |
| AeadFile.Normalise | src/aead_cmd.py:241-242 | the CR LF marker line is rewritten to the LF one, and nothing else changes |
| AeadFile.Load | src/aead_cmd.py:232-254 | an unmarked file keeps the record's key handle and nonce and takes at most 48 bytes as data; a marked file that loads has a six-byte nonce and a 32-bit key handle; errors are an index error, an unknown format or a struct error |
| AeadFile.LoadOfSave | src/aead_cmd.py:218-254 | loading a saved AEAD gives its key handle, its nonce fitted to six bytes and its data |
| AeadFile.LoadOfSaveExact | src/aead_cmd.py:218-254 | with a six-byte nonce the round trip is exact |
| AeadFile.LoadCrlf | src/aead_cmd.py:241-242 | a file with the CR LF marker loads like the same file with the LF one |
| AeadFile.LoadUnknownVersion | src/aead_cmd.py:243-250 | a marked file with a version byte other than 1 is refused as an unknown format |
| Yubikey.ModhexEncode | src/yubikey.py:85-96 | keeps the length |
| Yubikey.ModhexDecode | src/yubikey.py:72-83 | keeps the length |
| Yubikey.Translate | src/yubikey.py:82-83 | a character of the source alphabet becomes the character at the same place in the target; any other character is kept |
| Yubikey.DecodeEncode | src/yubikey.py:72-96 | a lower-case hex string encodes to modhex and decodes back |
| Yubikey.EncodeDecode | src/yubikey.py:72-96 | a modhex string decodes to hex and encodes back |
| Yubikey.RoundTripNeedsHex | src/yubikey.py:72-96 | outside the hex alphabet the round trip fails: "g" comes back as "5" |
| Yubikey.ModhexOfBytes | src/yubikey.py:63-69 | the modhex form of bytes is modhex, and decoding it and reading it as hex gives the bytes back |
| Yubikey.SplitIdOtp | src/yubikey.py:98-116 | succeeds exactly on 32 or more characters; the OTP is the last 32 characters and the public id what precedes them |
| Yubikey.SplitOfConcat | src/yubikey.py:98-116 | splitting undoes joining with a 32-character OTP |
| Yubikey.NonceFor | src/yubikey.py:57-67 | the AEAD's own nonce, or, when it has none, the public id decoded from modhex and hex |
| Yubikey.ValidateYubikeyWithAead | src/yubikey.py:53-70 | checks in order: at most 48 characters, AEAD data of at most 72 bytes, a key handle that parses, at least 32 characters; a success is the HSM's check of the decoded OTP under the nonce and the AEAD's data |
| Yubikey.EmptyNonceMeansPublicId | src/yubikey.py:66-67 | an AEAD without a nonce validates exactly as the same AEAD carrying the decoded public id |
| Yubikey.ReducesToHsmCheck | src/yubikey.py:53-70 | with a nonce in the AEAD, a well-sized typed OTP comes down to the HSM's check of its decoded OTP |
| Yubikey.ValidatesTypedOtp | src/yubikey.py:53-70 | a YubiKey's typed OTP is validated under the AEAD generated for its secret, and the result carries the token's counters |
| Ksm.ValidInputFromKey | build/src/ksm.py:68 | accepts exactly 32 to 48 modhex characters, optionally followed by one newline, which Python's `$` allows |
| Ksm.TypedOtpIsValidInput | build/src/ksm.py:68 | what a YubiKey types, with a public id of at most eight bytes, passes the pattern |
| Ksm.TrailingNewlineNeverValidates | build/src/ksm.py:147-174 | an input the pattern lets through with a trailing newline never gets the success line |
| Ksm.Join2 | build/src/ksm.py:200 | POSIX `os.path.join`: an absolute part replaces what precedes it; a first part that is empty or ends in '/' is followed directly by the second; otherwise one slash is put between |
| Ksm.PathJoinIsSlashJoin | build/src/ksm.py:200 | joining a directory without a trailing slash and plain components puts single slashes between them |
| Ksm.AeadFilenameLayout | build/src/ksm.py:195-200 | the file name is the directory, the key handle, the public id's character pairs and the public id, separated by slashes |
| Ksm.AeadFilename | build/src/ksm.py:195-200 | the file name ends with the public id itself; its full layout is stated by Ksm.AeadFilenameLayout |
| Ksm.AeadFilenameInjective | build/src/ksm.py:195-200 | different slash-free public ids get different files under the same key handle |
| Ksm.KeyHandlePairs | build/src/ksm.py:373-383 | succeeds exactly when every key handle parses, pairing each with its value in order; otherwise the error of the first that does not parse |
| Ksm.LoadFound | build/src/ksm.py:213-220 | a marked file loads as the AEAD file says; an unmarked one takes the public id decoded from modhex and hex as its nonce and fails if that is not hex; no result is the missing-file error |
| Ksm.LoadFrom | build/src/ksm.py:210-223 | fails with the missing-file error exactly when no key handle has a file for the public id |
| Ksm.FirstPresentWins | build/src/ksm.py:212-222 | the first key handle whose file is present decides the result |
| Ksm.LoadAead | build/src/ksm.py:210-223 | fails with the missing-file error exactly when no configured key handle has a file for the public id; otherwise the first present file decides (Ksm.FirstPresentWins) |
| Ksm.StoreLoadsSaved | build/src/ksm.py:210-220 | a store holding the saved AEAD under its key handle loads it back for the public id |
| Ksm.OkLine | build/src/ksm.py:167 | the success line is 39 characters and starts with "OK " |
| Ksm.OkLineReadsBack | build/src/ksm.py:167 | each field of the success line reads back as its counter in hex |
| Ksm.OkLineInjective | build/src/ksm.py:167 | different counters give different success lines |
| Ksm.DecryptYubikeyOtp | build/src/ksm.py:135-174 | "ERR Invalid OTP" exactly when the pattern fails; a failed load gives "ERR Unknown public_id"; the success line exactly when the input is valid, the AEAD loads and validates; an escaping exception is never a YHSM error |
| Ksm.ReplyOfValidated | build/src/ksm.py:162-174 | a validated OTP gets the success line of its result |
| Ksm.ReplyOfRefused | build/src/ksm.py:170-172 | a YHSM error during validation gets the bare "ERR" |
| Ksm.ServesGenuineOtp | build/src/ksm.py:135-174 | a provisioned YubiKey's OTP, with its AEAD saved in the store, gets the success line with the token's counters |
| Ksm.ForeignTypedOtpFails | build/src/ksm.py:164 | an OTP made with the secret's key but another uid passes the pattern and is refused with YSM_OTP_INVALID |
| Ksm.RefusesForeignOtp | build/src/ksm.py:135-174 | an OTP made with another uid gets the bare "ERR" |

## Left out

- AES: it is a parameter. The CTR and ECB objects of the crypto library are
  not modelled beyond "AES of a block under a key".
- Randomness: `os.urandom`, `SoftYHSM.load_random` (src/soft_hsm.py:216-217)
  and the branch of `generate_aead` that draws a nonce when it is `""`
  (src/soft_hsm.py:220-222). Callers always pass a nonce as bytes, so the
  test `nonce == ""` is never true for them.
- I/O: `SoftYHSM.from_file` and `from_json` (JSON parsing), the HTTP handler
  around `decrypt_yubikey_otp`, logging, statistics and the SQL backend.
- A file is read as the whole of its contents up to 1024 bytes. An `IOError`
  other than a missing file is not modelled, nor is the directory check in
  `FSBackend.__init__` (build/src/ksm.py:207-208).
- `validate_otp` (src/yubikey.py:27-51): it uses the HSM's internal
  database, which the soft HSM does not have.
- Python's `int()` also accepts surrounding white space, `_` separators and
  non-ASCII digits. `bytes.fromhex` skips white space. The model does not.
- A four-character key handle tag is read as Latin-1 bytes. A tag with a
  character beyond Latin-1 is refused like any other unparsable text.
- Python 2/3 mix-ups that the model reads by their intent:
  - the byte/str comparisons of the file markers and the version byte
    (src/aead_cmd.py:229, 241-244);
  - `int.from_bytes` on a `str` key handle tag (src/util.py:55);
  - `.decode('hex')` on a `str` public id (build/src/ksm.py:219), read as
    `bytes.fromhex` as in src/yubikey.py:67;
  - the `str`-typed secret packing (src/aead_cmd.py:269);
  - the cleartext of AEAD_DECRYPT_CMP, which is checked as text
    (`input_validate_str`, src/aead_cmd.py:164) and then joined to the AEAD's
    bytes (src/aead_cmd.py:167). In Python 3 a `bytes` cleartext is refused
    and a `str` one raises `TypeError`, so the constructor never builds a
    packet. The model reads both the cleartext and the AEAD as bytes, so
    AeadCmd.DecryptCmpRequestAsWritten is the code as written apart from
    these two lines.
- The zero-nonce test in `validate_cmd_response_nonce` (src/util.py:167)
  names `defines.YSM_EAD_NONCE_SIZE`, which does not exist; src/defines.py:75
  defines only `YSM_AEAD_NONCE_SIZE`. As written, every call raises
  `AttributeError`, so no AEAD response with status OK parses. The model
  reads the intended constant, six.
- Exception names that do not exist are modelled as the error they evidently
  name: `ksmexception.pyhsm` (src/util.py:131, 141, 157, 169) is a response
  mismatch. The missing `validate_cmd_response_str` (src/validate_cmd.py:71,
  src/aead_cmd.py:189) is the same equality check as its siblings.
- The request builders for AEAD_GENERATE and RANDOM_AEAD_GENERATE pack the
  raw nonce argument rather than the padded one. For a nonce of at most six
  bytes the `6s` field pads it to the same six bytes, so the model packs the
  padded nonce.
- `validate_yubikey_with_aead` reads `aead.nonce` before validating the AEAD.
  Raw AEAD bytes would raise `AttributeError`, so the model takes only an
  AEAD record.
- Type errors, such as passing a non-string where a string is expected, are
  not modelled. The model's inputs are typed.
- `input_validate_int` (src/util.py:80-86) only checks the Python type, so
  the count of random bytes is an `int` parameter.
- `generate_aead` calls `aesCCM` through the module name `soft_hsm`
  (src/soft_hsm.py:224). That works because the module imports itself
  (src/soft_hsm.py:14), and it is the same function.
- `__repr__` methods, `hexdump` and the debug flag.
- AeadFile.Save: a record whose nonce is `None` makes `struct.pack` raise
  `struct.error` at src/aead_cmd.py:226-227. Such records come from
  build/src/ksm.py:213 and from a version 0 load (src/aead_cmd.py:251-253).
  The model reads `None` as the empty nonce, which saves as six zero bytes, so
  AeadFile.LoadOfSave also covers records that the source cannot save.
- `input_validate_nonce` refuses `None` with `YHSM_WrongInputType`
  (src/util.py:90-92). The model's empty nonce passes and is padded with
  zeros.
- Util.Group: its requires excludes `num == 0`, where Python's `range`
  raises `ValueError` (src/util.py:38). The only caller passes 2
  (build/src/ksm.py:199).
- Ccm.Keystream and Ccm.MacBlocks: they carry no contract of their own.
  Ccm.CounterBlockInjective, Ccm.CtrAt and Rfc3610.MacBlocksIsCbcMac state
  what they compute.
- Ccm.Ctr: its own contract gives only the output's length. Ccm.CtrAt and
  Rfc3610.CtrIsRfcEncryption state the content.
- Ksm.AeadFilename: its own contract gives only that the name ends with the
  public id. Ksm.AeadFilenameLayout states the whole layout.
- Ccm.Tag: its own contract gives only the tag's length. Its content is
  stated by Rfc3610.TagIsRfcTag and used by Ccm.OpenSucceedsIffTagMatches.
- Yubikey.ModhexEncode and Yubikey.ModhexDecode: their own contracts give only
  the length. Yubikey.Translate, Yubikey.DecodeEncode and
  Yubikey.EncodeDecode state the content.
- Ksm.OkLine: its own contract gives only the shape of the line.
  Ksm.OkLineReadsBack states what each field holds.

## Findings

| source | as written | input that shows it | evidently intended | confidence | as-written member | corrected member |
|---|---|---|---|---|---|---|
| src/aead_cmd.py:106 | `struct.pack` is given the `key_handle` argument rather than `self.key_handle`, its validated value | key handle "KSM1", which `input_validate_key_handle` turns into 0x314d534b | pack the validated value | not executed | AeadCmd.GenerateAsWrittenRefusesKsm1 | AeadCmd.GenerateRequest |
| src/aead_cmd.py:125 | `struct.pack` is given the `key_handle` argument | key handle "KSM1" | pack the validated value | not executed | AeadCmd.RandomGenerateAsWrittenRefusesKsm1 | AeadCmd.RandomGenerateRequest |
| src/aead_cmd.py:178 | `struct.pack` is given the `key_handle` argument | key handle "KSM1" | pack the validated value | not executed | AeadCmd.DecryptCmpAsWrittenRefusesKsm1 | AeadCmd.DecryptCmpRequest |
