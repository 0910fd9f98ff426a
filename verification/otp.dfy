/** The 16-byte plaintext of a YubiKey OTP: the 6-byte secret uid, the use
    counter, the 24-bit timestamp (low 16 bits, then high 8 bits), the
    session counter, a random word and the CRC-16, all little-endian. */
module Otp {
  import opened Bytes
  import Crc

  /** The fields a YubiKey encrypts, without the CRC that protects them. */
  datatype Token = Token(uid: seq<byte>, useCtr: uint16, tsLow: uint16, tsHigh: uint8, sessionCtr: uint8, rnd: uint16)

  /** The token's fields before the CRC: 14 bytes for a 6-byte uid. */
  function Body(t: Token): (b: seq<byte>)
    ensures |b| == |t.uid| + 8
  {
    t.uid + LE16(t.useCtr) + LE16(t.tsLow) + [ByteOf(t.tsHigh), ByteOf(t.sessionCtr)] + LE16(t.rnd)
  }

  /** The block a YubiKey encrypts: the fields, then the complemented CRC
      of the fields, low byte first. */
  function Encode(t: Token): (b: seq<byte>)
    requires |t.uid| == 6
    ensures |b| == 16
  {
    Body(t) + Crc.Trailer(Crc.Crc16(Body(t)))
  }

  /** The soft HSM's reading of a decrypted block: the uid is the first six
      bytes, then `struct.unpack('<HHBBHH')` of the other ten; the CRC field
      is unpacked but never used, since the check runs over the whole block. */
  function Decode(plain: seq<byte>): (t: Token)
    requires |plain| == 16
    ensures t.uid == plain[..6]
  {
    Token(plain[..6], UInt16Of(plain[6..8]), UInt16Of(plain[8..10]),
          plain[10] as int, plain[11] as int, UInt16Of(plain[12..14]))
  }

  /** The block passes the CRC check: it leaves the residue 0xf0b8. */
  predicate CrcOk(plain: seq<byte>) {
    Crc.Crc16(plain) == Crc.Residue
  }

  /** A block a YubiKey builds decodes to its token and passes the CRC check. */
  lemma DecodeEncode(t: Token)
    requires |t.uid| == 6
    ensures Decode(Encode(t)) == t
    ensures CrcOk(Encode(t))
  {
    var b := Encode(t);
    assert b[6..8] == LE16(t.useCtr);
    assert b[8..10] == LE16(t.tsLow);
    assert b[12..14] == LE16(t.rnd);
    UInt16OfLE16(t.useCtr);
    UInt16OfLE16(t.tsLow);
    UInt16OfLE16(t.rnd);
    Crc.CheckedMessageResidue(Body(t));
  }

  /** The first 14 bytes of a block are the fields of the token it decodes to. */
  lemma BodyOfDecode(plain: seq<byte>)
    requires |plain| == 16
    ensures Body(Decode(plain)) == plain[..14]
  {
    var t := Decode(plain);
    assert ByteOf(plain[10] as int) == plain[10] && ByteOf(plain[11] as int) == plain[11];
    assert plain[..14] == plain[..6] + plain[6..8] + plain[8..10] + [plain[10], plain[11]] + plain[12..14];
  }

  /** A block that passes the CRC check ends in the trailer of its first 14 bytes. */
  lemma CrcOkEndsInTrailer(plain: seq<byte>)
    requires |plain| == 16 && CrcOk(plain)
    ensures plain == plain[..14] + Crc.Trailer(Crc.Crc16(plain[..14]))
  {
    var body := plain[..14];
    var p15 := plain[..15];
    assert p15[..14] == body;
    assert Crc.Crc16(p15) == Crc.CrcByte(Crc.Crc16(body), plain[14]);
    assert Crc.Crc16(plain) == Crc.CrcByte(Crc.Crc16(p15), plain[15]);
    Crc.ResidueOnlyFromTrailer(Crc.Crc16(body), plain[14], plain[15]);
    assert plain == body + [plain[14], plain[15]];
  }

  /** The CRC check accepts a block exactly when it is the encoding of the
      token it decodes to: no other 16 bytes pass. */
  lemma CrcOkIffEncoded(plain: seq<byte>)
    requires |plain| == 16
    ensures CrcOk(plain) <==> plain == Encode(Decode(plain))
  {
    var t := Decode(plain);
    if plain == Encode(t) {
      DecodeEncode(t);
    }
    if CrcOk(plain) {
      BodyOfDecode(plain);
      CrcOkEndsInTrailer(plain);
    }
  }
}
