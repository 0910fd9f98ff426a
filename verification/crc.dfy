/** The ISO/IEC 13239 CRC-16 a YubiKey appends to its OTP block: initial value
    0xffff, reflected polynomial 0x8408, no final XOR. A block that carries
    its own complemented CRC, low byte first, leaves the fixed residue
    0xf0b8. */
module Crc {
  import opened Bytes

  const Residue: bv16 := 0xf0b8

  /** One shift of the register. */
  function CrcBit(c: bv16): bv16 {
    if c & 1 == 1 then (c >> 1) ^ 0x8408 else c >> 1
  }

  /** n shifts of the register. */
  function CrcBits(c: bv16, n: nat): bv16 {
    if n == 0 then c else CrcBit(CrcBits(c, n - 1))
  }

  /** One byte folded into the register: XOR it in, shift eight times. */
  function CrcByte(c: bv16, b: byte): bv16 {
    var x := c ^ (b as bv16);
    CrcBit(CrcBit(CrcBit(CrcBit(CrcBit(CrcBit(CrcBit(CrcBit(x))))))))
  }

  lemma EightShifts(c: bv16, b: byte)
    ensures CrcBits(c ^ (b as bv16), 8) == CrcByte(c, b)
  {
    var x := c ^ (b as bv16);
    assert CrcBits(x, 1) == CrcBit(x);
    assert CrcBits(x, 2) == CrcBit(CrcBits(x, 1));
    assert CrcBits(x, 3) == CrcBit(CrcBits(x, 2));
    assert CrcBits(x, 4) == CrcBit(CrcBits(x, 3));
    assert CrcBits(x, 5) == CrcBit(CrcBits(x, 4));
    assert CrcBits(x, 6) == CrcBit(CrcBits(x, 5));
    assert CrcBits(x, 7) == CrcBit(CrcBits(x, 6));
  }

  /** The register after the bytes of s, starting from c. */
  function CrcFrom(c: bv16, s: seq<byte>): bv16 {
    if |s| == 0 then c else CrcByte(CrcFrom(c, s[..|s| - 1]), s[|s| - 1])
  }

  function Crc16(data: seq<byte>): bv16 {
    CrcFrom(0xffff, data)
  }

  /** The two bytes a sender appends: the complemented CRC, low byte first. */
  function Trailer(c: bv16): (t: seq<byte>)
    ensures |t| == 2
  {
    var k := !c;
    [(k & 0xff) as byte, (k >> 8) as byte]
  }

  /** Folding in the complemented register, low byte first, always lands on
      the residue. */
  lemma TrailerResidue(c: bv16)
    ensures var t := Trailer(c); CrcByte(CrcByte(c, t[0]), t[1]) == Residue
  {
  }

  /** Conversely the trailer is the only pair of bytes that lands on the
      residue: the check rejects every other ending. */
  lemma ResidueOnlyFromTrailer(c: bv16, t0: byte, t1: byte)
    requires CrcByte(CrcByte(c, t0), t1) == Residue
    ensures [t0, t1] == Trailer(c)
  {
  }

  /** Any message followed by its trailer checks to the residue, which is
      what the soft HSM tests an OTP block against. */
  lemma CheckedMessageResidue(data: seq<byte>)
    ensures Crc16(data + Trailer(Crc16(data))) == Residue
  {
    var t := Trailer(Crc16(data));
    var m := data + t;
    var m1 := m[..|m| - 1];
    assert m1[..|m1| - 1] == data;
    assert CrcFrom(0xffff, m1) == CrcByte(Crc16(data), t[0]);
    assert CrcFrom(0xffff, m) == CrcByte(CrcFrom(0xffff, m1), t[1]);
    TrailerResidue(Crc16(data));
  }

  /** One pass of the inner loop of `crc16`. */
  method Shift(m: bv16) returns (r: bv16)
    ensures r == CrcBit(m)
  {
    r := m;
    var j := r & 1;
    r := r >> 1;
    if j == 1 {
      r := r ^ 0x8408;
    }
  }

  /** `crc16` as the source writes it, with its two loops. */
  method ComputeCrc16(data: seq<byte>) returns (crc: bv16)
    ensures crc == Crc16(data)
  {
    crc := 0xffff;
    for i := 0 to |data|
      invariant crc == CrcFrom(0xffff, data[..i])
    {
      ghost var before := crc;
      crc := crc ^ (data[i] as bv16);
      ghost var x := crc;
      for k := 0 to 8
        invariant crc == CrcBits(x, k)
      {
        crc := Shift(crc);
      }
      EightShifts(before, data[i]);
      assert data[..i + 1][..i] == data[..i];
    }
    assert data[..|data|] == data;
  }
}
