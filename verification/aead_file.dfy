/** The AEAD file format of YHSM_GeneratedAEAD.save/load: version 1 is a
    marker line, a version byte, the key handle, the nonce and the sealed
    data; version 0 is the bare data. Files are handled as byte strings. */
module AeadFile {
  import opened Bytes
  import opened Errors
  import opened Records
  import Defines

  /** "YubiHSM AEAD\n" in ASCII. */
  const Marker: seq<byte> := [0x59, 0x75, 0x62, 0x69, 0x48, 0x53, 0x4d, 0x20, 0x41, 0x45, 0x41, 0x44, 0x0a]

  /** The same line ended by CR LF, as older tools wrote it on Windows. */
  const CrlfMarker: seq<byte> := Marker[..12] + [0x0d, 0x0a]

  /** `load` reads at most this many bytes of a file. */
  const ReadSize := 1024

  /** Marker, version byte, 32-bit key handle, 6-byte nonce. */
  const HeaderSize := 24

  /** A version 0 file holds at most YSM_MAX_KEY_SIZE + YSM_BLOCK_SIZE bytes of data. */
  const Version0Size := Defines.MaxKeySize + Defines.BlockSize

  function Min(a: int, b: int): int {
    if a <= b then a else b
  }

  /** `save`: the marker, version 1, the key handle, the nonce cut or padded
      to its 6-byte field, then the data; `struct.pack` refuses a key handle
      outside 32 bits. */
  function Save(a: GeneratedAead): (r: Result<seq<byte>>)
    ensures r.Success? <==> 0 <= a.keyHandle < 0x1_0000_0000
    ensures r.Failure? ==> r.error == StructError
    ensures r.Success? ==>
      && |r.value| == HeaderSize + |a.data|
      && r.value[..|Marker|] == Marker && r.value[|Marker|] == 1
      && r.value[14..18] == LE32(a.keyHandle) && r.value[18..24] == Fit(a.nonce, Defines.AeadNonceSize)
      && r.value[HeaderSize..] == a.data
  {
    if 0 <= a.keyHandle < 0x1_0000_0000 then
      Success(Marker + [1] + LE32(a.keyHandle) + Fit(a.nonce, Defines.AeadNonceSize) + a.data)
    else Failure(StructError)
  }

  /** The CR LF marker line is rewritten to the LF one. */
  function Normalise(buf: seq<byte>): (r: seq<byte>)
    ensures StartsWith(buf, CrlfMarker) ==> r == Marker + buf[|CrlfMarker|..]
    ensures !StartsWith(buf, CrlfMarker) ==> r == buf
  {
    if StartsWith(buf, CrlfMarker) then Marker + buf[|CrlfMarker|..] else buf
  }

  /** `load`, given the file's bytes and the record it loads into: the first
      1024 bytes, the CR LF marker normalised; with a marker the version byte
      must be 1 and the header complete, and the key handle, nonce and the
      rest as data replace the record's; without one the record keeps its
      key handle and nonce and takes the first 48 bytes as data. */
  function Load(file: seq<byte>, prior: GeneratedAead): (r: Result<GeneratedAead>)
    ensures !StartsWith(file, Marker) && !StartsWith(file, CrlfMarker) ==>
      r == Success(prior.(data := file[..Min(|file|, Version0Size)]))
    ensures r.Failure? ==> r.error in {IndexError, UnknownAeadFormat, StructError}
    ensures r.Success? && (StartsWith(file, Marker) || StartsWith(file, CrlfMarker)) ==>
      |r.value.nonce| == Defines.AeadNonceSize && 0 <= r.value.keyHandle < 0x1_0000_0000
  {
    var buf := Normalise(file[..Min(|file|, ReadSize)]);
    if !StartsWith(buf, Marker) then
      assert !StartsWith(file[..Min(|file|, ReadSize)], CrlfMarker);
      assert buf[..Min(|buf|, Version0Size)] == file[..Min(|file|, Version0Size)];
      Success(prior.(data := buf[..Min(|buf|, Version0Size)]))
    else if |buf| == |Marker| then Failure(IndexError)
    else if buf[|Marker|] != 1 then Failure(UnknownAeadFormat)
    else if |buf| < HeaderSize then Failure(StructError)
    else
      assert StartsWith(file, Marker) || StartsWith(file, CrlfMarker) by {
        var head := file[..Min(|file|, ReadSize)];
        if !StartsWith(head, CrlfMarker) {
          assert head[..|Marker|] == file[..|Marker|];
        } else {
          assert head[..|CrlfMarker|] == file[..|CrlfMarker|];
        }
      }
      Success(GeneratedAead(buf[18..24], UInt32Of(buf[14..18]), buf[HeaderSize..]))
  }

  /** What `save` writes, `load` reads back: the key handle, the nonce in its
      6-byte field and the data, provided the file fits in one read. */
  lemma LoadOfSave(a: GeneratedAead, prior: GeneratedAead)
    requires 0 <= a.keyHandle < 0x1_0000_0000
    requires HeaderSize + |a.data| <= ReadSize
    ensures Load(Save(a).value, prior) == Success(GeneratedAead(Fit(a.nonce, Defines.AeadNonceSize), a.keyHandle, a.data))
  {
    var f := Save(a).value;
    assert f[..Min(|f|, ReadSize)] == f;
    assert !StartsWith(f, CrlfMarker) by {
      assert f[12] == 0x0a;
    }
    assert StartsWith(f, Marker);
    UInt32OfLE32(a.keyHandle);
  }

  /** With a 6-byte nonce the round trip is exact. */
  lemma LoadOfSaveExact(a: GeneratedAead, prior: GeneratedAead)
    requires 0 <= a.keyHandle < 0x1_0000_0000 && |a.nonce| == Defines.AeadNonceSize
    requires HeaderSize + |a.data| <= ReadSize
    ensures Load(Save(a).value, prior) == Success(a)
  {
    LoadOfSave(a, prior);
  }

  /** A file with the CR LF marker loads as the same file with the LF one,
      as long as both fit in one read. */
  lemma LoadCrlf(rest: seq<byte>, prior: GeneratedAead)
    requires |CrlfMarker| + |rest| <= ReadSize
    ensures Load(CrlfMarker + rest, prior) == Load(Marker + rest, prior)
  {
    var c := CrlfMarker + rest;
    var l := Marker + rest;
    assert c[..Min(|c|, ReadSize)] == c;
    assert l[..Min(|l|, ReadSize)] == l;
    assert StartsWith(c, CrlfMarker);
    assert c[|CrlfMarker|..] == rest;
    assert !StartsWith(l, CrlfMarker) by {
      assert l[12] == 0x0a;
    }
  }

  /** A marked file whose version byte is not 1 is refused. */
  lemma LoadUnknownVersion(v: byte, rest: seq<byte>, prior: GeneratedAead)
    requires v != 1
    ensures Load(Marker + [v] + rest, prior) == Failure(UnknownAeadFormat)
  {
    var f := Marker + [v] + rest;
    var head := f[..Min(|f|, ReadSize)];
    assert head[..|Marker| + 1] == Marker + [v];
    assert !StartsWith(head, CrlfMarker) by {
      assert head[12] == 0x0a;
    }
  }

  /** `YHSM_YubiKeySecret.__init__`: a 16-byte key and a uid of at most six
      bytes, checked in that order. */
  function NewYubiKeySecret(key: seq<byte>, uid: seq<byte>): (r: Result<YubiKeySecret>)
    ensures r.Success? <==> |key| == Defines.KeySize && |uid| <= Defines.UidSize
    ensures |key| != Defines.KeySize ==> r == Failure(WrongInputSize)
    ensures |key| == Defines.KeySize && |uid| > Defines.UidSize ==> r == Failure(InputTooLong)
    ensures r.Success? ==> (r.value == YubiKeySecret(key, uid) &&
      |Pack(r.value)| == Defines.KeySize + Defines.UidSize && Pack(r.value)[..Defines.KeySize] == key &&
      Pack(r.value)[Defines.KeySize..] == PadRight(uid, Defines.UidSize))
  {
    if |key| != Defines.KeySize then Failure(WrongInputSize)
    else if |uid| > Defines.UidSize then Failure(InputTooLong)
    else Success(YubiKeySecret(key, uid))
  }
}
