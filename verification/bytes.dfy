/** Byte strings and the fixed-width integer fields `struct` packs into them. */
module Bytes {

  type byte = bv8
  type uint8 = x: int | 0 <= x < 0x100
  type uint16 = x: int | 0 <= x < 0x1_0000
  type uint32 = x: int | 0 <= x < 0x1_0000_0000

  /** The byte holding the small integer x. */
  function ByteOf(x: int): (b: byte)
    requires 0 <= x < 0x100
    ensures b as int == x
  {
    x as byte
  }

  function Pow256(n: nat): (p: nat)
    ensures p > 0
  {
    if n == 0 then 1 else 0x100 * Pow256(n - 1)
  }

  /** The n-byte little-endian field of x, as `struct.pack('<H'/'<I')` writes it. */
  function LittleEndian(x: nat, n: nat): (r: seq<byte>)
    requires x < Pow256(n)
    ensures |r| == n
    decreases n
  {
    if n == 0 then [] else [ByteOf(x % 0x100)] + LittleEndian(x / 0x100, n - 1)
  }

  /** The unsigned value of a little-endian field, as `struct.unpack` reads it. */
  function FromLittleEndian(s: seq<byte>): (x: nat)
    ensures x < Pow256(|s|)
  {
    if |s| == 0 then 0 else s[0] as nat + 0x100 * FromLittleEndian(s[1..])
  }

  lemma {:induction false} FromLittleEndianOfLittleEndian(x: nat, n: nat)
    requires x < Pow256(n)
    ensures FromLittleEndian(LittleEndian(x, n)) == x
    decreases n
  {
    if n > 0 {
      var r := LittleEndian(x, n);
      assert r[1..] == LittleEndian(x / 0x100, n - 1);
      FromLittleEndianOfLittleEndian(x / 0x100, n - 1);
    }
  }

  lemma {:induction false} LittleEndianOfFromLittleEndian(s: seq<byte>)
    ensures LittleEndian(FromLittleEndian(s), |s|) == s
  {
    if |s| > 0 {
      var x := FromLittleEndian(s);
      assert x % 0x100 == s[0] as int;
      assert x / 0x100 == FromLittleEndian(s[1..]);
      LittleEndianOfFromLittleEndian(s[1..]);
    }
  }

  /** Equal little-endian fields of equal width hold equal values. */
  lemma LittleEndianInjective(x: nat, y: nat, n: nat)
    requires x < Pow256(n) && y < Pow256(n)
    requires LittleEndian(x, n) == LittleEndian(y, n)
    ensures x == y
  {
    FromLittleEndianOfLittleEndian(x, n);
    FromLittleEndianOfLittleEndian(y, n);
  }

  function LE16(x: uint16): seq<byte> {
    LittleEndian(x, 2)
  }

  function LE32(x: uint32): seq<byte> {
    LittleEndian(x, 4)
  }

  /** `struct.unpack('<H')` of a 2-byte field. */
  function UInt16Of(s: seq<byte>): (x: uint16)
    requires |s| == 2
    ensures LE16(x) == s
  {
    assert Pow256(2) == 0x1_0000;
    LittleEndianOfFromLittleEndian(s);
    FromLittleEndian(s)
  }

  /** `struct.unpack('<I')` of a 4-byte field. */
  function UInt32Of(s: seq<byte>): (x: uint32)
    requires |s| == 4
    ensures LE32(x) == s
  {
    assert Pow256(4) == 0x1_0000_0000;
    LittleEndianOfFromLittleEndian(s);
    FromLittleEndian(s)
  }

  lemma UInt16OfLE16(x: uint16)
    ensures UInt16Of(LE16(x)) == x
  {
    assert Pow256(2) == 0x1_0000;
    FromLittleEndianOfLittleEndian(x, 2);
  }

  lemma UInt32OfLE32(x: uint32)
    ensures UInt32Of(LE32(x)) == x
  {
    assert Pow256(4) == 0x1_0000_0000;
    FromLittleEndianOfLittleEndian(x, 4);
  }

  /** `struct.pack('>H', x)`: the only big-endian field of the core. */
  function BE16(x: uint16): (r: seq<byte>)
    ensures |r| == 2
    ensures (r[0] as int) * 0x100 + r[1] as int == x
  {
    [ByteOf(x / 0x100), ByteOf(x % 0x100)]
  }

  function Zeros(n: nat): (r: seq<byte>)
    ensures |r| == n
    ensures forall i :: 0 <= i < n ==> r[i] == 0
  {
    seq(n, _ => 0)
  }

  /** `bytes.ljust(n, b'\x00')`: pads on the right, never truncates. */
  function PadRight(s: seq<byte>, n: nat): (r: seq<byte>)
    ensures |r| == if |s| < n then n else |s|
    ensures r[..|s|] == s
    ensures forall i :: |s| <= i < |r| ==> r[i] == 0
  {
    if |s| < n then s + Zeros(n - |s|) else s
  }

  /** A `struct` 'Ns' field: truncated or zero-padded to exactly n bytes. */
  function Fit(s: seq<byte>, n: nat): (r: seq<byte>)
    ensures |r| == n
    ensures |s| <= n ==> r == PadRight(s, n)
    ensures |s| >= n ==> r == s[..n]
  {
    if |s| >= n then s[..n] else PadRight(s, n)
  }

  /** Python's `zip`-based XOR of two byte strings: as long as the shorter one. */
  function Xor(a: seq<byte>, b: seq<byte>): (r: seq<byte>)
    ensures |r| == if |a| <= |b| then |a| else |b|
    ensures forall i :: 0 <= i < |r| ==> r[i] == a[i] ^ b[i]
  {
    var n := if |a| <= |b| then |a| else |b|;
    seq(n, i requires 0 <= i < n => a[i] ^ b[i])
  }

  /** Where a Python slice index i lands in a sequence of length n. */
  function PyIndex(n: nat, i: int): (k: nat)
    ensures k <= n
    ensures i >= 0 ==> k == if i <= n then i else n
    ensures i < 0 ==> k == if n + i >= 0 then n + i else 0
  {
    if i >= 0 then (if i <= n then i else n)
    else if n + i >= 0 then n + i else 0
  }

  /** Python's `s[a:b]`. */
  function PySlice<T>(s: seq<T>, a: int, b: int): (r: seq<T>)
    ensures PyIndex(|s|, a) <= PyIndex(|s|, b) ==> r == s[PyIndex(|s|, a)..PyIndex(|s|, b)]
    ensures PyIndex(|s|, a) > PyIndex(|s|, b) ==> r == []
  {
    var lo := PyIndex(|s|, a);
    var hi := PyIndex(|s|, b);
    if lo <= hi then s[lo..hi] else []
  }

  predicate StartsWith<T(==)>(s: seq<T>, prefix: seq<T>) {
    |prefix| <= |s| && s[..|prefix|] == prefix
  }
}
