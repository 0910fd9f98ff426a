/** Decimal and hexadecimal digit strings: Python's `int(s)`, `int(s, 16)`,
    `'%0Nx'` formatting, and `bytes.fromhex`. */
module Numerals {
  import opened Bytes
  import opened Errors

  predicate IsDecDigit(c: char) {
    '0' <= c <= '9'
  }

  /** The digits `int(s, 16)` and `bytes.fromhex` accept, in either case. */
  predicate IsHexDigit(c: char) {
    '0' <= c <= '9' || 'a' <= c <= 'f' || 'A' <= c <= 'F'
  }

  predicate IsDigit(c: char, base: nat) {
    if base == 10 then IsDecDigit(c) else IsHexDigit(c)
  }

  predicate AllDigits(s: string, base: nat) {
    forall i :: 0 <= i < |s| ==> IsDigit(s[i], base)
  }

  function DigitValue(c: char): (d: nat)
    requires IsHexDigit(c)
    ensures d < 16
    ensures IsDecDigit(c) ==> d < 10
  {
    if '0' <= c <= '9' then c as int - '0' as int
    else if 'a' <= c <= 'f' then c as int - 'a' as int + 10
    else c as int - 'A' as int + 10
  }

  /** The lower-case digit Python's `%x` writes for d. */
  function DigitChar(d: nat): (c: char)
    requires d < 16
    ensures IsHexDigit(c) && DigitValue(c) == d
    ensures d < 10 ==> IsDecDigit(c)
    ensures 'a' <= c <= 'f' || IsDecDigit(c)
  {
    if d < 10 then ('0' as int + d) as char else ('a' as int + d - 10) as char
  }

  /** The value of a digit string, most significant digit first. */
  function ParseNat(s: string, base: nat): nat
    requires base == 10 || base == 16
    requires AllDigits(s, base)
  {
    if |s| == 0 then 0
    else ParseNat(s[..|s| - 1], base) * base + DigitValue(s[|s| - 1])
  }

  /** The shortest digit string of n, lower case (`str(n)`, `'%x' % n`). */
  function FormatNat(n: nat, base: nat): (s: string)
    requires base == 10 || base == 16
    ensures 1 <= |s|
    ensures AllDigits(s, base)
    ensures forall i :: 0 <= i < |s| ==> 'a' <= s[i] <= 'f' || IsDecDigit(s[i])
  {
    if n < base then [DigitChar(n)] else FormatNat(n / base, base) + [DigitChar(n % base)]
  }

  lemma {:induction false} ParseFormatNat(n: nat, base: nat)
    requires base == 10 || base == 16
    ensures ParseNat(FormatNat(n, base), base) == n
  {
    if n >= base {
      var s := FormatNat(n, base);
      assert s[..|s| - 1] == FormatNat(n / base, base);
      ParseFormatNat(n / base, base);
    }
  }

  function Pow(base: nat, k: nat): nat {
    if k == 0 then 1 else base * Pow(base, k - 1)
  }

  /** A value below base^k needs at most k digits. */
  lemma {:induction false} FormatNatLength(n: nat, base: nat, k: nat)
    requires base == 10 || base == 16
    requires 1 <= k && n < Pow(base, k)
    ensures |FormatNat(n, base)| <= k
  {
    if n >= base {
      assert Pow(base, 1) == base;
      assert k != 1;
      assert n / base < Pow(base, k - 1);
      FormatNatLength(n / base, base, k - 1);
    }
  }

  lemma FormatNatFits(n: nat, width: nat)
    ensures n < Pow(16, width) && width >= 1 ==> |FormatNat(n, 16)| <= width
  {
    if n < Pow(16, width) && width >= 1 {
      FormatNatLength(n, 16, width);
    }
  }

  function Repeat(c: char, n: nat): (s: string)
    ensures |s| == n
    ensures forall i :: 0 <= i < n ==> s[i] == c
  {
    seq(n, _ => c)
  }

  lemma {:induction false} LeadingZeros(z: nat, s: string, base: nat)
    requires base == 10 || base == 16
    requires AllDigits(s, base)
    ensures AllDigits(Repeat('0', z) + s, base)
    ensures ParseNat(Repeat('0', z) + s, base) == ParseNat(s, base)
    decreases |s|
  {
    var t := Repeat('0', z) + s;
    if |s| == 0 {
      assert t == Repeat('0', z);
      ZerosParseToZero(z, base);
    } else {
      assert t[..|t| - 1] == Repeat('0', z) + s[..|s| - 1];
      LeadingZeros(z, s[..|s| - 1], base);
    }
  }

  lemma {:induction false} ZerosParseToZero(z: nat, base: nat)
    requires base == 10 || base == 16
    ensures AllDigits(Repeat('0', z), base)
    ensures ParseNat(Repeat('0', z), base) == 0
  {
    if z > 0 {
      assert Repeat('0', z)[..z - 1] == Repeat('0', z - 1);
      ZerosParseToZero(z - 1, base);
    }
  }

  /** Python's `'%0*x' % (width, n)`: lower-case hex, zero-padded to width. */
  function FormatHex(n: nat, width: nat): (s: string)
    ensures AllDigits(s, 16)
    ensures ParseNat(s, 16) == n
    ensures |s| >= width
    ensures n < Pow(16, width) && width >= 1 ==> |s| == width
  {
    var digits := FormatNat(n, 16);
    ParseFormatNat(n, 16);
    var z := if |digits| < width then width - |digits| else 0;
    LeadingZeros(z, digits, 16);
    FormatNatFits(n, width);
    Repeat('0', z) + digits
  }

  /** `bytes.fromhex`: pairs of hex digits, one byte per pair. */
  function FromHex(s: string): (r: Result<seq<byte>>)
    ensures r.Success? <==> |s| % 2 == 0 && AllDigits(s, 16)
    ensures r.Success? ==> |r.value| * 2 == |s|
    ensures r.Failure? ==> r.error == BadHexString
  {
    if |s| == 0 then Success([])
    else if |s| == 1 then Failure(BadHexString)
    else if !IsHexDigit(s[0]) || !IsHexDigit(s[1]) then
      assert !IsDigit(s[0], 16) || !IsDigit(s[1], 16);
      Failure(BadHexString)
    else
      var b := ByteOf(16 * DigitValue(s[0]) + DigitValue(s[1]));
      assert AllDigits(s, 16) <==> AllDigits(s[2..], 16) by {
        if AllDigits(s[2..], 16) {
          forall i | 0 <= i < |s| ensures IsDigit(s[i], 16) {
            if i >= 2 { assert s[i] == s[2..][i - 2]; }
          }
        }
      }
      assert |s[2..]| % 2 == |s| % 2;
      match FromHex(s[2..])
      case Failure(e) => Failure(e)
      case Success(rest) => Success([b] + rest)
  }

  /** `bytes.hex()`: two lower-case digits per byte. */
  function ToHex(b: seq<byte>): (s: string)
    ensures |s| == 2 * |b|
    ensures forall i :: 0 <= i < |s| ==> 'a' <= s[i] <= 'f' || IsDecDigit(s[i])
  {
    if |b| == 0 then ""
    else [DigitChar(b[0] as int / 16), DigitChar(b[0] as int % 16)] + ToHex(b[1..])
  }

  lemma HexPairOfByte(b: byte)
    ensures var hi, lo := DigitChar(b as int / 16), DigitChar(b as int % 16);
      ByteOf(16 * DigitValue(hi) + DigitValue(lo)) == b
  {
    var x := b as int;
    assert ByteOf(x) == b;
  }

  lemma {:induction false} FromHexOfToHex(b: seq<byte>)
    ensures FromHex(ToHex(b)) == Success(b)
  {
    if |b| > 0 {
      var s := ToHex(b);
      assert s[2..] == ToHex(b[1..]);
      FromHexOfToHex(b[1..]);
      HexPairOfByte(b[0]);
      assert s[..2] == [DigitChar(b[0] as int / 16), DigitChar(b[0] as int % 16)];
      assert FromHex(s[2..]) == Success(b[1..]);
      assert [b[0]] + b[1..] == b;
    }
  }
}
