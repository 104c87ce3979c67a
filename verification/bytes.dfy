/** Byte helpers of the codec: hexadecimal parsing, signed byte reads, and
    big- or little-endian reads and appends of 32- and 64-bit words.

    The `Data` revision and the `NSData`/`NSMutableData` revision of these
    helpers behave identically, so both are modelled here once. A buffer is
    a `seq<uint8>`. The host is taken to be little-endian (every Apple
    platform is), so loading a raw `UInt32` and taking `.bigEndian` yields the
    big-endian reading of the four bytes, and `.littleEndian` the
    little-endian one. */
module Bytes {
  import opened Wrappers

  type uint8 = x: int | 0 <= x < 0x100
  type int8 = x: int | -0x80 <= x < 0x80
  type uint16 = x: int | 0 <= x < 0x1_0000
  type uint32 = x: int | 0 <= x < 0x1_0000_0000
  type uint64 = x: int | 0 <= x < 0x1_0000_0000_0000_0000

  /** 256 to the power `n`: the number of values `n` bytes can hold. */
  function Pow256(n: nat): (r: nat)
    ensures r > 0
  {
    if n == 0 then 1 else 256 * Pow256(n - 1)
  }

  /** The two's-complement reading of a byte as a Swift `Int8`. */
  function ToSigned(b: uint8): (s: int8)
    ensures s < 0 <==> b >= 0x80
    ensures s % 0x100 == b
  {
    if b < 0x80 then b else b - 0x100
  }

  /** The byte an `Int8` occupies in memory (its bit pattern). */
  function ToUnsigned(s: int8): (b: uint8)
    ensures b % 0x80 == s % 0x80
    ensures s < 0 <==> b >= 0x80
  {
    if s < 0 then s + 0x100 else s
  }

  lemma SignedRoundTrip(b: uint8, s: int8)
    ensures ToUnsigned(ToSigned(b)) == b
    ensures ToSigned(ToUnsigned(s)) == s
  {
  }

  // ---------------------------------------------------------------------
  // Big- and little-endian readings of a byte string.

  /** The big-endian value of `s`: the first byte is the most significant. */
  function BigEndian(s: seq<uint8>): nat
    decreases |s|
  {
    if |s| == 0 then 0 else BigEndian(s[..|s| - 1]) * 256 + s[|s| - 1]
  }

  /** The little-endian value of `s`: the first byte is the least significant. */
  function LittleEndian(s: seq<uint8>): nat
    decreases |s|
  {
    if |s| == 0 then 0 else s[0] + 256 * LittleEndian(s[1..])
  }

  /** Reading a concatenation big-endian: the front bytes are the high part. */
  lemma {:induction false} BigEndianConcat(a: seq<uint8>, b: seq<uint8>)
    ensures BigEndian(a + b) == BigEndian(a) * Pow256(|b|) + BigEndian(b)
    decreases |b|
  {
    if |b| == 0 {
      assert a + b == a;
    } else {
      var ab := a + b;
      var init := b[..|b| - 1];
      var x, p, y, z := BigEndian(a), Pow256(|init|), BigEndian(init), b[|b| - 1];
      calc {
        BigEndian(ab);
        == { assert ab[..|ab| - 1] == a + init && ab[|ab| - 1] == z;
             BigEndianConcat(a, init); }
        (x * p + y) * 256 + z;
        == { ShiftDistributes(x, p, y, z); }
        x * (256 * p) + (y * 256 + z);
        == { assert BigEndian(b) == y * 256 + z && Pow256(|b|) == 256 * p; }
        BigEndian(a) * Pow256(|b|) + BigEndian(b);
      }
    }
  }

  lemma ShiftDistributes(x: int, p: int, y: int, z: int)
    ensures (x * p + y) * 256 + z == x * (256 * p) + (y * 256 + z)
  {
  }

  /** Reading a concatenation little-endian: the back bytes are the high part. */
  lemma {:induction false} LittleEndianConcat(a: seq<uint8>, b: seq<uint8>)
    ensures LittleEndian(a + b) == LittleEndian(a) + Pow256(|a|) * LittleEndian(b)
    decreases |a|
  {
    if |a| == 0 {
      assert a + b == b;
    } else {
      var ab := a + b;
      var z, x, p, y := a[0], LittleEndian(a[1..]), Pow256(|a| - 1), LittleEndian(b);
      calc {
        LittleEndian(ab);
        == { assert ab[1..] == a[1..] + b && ab[0] == z;
             LittleEndianConcat(a[1..], b); }
        z + 256 * (x + p * y);
        == { ShiftDistributesLow(z, x, p, y); }
        (z + 256 * x) + (256 * p) * y;
        == { assert LittleEndian(a) == z + 256 * x && Pow256(|a|) == 256 * p; }
        LittleEndian(a) + Pow256(|a|) * y;
      }
    }
  }

  lemma ShiftDistributesLow(z: int, x: int, p: int, y: int)
    ensures z + 256 * (x + p * y) == (z + 256 * x) + (256 * p) * y
  {
  }

  // ---------------------------------------------------------------------
  // Reads (`getByte`, `getUnsignedInteger`, `getUnsignedLong`).

  /** `getByte(at:)`: the byte at `i`, reinterpreted as a signed `Int8`. */
  function GetByte(d: seq<uint8>, i: int): (r: int8)
    requires 0 <= i < |d|
    ensures ToUnsigned(r) == d[i]
    ensures 0 <= r <==> d[i] < 0x80
  {
    ToSigned(d[i])
  }

  /** `getUnsignedInteger(at:bigEndian:)`: the 32-bit word at `i..i+4`, the
      raw load byte-swapped (`.bigEndian`) or not (`.littleEndian`) on a
      little-endian host. */
  function GetUnsignedInteger(d: seq<uint8>, i: int, bigEndian: bool): (r: uint32)
    requires 0 <= i && i + 4 <= |d|
  {
    if bigEndian then (d[i] as int) * 0x100_0000 + (d[i + 1] as int) * 0x1_0000 + (d[i + 2] as int) * 0x100 + d[i + 3]
    else (d[i + 3] as int) * 0x100_0000 + (d[i + 2] as int) * 0x1_0000 + (d[i + 1] as int) * 0x100 + d[i]
  }

  /** The 32-bit read is the big- or little-endian value of the four bytes. */
  lemma WordReadsEndian(d: seq<uint8>, i: int)
    requires 0 <= i && i + 4 <= |d|
    ensures GetUnsignedInteger(d, i, true) == BigEndian(d[i..i + 4])
    ensures GetUnsignedInteger(d, i, false) == LittleEndian(d[i..i + 4])
  {
    var w := d[i..i + 4];
    assert w[..3][..2][..1][..0] == [];
    assert w[..3][..2] == w[..2] && w[..3][..2][..1] == w[..1];
    assert BigEndian(w[..1]) == w[0];
    assert BigEndian(w[..2]) == (w[0] as int) * 256 + w[1];
    assert BigEndian(w[..3]) == ((w[0] as int) * 256 + w[1]) * 256 + w[2];
    assert w[1..][1..][1..][1..] == [];
    assert w[1..][1..] == w[2..] && w[1..][1..][1..] == w[3..];
    assert LittleEndian(w[3..]) == w[3];
    assert LittleEndian(w[2..]) == (w[2] as int) + 256 * (w[3] as int);
    assert LittleEndian(w[1..]) == (w[1] as int) + 256 * ((w[2] as int) + 256 * (w[3] as int));
  }

  /** `getUnsignedLong(at:bigEndian:)`: the 64-bit word at `i..i+8`. Its
      big-endian reading has the first four bytes as the high word; its
      little-endian reading the last four. */
  function GetUnsignedLong(d: seq<uint8>, i: int, bigEndian: bool): (r: uint64)
    requires 0 <= i && i + 8 <= |d|
  {
    if bigEndian then GetUnsignedInteger(d, i, true) * 0x1_0000_0000 + GetUnsignedInteger(d, i + 4, true)
    else GetUnsignedInteger(d, i + 4, false) * 0x1_0000_0000 + GetUnsignedInteger(d, i, false)
  }

  /** The 64-bit read is the big- or little-endian value of the eight bytes. */
  lemma LongReadsEndian(d: seq<uint8>, i: int)
    requires 0 <= i && i + 8 <= |d|
    ensures GetUnsignedLong(d, i, true) == BigEndian(d[i..i + 8])
    ensures GetUnsignedLong(d, i, false) == LittleEndian(d[i..i + 8])
  {
    var w, lo, hi := d[i..i + 8], d[i..i + 4], d[i + 4..i + 8];
    assert w == lo + hi;
    BigEndianConcat(lo, hi);
    LittleEndianConcat(lo, hi);
    assert Pow256(4) == 0x1_0000_0000;
    WordReadsEndian(d, i);
    WordReadsEndian(d, i + 4);
  }

  /** Reads below the old length are unaffected by anything appended after it. */
  lemma ReadsIgnoreSuffix(d: seq<uint8>, e: seq<uint8>, i: int)
    requires 0 <= i
    ensures i < |d| ==> GetByte(d + e, i) == GetByte(d, i)
    ensures i + 4 <= |d| ==> GetUnsignedInteger(d + e, i, true) == GetUnsignedInteger(d, i, true)
    ensures i + 8 <= |d| ==> GetUnsignedLong(d + e, i, true) == GetUnsignedLong(d, i, true)
  {
  }

  // ---------------------------------------------------------------------
  // Appends (`append(byte:)`, `append(unsignedInteger:)`, `append(unsignedLong:)`).

  /** The four bytes of `x`, most significant first or last. */
  function WordBytes(x: uint32, bigEndian: bool): (r: seq<uint8>)
    ensures |r| == 4
    ensures GetUnsignedInteger(r, 0, bigEndian) == x
  {
    var b3, b2, b1, b0 := x / 0x100_0000, (x / 0x1_0000) % 0x100, (x / 0x100) % 0x100, x % 0x100;
    WordDigits(x);
    if bigEndian then [b3, b2, b1, b0] else [b0, b1, b2, b3]
  }

  /** A word is the sum of its four bytes at their positions. */
  lemma WordDigits(x: uint32)
    ensures x == (x / 0x100_0000) * 0x100_0000 + ((x / 0x1_0000) % 0x100) * 0x1_0000 + ((x / 0x100) % 0x100) * 0x100 + x % 0x100
  {
    var y1, y2, y3 := x / 0x100, x / 0x1_0000, x / 0x100_0000;
    assert x == y1 * 0x100 + x % 0x100;
    assert y1 == y2 * 0x100 + y1 % 0x100 by {
      assert x == (y2 * 0x100 + y1 % 0x100) * 0x100 + x % 0x100;
    }
    assert y2 == y3 * 0x100 + y2 % 0x100;
  }

  /** `append(byte:)`: one byte, the bit pattern of the `Int8`. */
  function AppendByte(d: seq<uint8>, b: int8): (r: seq<uint8>)
    ensures |r| == |d| + 1
    ensures r[..|d|] == d
    ensures GetByte(r, |d|) == b
  {
    d + [ToUnsigned(b)]
  }

  /** `append(unsignedInteger:bigEndian:)`: four bytes in the chosen order. */
  function AppendUnsignedInteger(d: seq<uint8>, x: uint32, bigEndian: bool): (r: seq<uint8>)
    ensures |r| == |d| + 4
    ensures r[..|d|] == d
    ensures GetUnsignedInteger(r, |d|, bigEndian) == x
  {
    var w := WordBytes(x, bigEndian);
    assert GetUnsignedInteger(d + w, |d|, bigEndian) == GetUnsignedInteger(w, 0, bigEndian);
    d + w
  }

  /** `append(unsignedLong:bigEndian:)`: eight bytes in the chosen order. */
  function AppendUnsignedLong(d: seq<uint8>, x: uint64, bigEndian: bool): (r: seq<uint8>)
    ensures |r| == |d| + 8
    ensures r[..|d|] == d
    ensures GetUnsignedLong(r, |d|, bigEndian) == x
  {
    var high, low := x / 0x1_0000_0000, x % 0x1_0000_0000;
    var w := if bigEndian then WordBytes(high, true) + WordBytes(low, true)
             else WordBytes(low, false) + WordBytes(high, false);
    var r := d + w;
    assert GetUnsignedInteger(r, |d|, bigEndian) == GetUnsignedInteger(w, 0, bigEndian);
    assert GetUnsignedInteger(r, |d| + 4, bigEndian) == GetUnsignedInteger(w[4..], 0, bigEndian);
    r
  }

  /** A big-endian long is written as its high word followed by its low word. */
  lemma AppendLongOfWords(d: seq<uint8>, high: uint32, low: uint32)
    ensures high * 0x1_0000_0000 + low < 0x1_0000_0000_0000_0000
    ensures AppendUnsignedLong(d, high * 0x1_0000_0000 + low, true) == d + (WordBytes(high, true) + WordBytes(low, true))
  {
    DivideExactly(high, low, 0x1_0000_0000);
  }

  /** The bytes of a word are determined by its big-endian read. */
  lemma WordBytesOfRead(d: seq<uint8>, i: int)
    requires 0 <= i && i + 4 <= |d|
    ensures d[i..i + 4] == WordBytes(GetUnsignedInteger(d, i, true), true)
  {
    var a, b, c, e := d[i] as int, d[i + 1] as int, d[i + 2] as int, d[i + 3] as int;
    DivideExactly(a, b * 0x1_0000 + c * 0x100 + e, 0x100_0000);
    DivideExactly(a * 0x100 + b, c * 0x100 + e, 0x1_0000);
    DivideExactly(a, b, 0x100);
    DivideExactly(a * 0x1_0000 + b * 0x100 + c, e, 0x100);
    DivideExactly(a * 0x100 + b, c, 0x100);
  }

  /** Division by one of the word sizes recovers quotient and remainder. */
  lemma DivideExactly(q: int, r: int, k: int)
    requires k == 0x100 || k == 0x1_0000 || k == 0x100_0000 || k == 0x1_0000_0000
    requires 0 <= r < k
    ensures (q * k + r) / k == q && (q * k + r) % k == r
  {
  }

  // ---------------------------------------------------------------------
  // Hexadecimal strings (`init?(hex:)`).

  predicate IsHexDigit(c: char) {
    ('0' <= c <= '9') || ('a' <= c <= 'f') || ('A' <= c <= 'F')
  }

  function HexDigitValue(c: char): (v: nat)
    requires IsHexDigit(c)
    ensures v < 16
  {
    if '0' <= c <= '9' then c as int - '0' as int
    else if 'a' <= c <= 'f' then c as int - 'a' as int + 10
    else c as int - 'A' as int + 10
  }

  /** No sign characters: Swift's radix parser would accept "+f" as 15,
      a quirk this model leaves out. */
  predicate NoSignCharacters(s: string) {
    forall i :: 0 <= i < |s| ==> s[i] != '+' && s[i] != '-'
  }

  /** `UInt8("\(a)\(b)", radix: 16)` for sign-free characters. */
  function ParseHexPair(a: char, b: char): (r: Option<uint8>)
    ensures r.Some? <==> IsHexDigit(a) && IsHexDigit(b)
  {
    if IsHexDigit(a) && IsHexDigit(b) then Some(16 * HexDigitValue(a) + HexDigitValue(b)) else None
  }

  /** The pair loop of `init?(hex:)` on an even-length string. */
  function ParseHexPairs(s: string): (r: Option<seq<uint8>>)
    requires |s| % 2 == 0
    ensures r.Some? <==> forall i :: 0 <= i < |s| ==> IsHexDigit(s[i])
    ensures r.Some? ==> |r.value| == |s| / 2
    ensures r.Some? ==> forall i :: 0 <= i < |r.value| ==>
      r.value[i] == 16 * HexDigitValue(s[2 * i]) + HexDigitValue(s[2 * i + 1])
    decreases |s|
  {
    if |s| == 0 then Some([])
    else
      match ParseHexPair(s[0], s[1])
      case None => None
      case Some(b) =>
        match ParseHexPairs(s[2..])
        case None =>
          assert exists i :: 0 <= i < |s| - 2 && !IsHexDigit(s[2..][i]);
          None
        case Some(rest) =>
          var r := [b] + rest;
          assert forall i :: 1 <= i < |r| ==> r[i] == rest[i - 1] && s[2 * i] == s[2..][2 * (i - 1)];
          Some(r)
  }

  /** `init?(hex:)`: nil for an odd length or any non-hex character; otherwise
      byte `i` is the value of characters `2i` and `2i+1`. */
  function DataFromHex(s: string): (r: Option<seq<uint8>>)
    requires NoSignCharacters(s)
    ensures r.None? <==> |s| % 2 != 0 || exists i :: 0 <= i < |s| && !IsHexDigit(s[i])
    ensures r.Some? ==> |r.value| == |s| / 2
    ensures r.Some? ==> forall i :: 0 <= i < |r.value| ==>
      r.value[i] == 16 * HexDigitValue(s[2 * i]) + HexDigitValue(s[2 * i + 1])
  {
    if |s| % 2 != 0 then None else ParseHexPairs(s)
  }

  function HexDigitChar(v: nat): (c: char)
    requires v < 16
    ensures IsHexDigit(c) && HexDigitValue(c) == v
  {
    if v < 10 then ('0' as int + v) as char else ('a' as int + v - 10) as char
  }

  /** The lower-case hexadecimal spelling of a buffer, the inverse of `DataFromHex`. */
  function HexFromData(d: seq<uint8>): (s: string)
    ensures |s| == 2 * |d|
    ensures forall i :: 0 <= i < |s| ==> IsHexDigit(s[i])
    ensures forall i :: 0 <= i < |d| ==> s[2 * i] == HexDigitChar(d[i] / 16) && s[2 * i + 1] == HexDigitChar(d[i] % 16)
  {
    if |d| == 0 then ""
    else
      var rest := HexFromData(d[1..]);
      var s := [HexDigitChar(d[0] / 16), HexDigitChar(d[0] % 16)] + rest;
      assert forall i :: 1 <= i < |d| ==> s[2 * i] == rest[2 * (i - 1)] && d[i] == d[1..][i - 1];
      s
  }

  /** Spelling a buffer in hex and parsing it back yields the buffer. */
  lemma HexRoundTrip(d: seq<uint8>)
    ensures NoSignCharacters(HexFromData(d))
    ensures DataFromHex(HexFromData(d)) == Some(d)
  {
    var s := HexFromData(d);
    forall i | 0 <= i < |s| ensures s[i] != '+' && s[i] != '-' {
      assert IsHexDigit(s[i]);
    }
    PairsOfHexSpelling(d);
  }

  lemma {:induction false} PairsOfHexSpelling(d: seq<uint8>)
    ensures ParseHexPairs(HexFromData(d)) == Some(d)
  {
    if |d| > 0 {
      var rest := HexFromData(d[1..]);
      var hi, lo := HexDigitChar(d[0] / 16), HexDigitChar(d[0] % 16);
      var s := [hi, lo] + rest;
      assert HexFromData(d) == s;
      assert s[2..] == rest && s[0] == hi && s[1] == lo;
      PairsOfHexSpelling(d[1..]);
      HexPairOfByte(d[0]);
      assert [d[0]] + d[1..] == d;
    }
  }

  lemma HexPairOfByte(b: uint8)
    ensures ParseHexPair(HexDigitChar(b / 16), HexDigitChar(b % 16)) == Some(b)
  {
    var hi, lo := HexDigitChar(b / 16), HexDigitChar(b % 16);
    assert IsHexDigit(hi) && HexDigitValue(hi) == b / 16;
    assert IsHexDigit(lo) && HexDigitValue(lo) == b % 16;
  }
}
