/**
 * Byte-level encodings the frame builders and the template engine share:
 * `str.encode("utf-16le")`, `str.encode("utf-8")`, `int.to_bytes`,
 * `bytes.hex()` and `binascii.unhexlify`.
 */
module Encoding {
  import opened Base

  // ---------------------------------------------------------------- UTF-16LE

  /** The UTF-16 code units of one character: one unit inside the Basic Multilingual Plane, a surrogate pair outside it. */
  function Utf16Units(c: char): (r: seq<int>)
    ensures |r| == 1 || |r| == 2
    ensures forall i :: 0 <= i < |r| ==> 0 <= r[i] < 0x10000
    ensures |r| == 1 <==> c as int < 0x10000
  {
    var x := c as int;
    if x < 0x10000 then [x]
    else [0xD800 + (x - 0x10000) / 0x400, 0xDC00 + (x - 0x10000) % 0x400]
  }

  /** One code unit, low byte first. */
  function UnitBytes(u: int): (r: seq<Byte>)
    requires 0 <= u < 0x10000
    ensures |r| == 2 && (r[0] as int) + 256 * (r[1] as int) == u
  {
    [u % 256, u / 256]
  }

  function Utf16LeChar(c: char): (r: seq<Byte>)
    ensures |r| == 2 * |Utf16Units(c)|
  {
    var units := Utf16Units(c);
    if |units| == 1 then UnitBytes(units[0]) else UnitBytes(units[0]) + UnitBytes(units[1])
  }

  /** `s.encode("utf-16le")` */
  function Utf16Le(s: string): (r: seq<Byte>)
    ensures |r| % 2 == 0 && |r| >= 2 * |s|
  {
    if s == [] then [] else Utf16LeChar(s[0]) + Utf16Le(s[1..])
  }

  /** The number of UTF-16 code units of `s`, the unit every byte budget of the protocol counts in. */
  function CodeUnits(s: string): nat {
    if s == [] then 0 else |Utf16Units(s[0])| + CodeUnits(s[1..])
  }

  lemma {:induction false} Utf16LeLength(s: string)
    ensures |Utf16Le(s)| == 2 * CodeUnits(s)
  {
    if s != [] {
      Utf16LeLength(s[1..]);
    }
  }

  /** Text made only of Basic Multilingual Plane characters takes exactly two bytes per character. */
  lemma {:induction false} Utf16LeBmpLength(s: string)
    requires forall i :: 0 <= i < |s| ==> s[i] as int < 0x10000
    ensures |Utf16Le(s)| == 2 * |s|
  {
    if s != [] {
      Utf16LeBmpLength(s[1..]);
    }
  }

  lemma {:induction false} Utf16LeAppend(a: string, b: string)
    ensures Utf16Le(a + b) == Utf16Le(a) + Utf16Le(b)
  {
    if a == [] {
      assert a + b == b;
    } else {
      assert (a + b)[1..] == a[1..] + b;
      Utf16LeAppend(a[1..], b);
    }
  }

  /** The NUL character encodes to two zero bytes. */
  lemma Utf16LeNul()
    ensures Utf16Le("\0") == [0, 0]
  {
  }

  /** The wide-character decoding the protocol's receiver applies: little-endian code units, surrogate pairs joined. */
  function DecodeUtf16Le(b: seq<Byte>): Option<string>
    decreases |b|
  {
    if b == [] then Some([])
    else if |b| < 2 then None
    else
      var u := (b[0] as int) + 256 * (b[1] as int);
      if u < 0xD800 || 0xE000 <= u then
        match DecodeUtf16Le(b[2..])
        case None => None
        case Some(rest) => Some([u as char] + rest)
      else if u < 0xDC00 && |b| >= 4 && 0xDC00 <= (b[2] as int) + 256 * (b[3] as int) < 0xE000 then
        var w := (b[2] as int) + 256 * (b[3] as int);
        match DecodeUtf16Le(b[4..])
        case None => None
        case Some(rest) => Some([(0x10000 + (u - 0xD800) * 0x400 + (w - 0xDC00)) as char] + rest)
      else None
  }

  /** Decoding the encoding of any text gives the text back. */
  lemma {:induction false} Utf16LeRoundTrip(s: string)
    ensures DecodeUtf16Le(Utf16Le(s)) == Some(s)
  {
    if s != [] {
      var c := s[0];
      var e := Utf16Le(s);
      Utf16LeRoundTrip(s[1..]);
      var x := c as int;
      if x < 0x10000 {
        assert e[..2] == UnitBytes(x);
        assert e[2..] == Utf16Le(s[1..]);
        assert (x as char) == c;
      } else {
        var hi := 0xD800 + (x - 0x10000) / 0x400;
        var lo := 0xDC00 + (x - 0x10000) % 0x400;
        assert e[..2] == UnitBytes(hi);
        assert e[2..4] == UnitBytes(lo);
        assert e[4..] == Utf16Le(s[1..]);
        assert 0x10000 + (hi - 0xD800) * 0x400 + (lo - 0xDC00) == x;
      }
      assert [c] + s[1..] == s;
    }
  }

  // ------------------------------------------------------------------ UTF-8

  /** The UTF-8 bytes of one character. */
  function Utf8Char(c: char): (r: seq<Byte>)
    ensures 1 <= |r| <= 4
    ensures |r| == 1 <==> c as int < 0x80
    ensures |r| == 1 ==> r[0] == c as int
  {
    var x := c as int;
    if x < 0x80 then [x]
    else if x < 0x800 then [0xC0 + x / 0x40, 0x80 + x % 0x40]
    else if x < 0x10000 then [0xE0 + x / 0x1000, 0x80 + (x / 0x40) % 0x40, 0x80 + x % 0x40]
    else [0xF0 + x / 0x40000, 0x80 + (x / 0x1000) % 0x40, 0x80 + (x / 0x40) % 0x40, 0x80 + x % 0x40]
  }

  /** `s.encode("utf-8")` */
  function Utf8(s: string): (r: seq<Byte>)
    ensures |r| >= |s|
  {
    if s == [] then [] else Utf8Char(s[0]) + Utf8(s[1..])
  }

  /** ASCII text encodes to its own character codes, one byte each. */
  lemma {:induction false} Utf8Ascii(s: string)
    requires forall i :: 0 <= i < |s| ==> s[i] as int < 0x80
    ensures |Utf8(s)| == |s|
    ensures forall i :: 0 <= i < |s| ==> Utf8(s)[i] == s[i] as int
  {
    if s != [] {
      Utf8Ascii(s[1..]);
    }
  }

  // ------------------------------------------------------------ integers

  /** The low `n` bytes of `v`, least significant first: `v.to_bytes(n, "little")` once `v` fits. */
  function LittleEndian(v: nat, n: nat): (r: seq<Byte>)
    ensures |r| == n
  {
    if n == 0 then [] else [v % 256] + LittleEndian(v / 256, n - 1)
  }

  /** `int.from_bytes(b, "little")` */
  function FromLittleEndian(b: seq<Byte>): nat {
    if b == [] then 0 else b[0] + 256 * FromLittleEndian(b[1..])
  }

  /** `v.to_bytes(n, "big")` once `v` fits: the little-endian bytes in the opposite order. */
  function BigEndian(v: nat, n: nat): (r: seq<Byte>)
    ensures |r| == n
  {
    Reverse(LittleEndian(v, n))
  }

  lemma {:induction false} FromLittleEndianBound(b: seq<Byte>)
    ensures FromLittleEndian(b) < Pow256(|b|)
  {
    if b != [] {
      FromLittleEndianBound(b[1..]);
    }
  }

  /** Decoding the little-endian bytes of a value that fits gives the value back. */
  lemma {:induction false} LittleEndianRoundTrip(v: nat, n: nat)
    requires v < Pow256(n)
    ensures FromLittleEndian(LittleEndian(v, n)) == v
  {
    if n > 0 {
      LittleEndianRoundTrip(v / 256, n - 1);
      assert LittleEndian(v, n)[1..] == LittleEndian(v / 256, n - 1);
    }
  }

  /** Encoding the value of any byte string reproduces that byte string. */
  lemma {:induction false} LittleEndianOfValue(b: seq<Byte>)
    ensures LittleEndian(FromLittleEndian(b), |b|) == b
  {
    if b != [] {
      LittleEndianOfValue(b[1..]);
      var v := FromLittleEndian(b);
      assert v % 256 == b[0] && v / 256 == FromLittleEndian(b[1..]);
      assert [b[0]] + b[1..] == b;
    }
  }

  /** The little-endian 32-bit field at offset `i` of a frame. */
  function U32At(f: seq<Byte>, i: nat): nat
    requires i + 4 <= |f|
  {
    (f[i] as int) + 256 * (f[i + 1] as int) + 65536 * (f[i + 2] as int) + 16777216 * (f[i + 3] as int)
  }

  /** Reading a field is decoding its four bytes as a little-endian number. */
  lemma U32AtLittleEndian(f: seq<Byte>, i: nat)
    requires i + 4 <= |f|
    ensures U32At(f, i) == FromLittleEndian(f[i..i + 4])
  {
    var w := f[i..i + 4];
    assert w[1..][1..][1..][1..] == [];
    assert FromLittleEndian(w[1..][1..][1..]) == w[3] as int;
    assert FromLittleEndian(w[1..][1..]) == (w[2] as int) + 256 * (w[3] as int);
    assert FromLittleEndian(w[1..]) == (w[1] as int) + 256 * ((w[2] as int) + 256 * (w[3] as int));
  }

  /** A field inside the first part of a concatenation is read from that part. */
  lemma U32AtPrefix(a: seq<Byte>, b: seq<Byte>, j: nat)
    requires j + 4 <= |a|
    ensures U32At(a + b, j) == U32At(a, j)
  {
  }

  /** A field inside the second part of a concatenation is read from that part, shifted. */
  lemma U32AtShift(a: seq<Byte>, b: seq<Byte>, j: nat)
    requires j + 4 <= |b|
    ensures U32At(a + b, |a| + j) == U32At(b, j)
  {
  }

  /** A field read from a slice that contains it. */
  lemma U32AtSlice(f: seq<Byte>, lo: nat, hi: nat, j: nat)
    requires lo + j + 4 <= hi <= |f|
    ensures U32At(f, lo + j) == U32At(f[lo..hi], j)
  {
  }

  /** Why `int.to_bytes` raises: ValueError for a negative length, OverflowError for a value that does not fit. */
  datatype ToBytesError = NegativeLength | TooBig

  /** `v.to_bytes(n, "little" if little else "big")` */
  function ToBytes(v: int, n: int, little: bool): (r: Result<seq<Byte>, ToBytesError>)
    ensures r.Ok? <==> 0 <= n && 0 <= v < Pow256(n)
    ensures r == Err(NegativeLength) <==> n < 0
    ensures r.Ok? ==> |r.value| == n
    ensures r.Ok? && little ==> FromLittleEndian(r.value) == v
    ensures r.Ok? && !little ==> FromLittleEndian(Reverse(r.value)) == v
  {
    if n < 0 then Err(NegativeLength)
    else if v < 0 || v >= Pow256(n) then Err(TooBig)
    else
      LittleEndianRoundTrip(v, n);
      ReverseReverse(LittleEndian(v, n));
      Ok(if little then LittleEndian(v, n) else BigEndian(v, n))
  }

  /** A 32-bit little-endian field for a value known to fit. */
  function Le32(v: nat): (r: seq<Byte>)
    requires v < 0x1_0000_0000
    ensures |r| == 4 && FromLittleEndian(r) == v && U32At(r, 0) == v
  {
    LittleEndianRoundTrip(v, 4);
    U32AtLittleEndian(LittleEndian(v, 4), 0);
    assert LittleEndian(v, 4)[0..4] == LittleEndian(v, 4);
    LittleEndian(v, 4)
  }

  // ------------------------------------------------------------------- hex

  /** The lower-case hexadecimal digit for `d < 16`. */
  function HexChar(d: nat): (c: char)
    requires d < 16
    ensures c as int < 0x80
  {
    if d < 10 then ('0' as int + d) as char else ('a' as int + d - 10) as char
  }

  /** `bytes.hex()`: two lower-case hexadecimal digits per byte. */
  function Hex(b: seq<Byte>): (r: string)
    ensures |r| == 2 * |b|
  {
    if b == [] then [] else [HexChar(b[0] / 16), HexChar(b[0] % 16)] + Hex(b[1..])
  }

  function HexDigitValue(c: char): (r: Option<nat>)
    ensures r.Some? ==> r.value < 16
  {
    if '0' <= c <= '9' then Some(c as int - '0' as int)
    else if 'a' <= c <= 'f' then Some(c as int - 'a' as int + 10)
    else if 'A' <= c <= 'F' then Some(c as int - 'A' as int + 10)
    else None
  }

  /** Why `binascii.unhexlify` fails on a text argument. */
  datatype HexError = NonAscii | OddLength | NonHexDigit

  predicate IsAscii(s: string) {
    forall i :: 0 <= i < |s| ==> s[i] as int < 0x80
  }

  predicate AllHexDigits(s: string) {
    forall i :: 0 <= i < |s| ==> HexDigitValue(s[i]).Some?
  }

  /** The byte a pair of hexadecimal digits stands for, high digit first. */
  function PairValue(hi: char, lo: char): (r: Byte)
    requires HexDigitValue(hi).Some? && HexDigitValue(lo).Some?
    ensures r / 16 == HexDigitValue(hi).value && r % 16 == HexDigitValue(lo).value
  {
    HexDigitValue(hi).value * 16 + HexDigitValue(lo).value
  }

  /** Decoding pairs of digits, either case: byte `i` is the pair at `2 * i`. */
  function HexPairs(s: string): (r: Result<seq<Byte>, HexError>)
    requires |s| % 2 == 0
    ensures r.Ok? <==> AllHexDigits(s)
    ensures r.Ok? ==> |r.value| * 2 == |s|
    ensures r.Ok? ==> forall i :: 0 <= i < |r.value| ==> r.value[i] == PairValue(s[2 * i], s[2 * i + 1])
    ensures r.Err? ==> r.error == NonHexDigit
  {
    if s == [] then Ok([])
    else
      var hi := HexDigitValue(s[0]);
      var lo := HexDigitValue(s[1]);
      if hi.None? || lo.None? then Err(NonHexDigit)
      else
        var rest := HexPairs(s[2..]);
        if rest.Err? then
          assert !AllHexDigits(s[2..]);
          rest
        else
          assert forall i :: 2 <= i < |s| ==> s[i] == s[2..][i - 2];
          Ok([PairValue(s[0], s[1])] + rest.value)
  }

  /** `binascii.unhexlify(s)`: ASCII is checked first, then the length, then the digits. */
  function Unhexlify(s: string): (r: Result<seq<Byte>, HexError>)
    ensures r.Ok? <==> IsAscii(s) && |s| % 2 == 0 && AllHexDigits(s)
    ensures r == Err(NonAscii) <==> !IsAscii(s)
    ensures r == Err(OddLength) <==> IsAscii(s) && |s| % 2 == 1
    ensures r.Ok? ==> 2 * |r.value| == |s|
    ensures r.Ok? ==> forall i :: 0 <= i < |r.value| ==> r.value[i] == PairValue(s[2 * i], s[2 * i + 1])
  {
    if !IsAscii(s) then Err(NonAscii)
    else if |s| % 2 == 1 then Err(OddLength)
    else HexPairs(s)
  }

  /** `unhexlify` undoes `hex()`. */
  lemma {:induction false} UnhexlifyHex(b: seq<Byte>)
    ensures Unhexlify(Hex(b)) == Ok(b)
  {
    HexPairsHex(b);
    HexIsAscii(b);
  }

  /** `c` with `A`..`Z` in lower case. */
  function LowerChar(c: char): char {
    if 'A' <= c <= 'Z' then (c as int + 32) as char else c
  }

  /** The text with `A`..`Z` in lower case. */
  function LowerAscii(s: string): (r: string)
    ensures |r| == |s|
    ensures forall i :: 0 <= i < |s| ==> r[i] == LowerChar(s[i])
  {
    if s == [] then [] else [LowerChar(s[0])] + LowerAscii(s[1..])
  }

  /** A hexadecimal digit of either case is rewritten as the lower-case digit of its value. */
  lemma HexCharOfDigit(c: char)
    requires HexDigitValue(c).Some?
    ensures HexChar(HexDigitValue(c).value) == LowerChar(c)
  {
  }

  /**
   * `unhexlify` takes digits of either case: writing its bytes back with
   * `hex()` gives the text in lower case.
   */
  lemma {:induction false} UnhexlifyLowerCase(s: string)
    requires Unhexlify(s).Ok?
    ensures Hex(Unhexlify(s).value) == LowerAscii(s)
  {
    HexPairsLowerCase(s);
  }

  lemma {:induction false} HexPairsLowerCase(s: string)
    requires |s| % 2 == 0 && HexPairs(s).Ok?
    ensures Hex(HexPairs(s).value) == LowerAscii(s)
  {
    if s != [] {
      var b := HexPairs(s).value;
      var rest := s[2..];
      assert HexPairs(rest).Ok? && b == [PairValue(s[0], s[1])] + HexPairs(rest).value;
      HexPairsLowerCase(rest);
      HexCharOfDigit(s[0]);
      HexCharOfDigit(s[1]);
      assert s[1..][1..] == rest;
      assert LowerAscii(s) == [LowerChar(s[0]), LowerChar(s[1])] + LowerAscii(rest);
    }
  }

  lemma {:induction false} HexPairsHex(b: seq<Byte>)
    ensures HexPairs(Hex(b)) == Ok(b)
  {
    if b != [] {
      HexPairsHex(b[1..]);
      var h := Hex(b);
      assert h[2..] == Hex(b[1..]);
      assert HexDigitValue(h[0]) == Some(b[0] / 16);
      assert HexDigitValue(h[1]) == Some(b[0] % 16);
      assert [b[0]] + b[1..] == b;
    }
  }

  lemma {:induction false} HexIsAscii(b: seq<Byte>)
    ensures IsAscii(Hex(b))
  {
    if b != [] {
      HexIsAscii(b[1..]);
    }
  }

  lemma {:induction false} HexAppend(a: seq<Byte>, b: seq<Byte>)
    ensures Hex(a + b) == Hex(a) + Hex(b)
  {
    if a == [] {
      assert a + b == b;
    } else {
      assert (a + b)[1..] == a[1..] + b;
      HexAppend(a[1..], b);
    }
  }
}
