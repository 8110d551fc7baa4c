/** Model of the `Bytes` codec of the `encoding` module: big-endian (network
    byte order) integers on byte buffers, and upper-case hexadecimal text
    (the Base 16 alphabet of section 8 of RFC 4648).

    The four operations of the source are imperative loops; each is a method
    here, proved against a pure specification function (`EncodeBE`,
    `BigEndian`, `ToHex`, `DecodeHex`). The two round trips the crate's tests
    check on sampled inputs, their reverses, the lengths and the error case
    are lemmas about those functions for all inputs. */
module Encoding {

  type byte = x: int | 0 <= x < 0x100
  /** The value of one hex digit. */
  type nibble = x: int | 0 <= x < 0x10
  type u32 = x: int | 0 <= x < 0x1_0000_0000

  datatype Option<T> = None | Some(value: T)

  datatype Result<T, E> = Ok(value: T) | Err(error: E)

  /** The kinds of `ParseIntError` that `u8::from_str_radix` can raise: an
      empty text, a character that is not a digit, a value above 255.
      `DecodeHexErrorKind` shows that only an invalid digit reaches the
      callers of `from_hexstr`. */
  datatype HexError = Empty | InvalidDigit | PosOverflow

  // ---------------------------------------------------------------------
  // Integers in network byte order
  // ---------------------------------------------------------------------

  function Pow256(n: nat): (r: nat)
    ensures r >= 1
  {
    if n == 0 then 1 else 256 * Pow256(n - 1)
  }

  /** `x >> (8 * n)` on a `u32`. A shift by 32 bits or more panics when
      overflow checks are on and is taken modulo 32 otherwise; neither is
      modelled, hence the precondition. */
  function ShiftRightBytes(x: u32, n: nat): u32
    requires n < 4
  {
    var q := x / Pow256(n);
    DivLe(x, Pow256(n));
    q
  }

  /** `x << (8 * n)` on a `u32`: the bits shifted past bit 31 are lost. A
      shift by 32 bits or more panics when overflow checks are on and is
      taken modulo 32 otherwise; neither is modelled. */
  function ShiftLeftBytes(x: u32, n: nat): u32
    requires n < 4
  {
    (x * Pow256(n)) % 0x1_0000_0000
  }

  /** The `n`-th least significant byte of `val`, `(val >> 8n) & 0xFF`. */
  function ByteAt(val: nat, n: nat): byte
  {
    (val / Pow256(n)) % 0x100
  }

  /** `val` written on `len` bytes in network byte order: the least
      significant byte last, higher bytes dropped. */
  function EncodeBE(val: nat, len: nat): (r: seq<byte>)
    ensures |r| == len
  {
    seq(len, i requires 0 <= i < len => ByteAt(val, len - 1 - i))
  }

  /** The value of a big-endian byte string: the sum of
      `s[|s| - 1 - n] * 256^n` over all `n`. */
  function BigEndian(s: seq<byte>): nat
  {
    if s == [] then 0 else s[0] * Pow256(|s| - 1) + BigEndian(s[1..])
  }

  /** `Bytes::from_u32`: overwrites the whole caller-supplied buffer with the
      low `bytes.Length` bytes of `val`, least significant byte last. The
      source shifts by `8 * n` for every index `n`; from 32 bits on that
      shift panics (overflow checks on) or wraps (off), so the buffer holds
      at most four bytes here. */
  method FromU32(val: u32, bytes: array<byte>)
    requires bytes.Length <= 4
    modifies bytes
    ensures bytes[..] == EncodeBE(val, bytes.Length)
    ensures forall n :: 0 <= n < bytes.Length ==> bytes[bytes.Length - 1 - n] == ByteAt(val, n)
  {
    var size := bytes.Length;
    for n := 0 to size
      invariant forall k :: size - n <= k < size ==> bytes[k] == ByteAt(val, size - 1 - k)
    {
      var idx := (size - 1) - n;
      bytes[idx] := ShiftRightBytes(val, n) % 0x100;
    }
  }

  /** `Bytes::to_u32`: the big-endian value of the buffer. For at most four
      bytes the accumulation never overflows a `u32`, and the value is below
      `256^|bytes|` (so an empty buffer gives 0). */
  method ToU32(bytes: seq<byte>) returns (val: u32)
    requires |bytes| <= 4
    ensures val == BigEndian(bytes)
    ensures val < Pow256(|bytes|)
  {
    val := 0;
    var size := |bytes|;
    for n := 0 to size
      invariant val == BigEndian(bytes[size - n..])
      invariant val < Pow256(n)
    {
      var idx := (size - 1) - n;
      assert bytes[idx..] == [bytes[idx]] + bytes[size - n..];
      assert BigEndian(bytes[idx..]) == bytes[idx] * Pow256(n) + val;
      ShiftLeftFits(bytes[idx], val, n);
      val := val + ShiftLeftBytes(bytes[idx], n);
    }
    assert bytes[0..] == bytes;
    BigEndianBound(bytes);
  }

  lemma DivLe(x: nat, p: nat)
    requires p >= 1
    ensures 0 <= x / p <= x
  {
    if x / p > x {
      MulLe(x + 1, x / p, p);
    }
  }

  lemma MulLe(a: nat, b: nat, c: nat)
    requires a <= b
    ensures a * c <= b * c
  {
  }

  lemma {:induction false} Pow256Le(m: nat, n: nat)
    requires m <= n
    ensures Pow256(m) <= Pow256(n)
  {
    if m < n {
      Pow256Le(m, n - 1);
    }
  }

  /** A byte shifted left by `8 * n` (`n < 4`) keeps all its bits, and adding
      it to a value below `256^n` stays within a `u32`. */
  lemma ShiftLeftFits(b: byte, val: nat, n: nat)
    requires n < 4 && val < Pow256(n)
    ensures ShiftLeftBytes(b, n) == b * Pow256(n)
    ensures val + b * Pow256(n) < Pow256(n + 1) <= 0x1_0000_0000
  {
    Pow256Le(n + 1, 4);
    MulLe(b, 255, Pow256(n));
  }

  lemma DivModUnique(x: int, m: int, q: int, r: int)
    requires m > 0 && 0 <= r < m && x == q * m + r
    ensures x / m == q && x % m == r
  {
    var q', r' := x / m, x % m;
    assert (q - q') * m == r' - r;
    if q > q' {
      MulLe(1, q - q', m);
    } else if q < q' {
      MulLe(1, q' - q, m);
    }
  }

  /** The remainder modulo `256 * p` splits into the byte above `p` and the
      remainder modulo `p`. */
  lemma ModSplit(x: nat, p: nat)
    requires p >= 1
    ensures x % (256 * p) == ((x / p) % 256) * p + x % p
  {
    var q, r := x / p, x % p;
    var hi, lo := q / 256, q % 256;
    assert q * p == (hi * 256 + lo) * p == hi * (256 * p) + lo * p;
    MulLe(lo, 255, p);
    DivModUnique(x, 256 * p, hi, lo * p + r);
  }

  /** A big-endian value on `|s|` bytes is below `256^|s|`. */
  lemma {:induction false} BigEndianBound(s: seq<byte>)
    ensures BigEndian(s) < Pow256(|s|)
  {
    if s != [] {
      BigEndianBound(s[1..]);
      MulLe(s[0], 255, Pow256(|s| - 1));
    }
  }

  /** Integer round trip: decoding what `from_u32` wrote gives `val` modulo
      `256^len`, hence `val` itself when it fits in `len` bytes. */
  lemma {:induction false} DecodeEncode(val: nat, len: nat)
    ensures BigEndian(EncodeBE(val, len)) == val % Pow256(len)
    ensures val < Pow256(len) ==> BigEndian(EncodeBE(val, len)) == val
  {
    if len > 0 {
      var e := EncodeBE(val, len);
      assert e[1..] == EncodeBE(val, len - 1);
      var p := Pow256(len - 1);
      assert e[0] == ByteAt(val, len - 1);
      assert BigEndian(e) == e[0] * p + BigEndian(e[1..]);
      DecodeEncode(val, len - 1);
      ModSplit(val, p);
      assert Pow256(len) == 256 * p;
      assert BigEndian(e) == val % Pow256(len);
    } else {
      assert val % 1 == 0;
    }
    if val < Pow256(len) {
      DivModUnique(val, Pow256(len), 0, val);
    }
  }

  /** Two byte strings of one length with the same big-endian value are equal. */
  lemma {:induction false} BigEndianInjective(s: seq<byte>, t: seq<byte>)
    requires |s| == |t| && BigEndian(s) == BigEndian(t)
    ensures s == t
  {
    if s != [] {
      var p := Pow256(|s| - 1);
      BigEndianBound(s[1..]);
      BigEndianBound(t[1..]);
      DivModUnique(BigEndian(s), p, s[0], BigEndian(s[1..]));
      DivModUnique(BigEndian(t), p, t[0], BigEndian(t[1..]));
      BigEndianInjective(s[1..], t[1..]);
      assert s == [s[0]] + s[1..] && t == [t[0]] + t[1..];
    }
  }

  /** The other round trip: re-encoding the value of a buffer on the same
      length gives back the buffer. */
  lemma EncodeDecode(s: seq<byte>)
    ensures EncodeBE(BigEndian(s), |s|) == s
  {
    BigEndianBound(s);
    DecodeEncode(BigEndian(s), |s|);
    BigEndianInjective(EncodeBE(BigEndian(s), |s|), s);
  }

  // ---------------------------------------------------------------------
  // Hexadecimal text
  // ---------------------------------------------------------------------

  /** The upper-case hex digit for a nibble. */
  function HexDigit(k: nibble): char
  {
    if k < 10 then ('0' as int + k) as char else ('A' as int + k - 10) as char
  }

  predicate IsUpperHexChar(c: char)
  {
    '0' <= c <= '9' || 'A' <= c <= 'F'
  }

  predicate IsUpperHex(s: string)
  {
    forall j :: 0 <= j < |s| ==> IsUpperHexChar(s[j])
  }

  /** Every character is one byte of UTF-8 text. */
  predicate IsAscii(s: string)
  {
    forall j :: 0 <= j < |s| ==> s[j] as int < 0x80
  }

  /** `format!("{:02X}", b)`: two upper-case hex digits, high nibble first. */
  function HexPair(b: byte): string
  {
    [HexDigit(b / 16), HexDigit(b % 16)]
  }

  /** The hex text of a byte string: each byte's pair, in order. */
  function ToHex(bytes: seq<byte>): string
  {
    if bytes == [] then "" else ToHex(bytes[..|bytes| - 1]) + HexPair(bytes[|bytes| - 1])
  }

  /** Characters `2i` and `2i + 1` of `s`, the `i`-th pair. */
  function Pair(s: string, i: nat): string
    requires 2 * i + 2 <= |s|
  {
    s[2 * i..2 * i + 2]
  }

  /** `char::to_digit(16)`: the value of a hex digit of either case. */
  function DigitValue(c: char): Option<nibble>
  {
    if '0' <= c <= '9' then Some(c as int - '0' as int)
    else if 'A' <= c <= 'F' then Some(c as int - 'A' as int + 10)
    else if 'a' <= c <= 'f' then Some(c as int - 'a' as int + 10)
    else None
  }

  /** The digit loop of `u8::from_str_radix(_, 16)`: each character must be
      a digit, and the value accumulated so far times 16 plus the digit must
      stay within a byte. */
  function ParseDigits(digits: string, acc: byte): Result<byte, HexError>
    decreases |digits|
  {
    if digits == [] then Ok(acc)
    else match DigitValue(digits[0])
      case None => Err(InvalidDigit)
      case Some(d) =>
        if acc * 16 + d > 0xFF then Err(PosOverflow)
        else ParseDigits(digits[1..], acc * 16 + d)
  }

  /** `u8::from_str_radix(src, 16)`: an empty text is an error, and so is a
      lone sign; like every unsigned parse in Rust it skips one leading '+'
      (a '-' is an invalid digit); digits of either case are accepted. */
  function FromStrRadix16(src: string): Result<byte, HexError>
  {
    if src == [] then Err(Empty)
    else if (src[0] == '+' || src[0] == '-') && |src| == 1 then Err(InvalidDigit)
    else if src[0] == '+' then ParseDigits(src[1..], 0)
    else ParseDigits(src, 0)
  }

  /** The parse `from_hexstr` applies to one pair of characters: a pair
      parses exactly when it is '+' and one hex digit, or two hex digits,
      and every failure is an invalid digit (two hex digits never exceed a
      byte, and the text is never empty). */
  function ParseHexByte(pair: string): (r: Result<byte, HexError>)
    requires |pair| == 2
    ensures r.Err? ==> r.error == InvalidDigit
    ensures r.Ok? <==>
      (pair[0] == '+' && DigitValue(pair[1]).Some?) ||
      (DigitValue(pair[0]).Some? && DigitValue(pair[1]).Some?)
    ensures r.Ok? && pair[0] == '+' ==> r.value == DigitValue(pair[1]).value
    ensures r.Ok? && pair[0] != '+' ==>
      r.value == 16 * DigitValue(pair[0]).value + DigitValue(pair[1]).value
  {
    ParsePair(pair);
    FromStrRadix16(pair)
  }

  lemma ParsePair(pair: string)
    requires |pair| == 2
    ensures pair[0] == '+' ==> FromStrRadix16(pair) == ParseDigits([pair[1]], 0)
    ensures pair[0] != '+' && DigitValue(pair[0]).None? ==> FromStrRadix16(pair) == Err(InvalidDigit)
    ensures pair[0] != '+' && DigitValue(pair[0]).Some? ==>
              FromStrRadix16(pair) == ParseDigits([pair[1]], DigitValue(pair[0]).value)
  {
    assert pair[1..] == [pair[1]];
    ParseLastDigit(pair[1], 0);
    if DigitValue(pair[0]).Some? {
      ParseLastDigit(pair[1], DigitValue(pair[0]).value);
    }
  }

  /** The digit loop on its last character. */
  lemma ParseLastDigit(c: char, acc: byte)
    ensures ParseDigits([c], acc) ==
      match DigitValue(c)
      case None => Err(InvalidDigit)
      case Some(d) => if acc * 16 + d > 0xFF then Err(PosOverflow) else Ok(acc * 16 + d)
  {
    assert [c][1..] == [];
  }

  /** `pre` prepended to a successful decoding; errors pass through. */
  function Prefixed(pre: seq<byte>, r: Result<seq<byte>, HexError>): Result<seq<byte>, HexError>
  {
    match r
    case Ok(rest) => Ok(pre + rest)
    case Err(e) => Err(e)
  }

  /** Decoding from pair `n` on: pair `n` is parsed, then the rest. */
  lemma DecodeHexStep(s: string, n: nat)
    requires 2 * n + 2 <= |s|
    ensures DecodeHex(s[2 * n..]) ==
      match ParseHexByte(s[2 * n..2 * n + 2])
      case Err(e) => Err(e)
      case Ok(b) => Prefixed([b], DecodeHex(s[2 * (n + 1)..]))
  {
    var rest := s[2 * n..];
    assert rest[..2] == s[2 * n..2 * n + 2];
    assert rest[2..] == s[2 * (n + 1)..];
  }

  lemma PrefixedNil(r: Result<seq<byte>, HexError>)
    ensures Prefixed([], r) == r
  {
    if r.Ok? {
      assert [] + r.value == r.value;
    }
  }

  lemma PrefixedAppend(pre: seq<byte>, b: byte, r: Result<seq<byte>, HexError>)
    ensures Prefixed(pre, Prefixed([b], r)) == Prefixed(pre + [b], r)
  {
    if r.Ok? {
      assert pre + ([b] + r.value) == (pre + [b]) + r.value;
    }
  }

  /** The bytes of hex text, pair by pair from the front; the first pair
      that does not parse makes the whole decoding fail, and a trailing odd
      character is never looked at. */
  function DecodeHex(s: string): Result<seq<byte>, HexError>
    decreases |s|
  {
    if |s| < 2 then Ok([])
    else match ParseHexByte(s[..2])
      case Err(e) => Err(e)
      case Ok(b) => Prefixed([b], DecodeHex(s[2..]))
  }

  /** `Bytes::to_hexstring`: two upper-case hex digits per byte, high nibble
      first, in the order of the bytes. */
  method ToHexString(bytes: seq<byte>) returns (hex: string)
    ensures hex == ToHex(bytes)
    ensures |hex| == 2 * |bytes| && IsUpperHex(hex)
    ensures forall i :: 0 <= i < |bytes| ==> Pair(hex, i) == HexPair(bytes[i])
  {
    hex := "";
    for i := 0 to |bytes|
      invariant hex == ToHex(bytes[..i])
    {
      assert bytes[..i + 1][..i] == bytes[..i];
      hex := hex + HexPair(bytes[i]);
    }
    assert bytes[..|bytes|] == bytes;
    ToHexAt(bytes);
    ToHexIsUpperHex(bytes);
  }

  /** `Bytes::from_hexstr`: parses `|hex| / 2` pairs in order, pushing each
      byte, and returns the first parse error. The source slices the text by
      byte offsets, which panics inside a multi-byte character, so the text
      is ASCII here. */
  method FromHexStr(hex: string) returns (r: Result<seq<byte>, HexError>)
    requires IsAscii(hex)
    ensures r == DecodeHex(hex)
  {
    var hexBytes: seq<byte> := [];
    assert hex[2 * 0..] == hex;
    PrefixedNil(DecodeHex(hex));
    for n := 0 to |hex| / 2
      invariant Prefixed(hexBytes, DecodeHex(hex[2 * n..])) == DecodeHex(hex)
    {
      var hexByte := hex[n * 2..n * 2 + 2];
      DecodeHexStep(hex, n);
      match ParseHexByte(hexByte) {
        case Ok(v) =>
          PrefixedAppend(hexBytes, v, DecodeHex(hex[2 * (n + 1)..]));
          hexBytes := hexBytes + [v];
        case Err(e) =>
          return Err(e);
      }
    }
    assert |hex[2 * (|hex| / 2)..]| < 2;
    assert hexBytes + [] == hexBytes;
    r := Ok(hexBytes);
  }

  /** `Bytes::from_hexstring`: the same decoding, on an owned string. */
  method FromHexString(hex: string) returns (r: Result<seq<byte>, HexError>)
    requires IsAscii(hex)
    ensures r == DecodeHex(hex)
  {
    r := FromHexStr(hex);
  }

  /** The text whose UTF-8 encoding is the ASCII bytes `bytes`. */
  function AsciiText(bytes: seq<byte>): (s: string)
    requires forall i :: 0 <= i < |bytes| ==> bytes[i] < 0x80
    ensures |s| == |bytes| && IsAscii(s)
    ensures forall i :: 0 <= i < |bytes| ==> s[i] as int == bytes[i]
  {
    seq(|bytes|, i requires 0 <= i < |bytes| => bytes[i] as char)
  }

  /** `Bytes::from_hexbytes`: the same decoding of the text the bytes encode.
      The source unwraps the UTF-8 conversion, which panics on other bytes. */
  method FromHexBytes(bytes: seq<byte>) returns (r: Result<seq<byte>, HexError>)
    requires forall i :: 0 <= i < |bytes| ==> bytes[i] < 0x80
    ensures r == DecodeHex(AsciiText(bytes))
  {
    r := FromHexStr(AsciiText(bytes));
  }

  // ---------------------------------------------------------------------
  // Laws of the hex text
  // ---------------------------------------------------------------------

  /** `to_hexstring` renders byte `i` as characters `2i` and `2i + 1`. */
  lemma {:induction false} ToHexAt(bytes: seq<byte>)
    ensures |ToHex(bytes)| == 2 * |bytes|
    ensures forall i :: 0 <= i < |bytes| ==> Pair(ToHex(bytes), i) == HexPair(bytes[i])
  {
    if bytes != [] {
      var n := |bytes|;
      var init := bytes[..n - 1];
      ToHexAt(init);
      var h := ToHex(bytes);
      assert h == ToHex(init) + HexPair(bytes[n - 1]);
      forall i | 0 <= i < n
        ensures Pair(h, i) == HexPair(bytes[i])
      {
        if i < n - 1 {
          assert Pair(h, i) == Pair(ToHex(init), i);
          assert init[i] == bytes[i];
        } else {
          assert Pair(h, i) == h[2 * n - 2..];
        }
      }
    }
  }

  lemma HexPairIsUpperHex(b: byte)
    ensures IsUpperHexChar(HexPair(b)[0]) && IsUpperHexChar(HexPair(b)[1])
  {
  }

  /** `to_hexstring` uses only the upper-case digits `0-9A-F`. */
  lemma ToHexIsUpperHex(bytes: seq<byte>)
    ensures IsUpperHex(ToHex(bytes))
  {
    ToHexAt(bytes);
    var h := ToHex(bytes);
    forall j | 0 <= j < |h|
      ensures IsUpperHexChar(h[j])
    {
      var i := j / 2;
      assert h[j] == Pair(h, i)[j % 2];
      HexPairIsUpperHex(bytes[i]);
    }
  }

  /** Parsing a rendered pair gives back its byte. */
  lemma ParseHexPair(b: byte)
    ensures ParseHexByte(HexPair(b)) == Ok(b)
  {
  }

  /** An upper-case hex pair parses to the byte that renders as it. */
  lemma RenderParsedPair(p: string)
    requires |p| == 2 && IsUpperHexChar(p[0]) && IsUpperHexChar(p[1])
    ensures ParseHexByte(p).Ok? && HexPair(ParseHexByte(p).value) == p
  {
    var h: int, l: int := DigitValue(p[0]).value, DigitValue(p[1]).value;
    DivModUnique(16 * h + l, 16, h, l);
  }

  /** `from_hexstr` succeeds exactly when every one of the `|s| / 2` pairs
      parses; it then returns one byte per pair, byte `i` being the value of
      pair `i`. */
  lemma {:induction false} DecodeHexSpec(s: string)
    ensures DecodeHex(s).Ok? <==> forall i :: 0 <= i < |s| / 2 ==> ParseHexByte(Pair(s, i)).Ok?
    ensures DecodeHex(s).Ok? ==> |DecodeHex(s).value| == |s| / 2
    ensures DecodeHex(s).Ok? ==>
      forall i :: 0 <= i < |s| / 2 ==> DecodeHex(s).value[i] == ParseHexByte(Pair(s, i)).value
    decreases |s|
  {
    if |s| >= 2 {
      var t := s[2..];
      DecodeHexSpec(t);
      assert Pair(s, 0) == s[..2];
      assert |t| / 2 == |s| / 2 - 1;
      forall i | 1 <= i < |s| / 2
        ensures Pair(s, i) == Pair(t, i - 1)
      {
      }
      match ParseHexByte(s[..2])
      case Err(_) =>
      case Ok(b) =>
        if DecodeHex(t).Ok? {
          var v := DecodeHex(t).value;
          assert DecodeHex(s).value == [b] + v;
          forall i | 0 <= i < |s| / 2
            ensures ParseHexByte(Pair(s, i)).Ok?
          {
            if i > 0 {
              assert ParseHexByte(Pair(t, i - 1)).Ok?;
            }
          }
        } else {
          var k :| 0 <= k < |t| / 2 && ParseHexByte(Pair(t, k)).Err?;
          assert ParseHexByte(Pair(s, k + 1)).Err?;
        }
    }
  }

  /** The error case: a pair that does not parse makes `from_hexstr` fail,
      with the invalid-digit error. */
  lemma DecodeHexFails(s: string, k: nat)
    requires 2 * k + 2 <= |s| && ParseHexByte(Pair(s, k)).Err?
    ensures DecodeHex(s) == Err(InvalidDigit)
  {
    DecodeHexSpec(s);
    DecodeHexErrorKind(s);
  }

  lemma {:induction false} DecodeHexErrorKind(s: string)
    ensures DecodeHex(s).Err? ==> DecodeHex(s).error == InvalidDigit
    decreases |s|
  {
    if |s| >= 2 {
      DecodeHexErrorKind(s[2..]);
    }
  }

  /** A trailing odd character is ignored. */
  lemma {:induction false} DecodeHexIgnoresOddChar(s: string, c: char)
    requires |s| % 2 == 0
    ensures DecodeHex(s + [c]) == DecodeHex(s)
    decreases |s|
  {
    if |s| >= 2 {
      var sc := s + [c];
      assert sc[..2] == s[..2];
      assert sc[2..] == s[2..] + [c];
      DecodeHexIgnoresOddChar(s[2..], c);
    }
  }

  /** Hex round trip: `from_hexstr(to_hexstring(b)) == Ok(b)`. */
  lemma DecodeToHex(bytes: seq<byte>)
    ensures DecodeHex(ToHex(bytes)) == Ok(bytes)
  {
    var h := ToHex(bytes);
    ToHexAt(bytes);
    forall i | 0 <= i < |h| / 2
      ensures ParseHexByte(Pair(h, i)) == Ok(bytes[i])
    {
      ParseHexPair(bytes[i]);
    }
    DecodeHexSpec(h);
    var v := DecodeHex(h).value;
    assert forall i :: 0 <= i < |bytes| ==> v[i] == bytes[i];
    assert v == bytes;
  }

  /** Two texts of one even length that agree pair by pair are equal. */
  lemma SamePairs(h: string, s: string)
    requires |h| == |s| && |s| % 2 == 0
    requires forall i :: 0 <= i < |s| / 2 ==> Pair(h, i) == Pair(s, i)
    ensures h == s
  {
    forall j | 0 <= j < |s|
      ensures h[j] == s[j]
    {
      var i := j / 2;
      assert h[j] == Pair(h, i)[j % 2];
      assert s[j] == Pair(s, i)[j % 2];
    }
  }

  /** The other hex round trip: `to_hexstring(from_hexstr(s)) == s` for
      even-length upper-case hex text. */
  lemma ToHexDecode(s: string)
    requires |s| % 2 == 0 && IsUpperHex(s)
    ensures DecodeHex(s).Ok? && ToHex(DecodeHex(s).value) == s
  {
    forall i | 0 <= i < |s| / 2
      ensures ParseHexByte(Pair(s, i)).Ok? && HexPair(ParseHexByte(Pair(s, i)).value) == Pair(s, i)
    {
      assert Pair(s, i)[0] == s[2 * i] && Pair(s, i)[1] == s[2 * i + 1];
      RenderParsedPair(Pair(s, i));
    }
    DecodeHexSpec(s);
    var b := DecodeHex(s).value;
    ToHexAt(b);
    SamePairs(ToHex(b), s);
  }

  /** The '+' that `u8::from_str_radix` accepts: "+A" decodes to the byte 10,
      which renders back as "0A", so the text round trip needs plain hex
      digits. */
  lemma PlusSignAccepted()
    ensures DecodeHex("+A") == Ok([10])
    ensures ToHex([10]) == "0A"
  {
    var s := "+A";
    assert s[..2] == s && |s[2..]| == 0;
    assert ParseHexByte(s) == Ok(10);
    assert [10] + [] == [10];
    assert [10][..0] == [];
  }
}
