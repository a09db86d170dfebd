/**
 * `hex_to_color` (src/color.c): a colour written as an optional `#` and 3, 4,
 * 6 or 8 hexadecimal digits, packed into a 32-bit RRGGBBAA word and split
 * into four channels of byte/255.
 *
 * The digits are converted by the C library's `strtol(str, NULL, 16)`, which
 * is modelled here as glibc defines it for a 64-bit `long`: leading white
 * space is skipped, one `+` or `-` is accepted, an optional `0x`/`0X` is
 * skipped, and the longest run of hexadecimal digits after that is the value
 * (0 when there is none). At most eight characters reach `strtol`, so the
 * value never saturates; storing it into a `uint32_t` reduces it modulo 2^32.
 *
 * The argument is a C string, so it is modelled as its bytes: lengths are
 * byte counts, as `strlen` gives them, and a character outside ASCII counts
 * once per byte of its encoding.
 */
module HexColor {
  import opened Base

  /** `struct color`: four channels; the parse-failure sentinel has all four at -1. */
  datatype Color = Color(r: real, g: real, b: real, a: real)

  const Invalid: Color := Color(-1.0, -1.0, -1.0, -1.0)

  /** The number of values of a `uint32_t`. */
  const Word: nat := 0x1_0000_0000

  /** The colour whose channels are the four given bytes, each divided by 255. */
  function FromBytes(r: byte, g: byte, b: byte, a: byte): Color
  {
    Color(r as real / 255.0, g as real / 255.0, b as real / 255.0, a as real / 255.0)
  }

  predicate InUnitRange(c: Color)
  {
    0.0 <= c.r <= 1.0 && 0.0 <= c.g <= 1.0 && 0.0 <= c.b <= 1.0 && 0.0 <= c.a <= 1.0
  }

  /** The ASCII bytes the parser looks at. */
  const Hash: byte := 0x23
  const Plus: byte := 0x2B
  const Minus: byte := 0x2D
  const Zero: byte := 0x30
  const UpperX: byte := 0x58
  const LowerX: byte := 0x78

  /** The bytes of a string of ASCII characters. */
  function Ascii(s: string): (t: Text)
    requires forall i | 0 <= i < |s| :: s[i] < 128 as char
    ensures |t| == |s| && forall i | 0 <= i < |s| :: t[i] == s[i] as int
  {
    seq(|s|, i requires 0 <= i < |s| => s[i] as int)
  }

  // ---------------------------------------------------------------------
  // strtol(s, NULL, 16)
  // ---------------------------------------------------------------------

  /** `isspace` in the C locale: space, and tab through carriage return. */
  predicate IsSpace(c: byte)
  {
    c == 0x20 || 0x09 <= c <= 0x0D
  }

  /** `0`-`9`, `a`-`f` and `A`-`F`. */
  predicate IsHexDigit(c: byte)
  {
    0x30 <= c <= 0x39 || 0x61 <= c <= 0x66 || 0x41 <= c <= 0x46
  }

  predicate AllHex(s: Text)
  {
    forall i | 0 <= i < |s| :: IsHexDigit(s[i])
  }

  function DigitValue(c: byte): (d: nat)
    requires IsHexDigit(c)
    ensures d < 16
  {
    if 0x30 <= c <= 0x39 then c - 0x30
    else if 0x61 <= c <= 0x66 then c - 0x61 + 10
    else c - 0x41 + 10
  }

  function Pow16(n: nat): (p: nat)
    ensures p > 0
  {
    if n == 0 then 1 else 16 * Pow16(n - 1)
  }

  /** The number a run of hexadecimal digits denotes, most significant digit first. */
  function HexValue(digits: Text): (v: nat)
    requires AllHex(digits)
    ensures v < Pow16(|digits|)
  {
    if digits == [] then 0
    else HexValue(digits[..|digits| - 1]) * 16 + DigitValue(digits[|digits| - 1])
  }

  /** The longest prefix of `s` made of hexadecimal digits: where `strtol` stops reading. */
  function HexRun(s: Text): (run: Text)
    ensures run <= s && AllHex(run)
    ensures |run| == |s| || !IsHexDigit(s[|run|])
  {
    if s == [] || !IsHexDigit(s[0]) then []
    else [s[0]] + HexRun(s[1..])
  }

  function SkipSpace(s: Text): (t: Text)
    ensures |t| <= |s|
    ensures t == [] || !IsSpace(t[0])
    decreases |s|
  {
    if s != [] && IsSpace(s[0]) then SkipSpace(s[1..]) else s
  }

  /** The value `strtol(s, NULL, 16)` returns, for a 64-bit `long` and inputs of at most eight characters. */
  function Strtol16(s: Text): (v: int)
    ensures -(Pow16(|s|) as int) < v < Pow16(|s|)
  {
    var t := SkipSpace(s);
    var negative := t != [] && t[0] == Minus;
    var u := if t != [] && (t[0] == Minus || t[0] == Plus) then t[1..] else t;
    var w := if |u| >= 2 && u[0] == Zero && (u[1] == LowerX || u[1] == UpperX) then u[2..] else u;
    var run := HexRun(w);
    Pow16Monotone(|run|, |s|);
    var v: int := HexValue(run);
    if negative then -v else v
  }

  lemma {:induction false} Pow16Monotone(m: nat, n: nat)
    requires m <= n
    ensures Pow16(m) <= Pow16(n)
    decreases n
  {
    if m < n {
      Pow16Monotone(m, n - 1);
    }
  }

  /** Conversion of a `long` to `uint32_t`, which keeps the value modulo 2^32. */
  function ToUint32(v: int): (w: nat)
    ensures w < Word
  {
    v % Word
  }

  lemma ToUint32Small(v: int)
    requires 0 <= v < Word
    ensures ToUint32(v) == v
  {
  }

  /**
   * `val <<= 8; val |= 0xFF;` on a `uint32_t`: the shift drops the top byte and
   * leaves the low byte clear, so the OR puts 0xFF there.
   */
  function ShiftInAlpha(val: nat): (w: nat)
    requires val < Word
    ensures w < Word
  {
    (val * 256) % Word + 0xFF
  }

  /** The low byte of the shifted word is 0xFF, and above it sit the low three bytes of the old word. */
  lemma ShiftInAlphaLayout(val: nat)
    requires val < Word
    ensures ShiftInAlpha(val) % 0x100 == 0xFF
    ensures ShiftInAlpha(val) / 0x100 == val % 0x100_0000
  {
    var q, r := val / 0x100_0000, val % 0x100_0000;
    assert val * 256 == q * Word + r * 256;
    assert 0 <= r * 256 < Word;
    assert (val * 256) % Word == r * 256;
  }

  // ---------------------------------------------------------------------
  // hex_to_color
  // ---------------------------------------------------------------------

  /** At most one leading `#` is skipped. */
  function Strip(hex: Text): (h: Text)
    ensures |hex| - 1 <= |h| <= |hex| && h == hex[|hex| - |h|..]
    ensures |h| < |hex| ==> hex[0] == Hash
  {
    if hex != [] && hex[0] == Hash then hex[1..] else hex
  }

  predicate ValidLength(n: nat)
  {
    n == 3 || n == 4 || n == 6 || n == 8
  }

  /** The packed RRGGBBAA word for a digit string of an accepted length, None for any other length. */
  function PackedWord(h: Text): (w: Option<nat>)
    ensures w.Some? <==> ValidLength(|h|)
    ensures w.Some? ==> w.value < Word
  {
    if |h| == 3 then
      Some(ShiftInAlpha(ToUint32(Strtol16([h[0], h[0], h[1], h[1], h[2], h[2]]))))
    else if |h| == 4 then
      Some(ToUint32(Strtol16([h[0], h[0], h[1], h[1], h[2], h[2], h[3], h[3]])))
    else if |h| == 6 then
      Some(ShiftInAlpha(ToUint32(Strtol16(h))))
    else if |h| == 8 then
      Some(ToUint32(Strtol16(h)))
    else
      None
  }

  /** `(val & 0xFF000000) >> 24` and so on down to `val & 0xFF`, each over 255. */
  function Channels(val: nat): (c: Color)
    requires val < Word
    ensures InUnitRange(c)
  {
    FromBytes(val / 0x100_0000, (val / 0x1_0000) % 256, (val / 0x100) % 256, val % 256)
  }

  function HexToColor(hex: Text): (c: Color)
    requires 0 !in hex
    ensures c == Invalid <==> !ValidLength(|Strip(hex)|)
    ensures c != Invalid ==> InUnitRange(c)
  {
    match PackedWord(Strip(hex))
    case None => Invalid
    case Some(val) => Channels(val)
  }

  // ---------------------------------------------------------------------
  // What the four accepted forms mean
  // ---------------------------------------------------------------------

  lemma AllHexAppend(a: Text, b: Text)
    requires AllHex(a) && AllHex(b)
    ensures AllHex(a + b)
  {
    forall i | 0 <= i < |a + b| ensures IsHexDigit((a + b)[i]) {
      if i < |a| { assert (a + b)[i] == a[i]; } else { assert (a + b)[i] == b[i - |a|]; }
    }
  }

  lemma {:induction false} HexValueAppend(a: Text, b: Text)
    requires AllHex(a) && AllHex(b)
    ensures AllHex(a + b)
    ensures HexValue(a + b) == HexValue(a) * Pow16(|b|) + HexValue(b)
    decreases |b|
  {
    AllHexAppend(a, b);
    if b == [] {
      assert a + b == a;
    } else {
      var b' := b[..|b| - 1];
      var d := DigitValue(b[|b| - 1]);
      assert AllHex(b');
      AllHexAppend(a, b');
      HexValueAppend(a, b');
      assert HexValue(a + b) == HexValue(a + b') * 16 + d by {
        assert (a + b)[..|a + b| - 1] == a + b';
        assert (a + b)[|a + b| - 1] == b[|b| - 1];
      }
      assert Pow16(|b|) == Pow16(|b'|) * 16;
      assert HexValue(b) == HexValue(b') * 16 + d;
      ShiftDigit(HexValue(a), Pow16(|b'|), HexValue(b'), d);
    }
  }

  lemma ShiftDigit(x: int, p: int, y: int, d: int)
    ensures (x * p + y) * 16 + d == x * (p * 16) + (y * 16 + d)
  {
  }

  /** The byte a pair of hexadecimal digits denotes. */
  function PairByte(hi: byte, lo: byte): byte
    requires IsHexDigit(hi) && IsHexDigit(lo)
  {
    16 * DigitValue(hi) + DigitValue(lo)
  }

  lemma PairValue(s: Text)
    requires |s| == 2 && AllHex(s)
    ensures HexValue(s) == PairByte(s[0], s[1])
  {
    assert s[..1][..0] == [];
  }

  /** Strings of hexadecimal digits reach `strtol` unchanged: no space, sign or `0x` to skip. */
  lemma StrtolOfDigits(s: Text)
    requires s != [] && AllHex(s)
    ensures Strtol16(s) == HexValue(s)
  {
    assert SkipSpace(s) == s;
    assert HexRun(s) == s by { HexRunAll(s); }
  }

  lemma {:induction false} HexRunAll(s: Text)
    requires AllHex(s)
    ensures HexRun(s) == s
  {
    if s != [] {
      assert AllHex(s[1..]);
      HexRunAll(s[1..]);
    }
  }

  /** Appending a pair of digits shifts the value one byte up and adds the pair's byte. */
  lemma AppendPair(a: Text, hi: byte, lo: byte)
    requires AllHex(a) && IsHexDigit(hi) && IsHexDigit(lo)
    ensures AllHex(a + [hi, lo]) && HexValue(a + [hi, lo]) == HexValue(a) * 0x100 + PairByte(hi, lo)
  {
    HexValueAppend(a, [hi, lo]);
    PairValue([hi, lo]);
    assert Pow16(2) == 0x100;
  }

  /** The value of six digits, read as three pairs. */
  lemma SixDigitValue(h: Text)
    requires |h| == 6 && AllHex(h)
    ensures HexValue(h) == PairByte(h[0], h[1]) as int * 0x1_0000 + PairByte(h[2], h[3]) as int * 0x100
                           + PairByte(h[4], h[5]) as int
  {
    var h2 := [h[0], h[1]];
    var h4 := h2 + [h[2], h[3]];
    assert HexValue(h2) == PairByte(h[0], h[1]) by { PairValue(h2); }
    assert AllHex(h4) && HexValue(h4) == HexValue(h2) * 0x100 + PairByte(h[2], h[3]) by {
      AppendPair(h2, h[2], h[3]);
    }
    assert HexValue(h) == HexValue(h4) * 0x100 + PairByte(h[4], h[5]) by {
      AppendPair(h4, h[4], h[5]);
      assert h == h4 + [h[4], h[5]];
    }
  }

  /** The value of eight digits, read as four pairs. */
  lemma EightDigitValue(h: Text)
    requires |h| == 8 && AllHex(h)
    ensures HexValue(h) == PairByte(h[0], h[1]) as int * 0x100_0000 + PairByte(h[2], h[3]) as int * 0x1_0000
                           + PairByte(h[4], h[5]) as int * 0x100 + PairByte(h[6], h[7]) as int
  {
    var h6 := h[..6];
    assert AllHex(h6);
    assert HexValue(h6) == PairByte(h[0], h[1]) as int * 0x1_0000 + PairByte(h[2], h[3]) as int * 0x100
                           + PairByte(h[4], h[5]) as int by {
      SixDigitValue(h6);
    }
    assert HexValue(h) == HexValue(h6) * 0x100 + PairByte(h[6], h[7]) by {
      AppendPair(h6, h[6], h[7]);
      assert h == h6 + [h[6], h[7]];
    }
  }

  /** The RRGGBBAA word with the given channel bytes. */
  function Word4(r: byte, g: byte, b: byte, a: byte): (w: nat)
  {
    (r as int) * 0x100_0000 + (g as int) * 0x1_0000 + (b as int) * 0x100 + a as int
  }

  /** Splitting a word built from four bytes gives those bytes back. */
  lemma ChannelsOfBytes(r: byte, g: byte, b: byte, a: byte)
    ensures Word4(r, g, b, a) < Word
    ensures Channels(Word4(r, g, b, a)) == FromBytes(r, g, b, a)
  {
    var val := Word4(r, g, b, a);
    assert val / 0x100_0000 == r;
    assert val / 0x1_0000 == r * 0x100 + g;
    assert (val / 0x1_0000) % 256 == g;
    assert val / 0x100 == r * 0x1_0000 + g * 0x100 + b;
    assert (val / 0x100) % 256 == b;
    assert val % 256 == a;
  }

  /** Eight digits with the given pair values make the word with those bytes. */
  lemma EightDigitWord(s: Text)
    requires |s| == 8 && AllHex(s)
    ensures Strtol16(s) == Word4(PairByte(s[0], s[1]), PairByte(s[2], s[3]), PairByte(s[4], s[5]), PairByte(s[6], s[7]))
  {
    StrtolOfDigits(s);
    EightDigitValue(s);
  }

  /** Six digits with the given pair values make the word with those bytes. */
  lemma SixDigitWord(s: Text)
    requires |s| == 6 && AllHex(s)
    ensures Strtol16(s) == PairByte(s[0], s[1]) as int * 0x1_0000 + PairByte(s[2], s[3]) as int * 0x100 + PairByte(s[4], s[5]) as int
  {
    StrtolOfDigits(s);
    SixDigitValue(s);
  }

  /** A 24-bit RRGGBB value shifted up with alpha 0xFF added. */
  lemma ShiftInAlphaBytes(r: byte, g: byte, b: byte)
    ensures ShiftInAlpha(ToUint32(r as int * 0x1_0000 + g as int * 0x100 + b as int)) == Word4(r, g, b, 255)
  {
    var v: nat := r as int * 0x1_0000 + g as int * 0x100 + b as int;
    ToUint32Small(v);
    ToUint32Small(v * 256);
  }

  /** `RRGGBBAA`: each pair of digits is one channel byte, with no implicit alpha. */
  lemma EightDigits(hex: Text)
    requires 0 !in hex
    requires |Strip(hex)| == 8 && AllHex(Strip(hex))
    ensures var h := Strip(hex);
      HexToColor(hex) == FromBytes(PairByte(h[0], h[1]), PairByte(h[2], h[3]), PairByte(h[4], h[5]), PairByte(h[6], h[7]))
  {
    var h := Strip(hex);
    var r, g, b, a := PairByte(h[0], h[1]), PairByte(h[2], h[3]), PairByte(h[4], h[5]), PairByte(h[6], h[7]);
    var val := Word4(r, g, b, a);
    assert PackedWord(h) == Some(ToUint32(Strtol16(h)));
    assert Strtol16(h) == val by { EightDigitWord(h); }
    ChannelsOfBytes(r, g, b, a);
    ToUint32Small(val);
  }

  /** `RRGGBB`: each pair of digits is one channel byte, and alpha is full. */
  lemma SixDigits(hex: Text)
    requires 0 !in hex
    requires |Strip(hex)| == 6 && AllHex(Strip(hex))
    ensures var h := Strip(hex);
      HexToColor(hex) == FromBytes(PairByte(h[0], h[1]), PairByte(h[2], h[3]), PairByte(h[4], h[5]), 255)
  {
    var h := Strip(hex);
    var r, g, b := PairByte(h[0], h[1]), PairByte(h[2], h[3]), PairByte(h[4], h[5]);
    assert PackedWord(h) == Some(Word4(r, g, b, 255)) by {
      SixDigitWord(h);
      ShiftInAlphaBytes(r, g, b);
    }
    ChannelsOfBytes(r, g, b, 255);
  }

  /** `RGBA`: every digit, alpha included, is written twice, so each channel byte is 17 times its digit. */
  lemma FourDigits(hex: Text)
    requires 0 !in hex
    requires |Strip(hex)| == 4 && AllHex(Strip(hex))
    ensures var h := Strip(hex);
      HexToColor(hex) == FromBytes(17 * DigitValue(h[0]), 17 * DigitValue(h[1]),
                                   17 * DigitValue(h[2]), 17 * DigitValue(h[3]))
  {
    var h := Strip(hex);
    var s := [h[0], h[0], h[1], h[1], h[2], h[2], h[3], h[3]];
    var r, g, b, a := PairByte(h[0], h[0]), PairByte(h[1], h[1]), PairByte(h[2], h[2]), PairByte(h[3], h[3]);
    var val := Word4(r, g, b, a);
    assert PackedWord(h) == Some(ToUint32(Strtol16(s)));
    assert Strtol16(s) == val by { assert AllHex(s); EightDigitWord(s); }
    ChannelsOfBytes(r, g, b, a);
    ToUint32Small(val);
  }

  /** The word three digits pack into: each digit doubled, then full alpha. */
  lemma ThreeDigitWord(h: Text)
    requires |h| == 3 && AllHex(h)
    ensures PackedWord(h) == Some(Word4(PairByte(h[0], h[0]), PairByte(h[1], h[1]), PairByte(h[2], h[2]), 255))
  {
    var s := [h[0], h[0], h[1], h[1], h[2], h[2]];
    var r, g, b := PairByte(h[0], h[0]), PairByte(h[1], h[1]), PairByte(h[2], h[2]);
    assert PackedWord(h) == Some(ShiftInAlpha(ToUint32(Strtol16(s))));
    assert Strtol16(s) == r as int * 0x1_0000 + g as int * 0x100 + b as int by { assert AllHex(s); SixDigitWord(s); }
    ShiftInAlphaBytes(r, g, b);
  }

  /** `RGB`: every digit is written twice, so each channel byte is 17 times its digit, and alpha is full. */
  lemma ThreeDigits(hex: Text)
    requires 0 !in hex
    requires |Strip(hex)| == 3 && AllHex(Strip(hex))
    ensures var h := Strip(hex);
      HexToColor(hex) == FromBytes(17 * DigitValue(h[0]), 17 * DigitValue(h[1]), 17 * DigitValue(h[2]), 255)
  {
    var h := Strip(hex);
    ThreeDigitWord(h);
    ChannelsOfBytes(PairByte(h[0], h[0]), PairByte(h[1], h[1]), PairByte(h[2], h[2]), 255);
  }

  // ---------------------------------------------------------------------
  // Round trip: four bytes written as eight digits parse back
  // ---------------------------------------------------------------------

  /** The digit for a value below 16, in upper or lower case. */
  function HexDigit(d: nat, upper: bool): (c: byte)
    requires d < 16
    ensures IsHexDigit(c) && DigitValue(c) == d
  {
    if d < 10 then 0x30 + d
    else if upper then 0x41 + d - 10
    else 0x61 + d - 10
  }

  /** A byte as two digits, most significant first. */
  function HexByte(b: byte, upper: bool): (s: Text)
    ensures |s| == 2 && AllHex(s) && PairByte(s[0], s[1]) == b
  {
    [HexDigit(b / 16, upper), HexDigit(b % 16, upper)]
  }

  /** Four bytes written in the `RRGGBBAA` form, with or without a leading `#`. */
  function FormatHex(r: byte, g: byte, b: byte, a: byte, hash: bool, upper: bool): (hex: Text)
    ensures 0 !in hex
  {
    var hex := (if hash then [Hash] else []) + HexByte(r, upper) + HexByte(g, upper) + HexByte(b, upper) + HexByte(a, upper);
    assert forall i | 0 <= i < |hex| :: hex[i] == Hash || IsHexDigit(hex[i]);
    hex
  }

  /** Writing four bytes as eight digits and parsing them gives the same four bytes back. */
  lemma RoundTrip(r: byte, g: byte, b: byte, a: byte, hash: bool, upper: bool)
    ensures HexToColor(FormatHex(r, g, b, a, hash, upper)) == FromBytes(r, g, b, a)
  {
    var hr, hg, hb, ha := HexByte(r, upper), HexByte(g, upper), HexByte(b, upper), HexByte(a, upper);
    var digits := hr + hg + hb + ha;
    var hex := FormatHex(r, g, b, a, hash, upper);
    assert Strip(hex) == digits;
    assert AllHex(digits) && |digits| == 8;
    assert digits[0] == hr[0] && digits[1] == hr[1] && digits[2] == hg[0] && digits[3] == hg[1];
    assert digits[4] == hb[0] && digits[5] == hb[1] && digits[6] == ha[0] && digits[7] == ha[1];
    EightDigits(hex);
  }

  // ---------------------------------------------------------------------
  // Case does not matter
  // ---------------------------------------------------------------------

  /** `tolower` in the C locale: only `A`-`Z` change. */
  function Lower(c: byte): byte
  {
    if 0x41 <= c <= 0x5A then c + 32 else c
  }

  function ToLower(s: Text): (t: Text)
    ensures |t| == |s| && forall i | 0 <= i < |s| :: t[i] == Lower(s[i])
  {
    seq(|s|, i requires 0 <= i < |s| => Lower(s[i]))
  }

  lemma LowerDigit(c: byte)
    ensures IsHexDigit(Lower(c)) == IsHexDigit(c)
    ensures IsHexDigit(c) ==> DigitValue(Lower(c)) == DigitValue(c)
    ensures IsSpace(Lower(c)) == IsSpace(c)
  {
  }

  lemma {:induction false} SkipSpaceLower(s: Text)
    ensures SkipSpace(ToLower(s)) == ToLower(SkipSpace(s))
    decreases |s|
  {
    if s != [] {
      LowerDigit(s[0]);
      assert ToLower(s)[1..] == ToLower(s[1..]);
      SkipSpaceLower(s[1..]);
    }
  }

  lemma {:induction false} HexRunLower(s: Text)
    ensures HexRun(ToLower(s)) == ToLower(HexRun(s))
  {
    if s != [] {
      LowerDigit(s[0]);
      assert ToLower(s)[1..] == ToLower(s[1..]);
      HexRunLower(s[1..]);
      if IsHexDigit(s[0]) {
        assert ToLower([s[0]] + HexRun(s[1..])) == [Lower(s[0])] + ToLower(HexRun(s[1..]));
      }
    }
  }

  lemma {:induction false} HexValueLower(d: Text)
    requires AllHex(d)
    ensures AllHex(ToLower(d)) && HexValue(ToLower(d)) == HexValue(d)
  {
    forall i | 0 <= i < |d| ensures IsHexDigit(ToLower(d)[i]) { LowerDigit(d[i]); }
    if d != [] {
      var d' := d[..|d| - 1];
      assert ToLower(d)[..|d| - 1] == ToLower(d');
      LowerDigit(d[|d| - 1]);
      HexValueLower(d');
    }
  }

  lemma StrtolLower(s: Text)
    ensures Strtol16(ToLower(s)) == Strtol16(s)
  {
    SkipSpaceLower(s);
    var t := SkipSpace(s);
    var u := if t != [] && (t[0] == Minus || t[0] == Plus) then t[1..] else t;
    var lu := if ToLower(t) != [] && (ToLower(t)[0] == Minus || ToLower(t)[0] == Plus) then ToLower(t)[1..] else ToLower(t);
    assert lu == ToLower(u);
    var w := if |u| >= 2 && u[0] == Zero && (u[1] == LowerX || u[1] == UpperX) then u[2..] else u;
    var lw := if |lu| >= 2 && lu[0] == Zero && (lu[1] == LowerX || lu[1] == UpperX) then lu[2..] else lu;
    assert lw == ToLower(w);
    HexRunLower(w);
    HexValueLower(HexRun(w));
  }

  /** Lower-casing the digits before packing gives the same word. */
  lemma PackedWordLower(h: Text)
    ensures PackedWord(ToLower(h)) == PackedWord(h)
  {
    var lh := ToLower(h);
    if |h| == 3 {
      var d := [h[0], h[0], h[1], h[1], h[2], h[2]];
      assert [lh[0], lh[0], lh[1], lh[1], lh[2], lh[2]] == ToLower(d);
      StrtolLower(d);
    } else if |h| == 4 {
      var d := [h[0], h[0], h[1], h[1], h[2], h[2], h[3], h[3]];
      assert [lh[0], lh[0], lh[1], lh[1], lh[2], lh[2], lh[3], lh[3]] == ToLower(d);
      StrtolLower(d);
    } else if |h| == 6 || |h| == 8 {
      StrtolLower(h);
    }
  }

  /** Upper- and lower-case digits give the same colour, whatever else the string holds. */
  lemma CaseInsensitive(hex: Text)
    requires 0 !in hex
    ensures 0 !in ToLower(hex)
    ensures HexToColor(ToLower(hex)) == HexToColor(hex)
  {
    assert Strip(ToLower(hex)) == ToLower(Strip(hex));
    PackedWordLower(Strip(hex));
  }

  // ---------------------------------------------------------------------
  // Worked examples
  // ---------------------------------------------------------------------

  /** `#F00` is opaque red. */
  lemma ExampleRed()
    ensures HexToColor(Ascii("#F00")) == Color(1.0, 0.0, 0.0, 1.0)
  {
    var hex := Ascii("#F00");
    assert hex == [Hash, 0x46, 0x30, 0x30];
    var h := Strip(hex);
    assert h == [0x46, 0x30, 0x30] && AllHex(h);
    assert DigitValue(h[0]) == 15 && DigitValue(h[1]) == 0 && DigitValue(h[2]) == 0;
    ThreeDigits(hex);
    assert FromBytes(255, 0, 0, 255) == Color(1.0, 0.0, 0.0, 1.0);
  }

  /** `00ff0080` is green at alpha 128/255. */
  lemma ExampleTranslucentGreen()
    ensures HexToColor(Ascii("00ff0080")) == Color(0.0, 1.0, 0.0, 128.0 / 255.0)
  {
    var h := Ascii("00ff0080");
    assert h == [0x30, 0x30, 0x66, 0x66, 0x30, 0x30, 0x38, 0x30];
    assert Strip(h) == h && AllHex(h);
    assert PairByte(h[0], h[1]) == 0 && PairByte(h[2], h[3]) == 255;
    assert PairByte(h[4], h[5]) == 0 && PairByte(h[6], h[7]) == 128;
    EightDigits(h);
    assert FromBytes(0, 255, 0, 128) == Color(0.0, 1.0, 0.0, 128.0 / 255.0);
  }

  /**
   * Lengths are counted in bytes: `é0` is two characters but three bytes in
   * UTF-8 (C3 A9 30), so it takes the three-digit branch. `strtol` reads no
   * digit from the doubled string, the value is 0, and alpha is then filled
   * in: the colour is opaque black rather than the sentinel.
   */
  lemma ExampleMultiByte()
    ensures HexToColor([0xC3, 0xA9, 0x30]) == Color(0.0, 0.0, 0.0, 1.0)
  {
    var h: Text := [0xC3, 0xA9, 0x30];
    var s: Text := [h[0], h[0], h[1], h[1], h[2], h[2]];
    assert Strip(h) == h;
    assert SkipSpace(s) == s;
    assert HexRun(s) == [];
    assert Strtol16(s) == 0;
    assert PackedWord(h) == Some(ShiftInAlpha(0));
    assert Channels(0xFF) == FromBytes(0, 0, 0, 255);
  }
}
