/** Byte codecs of the wand: the four notification decoders and the two
    actuator encoders (kano_wando.py, `Wand._on_*`, `vibrate`, `set_led`). */
module Codec {
  import opened Common

  // ---------------------------------------------------------------------------
  // 16-bit words
  // ---------------------------------------------------------------------------

  const Int16Min: int := -0x8000
  const Int16Max: int := 0x7FFF

  predicate IsInt16(v: int) { Int16Min <= v <= Int16Max }

  function Pow(base: nat, n: nat): (p: nat)
    ensures base > 0 ==> p > 0
  {
    if n == 0 then 1 else base * Pow(base, n - 1)
  }

  /** `numpy.int16(numpy.uint16(u))`: the two's-complement reading of a 16-bit word. */
  function ToSigned16(u: int): (v: int)
    requires 0 <= u < 0x1_0000
    ensures IsInt16(v)
    ensures (u - v) % 0x1_0000 == 0
    ensures (v < 0) == (u >= 0x8000)
  {
    if u >= 0x8000 then u - 0x1_0000 else u
  }

  /** The 16-bit word whose two's-complement reading is `v`. */
  function ToUnsigned16(v: int): (u: int)
    requires IsInt16(v)
    ensures 0 <= u < 0x1_0000
    ensures ToSigned16(u) == v
  {
    if v < 0 then v + 0x1_0000 else v
  }

  lemma SignedUnsignedInverse(u: int)
    requires 0 <= u < 0x1_0000
    ensures ToUnsigned16(ToSigned16(u)) == u
  {
  }

  /** `-1 * x` for a numpy int16 `x`. Under NumPy 2 promotion rules (NEP 50)
      a Python int times an int16 stays an int16, so the negation wraps and
      -32768 is its own negation. */
  function Negate16(v: int): (r: int)
    requires IsInt16(v)
    ensures IsInt16(r)
    ensures (r + v) % 0x1_0000 == 0
    ensures v != Int16Min ==> r == -v
  {
    if v == Int16Min then Int16Min else -v
  }

  lemma Negate16Involution(v: int)
    requires IsInt16(v)
    ensures Negate16(Negate16(v)) == v
  {
  }

  /** `data[lo:hi]`: Python clamps both bounds to the length, so an
      out-of-range slice is shorter or empty instead of an error. */
  function Slice(data: seq<Byte>, lo: nat, hi: nat): (s: seq<Byte>)
    requires lo <= hi
    ensures |s| <= hi - lo
    ensures hi <= |data| ==> s == data[lo..hi]
    ensures lo < |data| < hi ==> s == data[lo..]
    ensures |data| <= lo ==> s == []
  {
    if |data| <= lo then [] else data[lo..if hi <= |data| then hi else |data|]
  }

  /** The 16-bit word with low byte `lo` and high byte `hi`. */
  function Le16(lo: Byte, hi: Byte): (u: int)
    ensures 0 <= u < 0x1_0000
    ensures u % 256 == lo && u / 256 == hi
  {
    lo as int + 256 * hi as int
  }

  /** `int.from_bytes(s, byteorder='little')`. */
  function FromLittleEndian(s: seq<Byte>): (n: nat)
    ensures n < Pow(256, |s|)
  {
    if s == [] then 0 else s[0] + 256 * FromLittleEndian(s[1..])
  }

  /** The unsigned little-endian word at byte offset `i`, as the decoders read
      it through a slice `data[i:i+2]`. */
  function Word(data: seq<Byte>, i: nat): (u: int)
    ensures 0 <= u < 0x1_0000
    ensures i + 2 <= |data| ==> u == Le16(data[i], data[i + 1])
    ensures i + 1 == |data| ==> u == data[i]
    ensures |data| <= i ==> u == 0
  {
    var s := Slice(data, i, i + 2);
    ShortLittleEndian(s);
    FromLittleEndian(s)
  }

  lemma ShortLittleEndian(s: seq<Byte>)
    requires |s| <= 2
    ensures |s| == 0 ==> FromLittleEndian(s) == 0
    ensures |s| == 1 ==> FromLittleEndian(s) == s[0]
    ensures |s| == 2 ==> FromLittleEndian(s) == Le16(s[0], s[1])
  {
    if |s| > 0 {
      assert FromLittleEndian(s) == s[0] + 256 * FromLittleEndian(s[1..]);
      if |s| == 2 {
        assert s[1..][1..] == [];
        assert FromLittleEndian(s[1..]) == s[1] + 256 * FromLittleEndian(s[1..][1..]);
      }
    }
  }

  /** The two little-endian bytes of a signed 16-bit value. */
  function Int16Bytes(v: int): (bytes: seq<Byte>)
    requires IsInt16(v)
    ensures |bytes| == 2
    ensures ToSigned16(Word(bytes, 0)) == v
  {
    var u := ToUnsigned16(v);
    [u % 256, u / 256]
  }

  // ---------------------------------------------------------------------------
  // Notification payloads
  // ---------------------------------------------------------------------------

  /** A decoded notification. `Position` holds its four values in the order the
      callbacks receive them: (x, y, z, w). */
  datatype Reading =
    | Position(x: int, y: int, z: int, w: int)
    | Button(pressed: bool)
    | Temperature(value: int)
    | Battery(level: Byte)

  predicate IsOrientation(p: Reading)
  {
    p.Position? && IsInt16(p.x) && IsInt16(p.y) && IsInt16(p.z) && IsInt16(p.w)
  }

  /** `Wand._on_position`: words at offsets 0, 2, 4, 6 are y, x, w, z; x and w
      are negated in int16. Neither the length nor the range is checked: a short
      buffer reads its missing bytes as absent, and no value is clamped to the
      documented [-1000, 1000]. */
  function DecodePosition(data: seq<Byte>): (p: Reading)
    ensures IsOrientation(p)
    ensures 8 <= |data| ==>
      && p.y == ToSigned16(Le16(data[0], data[1]))
      && p.x == Negate16(ToSigned16(Le16(data[2], data[3])))
      && p.w == Negate16(ToSigned16(Le16(data[4], data[5])))
      && p.z == ToSigned16(Le16(data[6], data[7]))
  {
    var y := ToSigned16(Word(data, 0));
    var x := Negate16(ToSigned16(Word(data, 2)));
    var w := Negate16(ToSigned16(Word(data, 4)));
    var z := ToSigned16(Word(data, 6));
    Position(x, y, z, w)
  }

  /** The wire bytes a wand sends for an orientation sample; the inverse of
      DecodePosition. */
  function EncodePosition(p: Reading): (data: seq<Byte>)
    requires IsOrientation(p)
    ensures |data| == 8
  {
    Int16Bytes(p.y) + Int16Bytes(Negate16(p.x)) + Int16Bytes(Negate16(p.w)) + Int16Bytes(p.z)
  }

  lemma DecodeEncodePosition(p: Reading)
    requires IsOrientation(p)
    ensures DecodePosition(EncodePosition(p)) == p
  {
    var data := EncodePosition(p);
    var parts := [Int16Bytes(p.y), Int16Bytes(Negate16(p.x)), Int16Bytes(Negate16(p.w)), Int16Bytes(p.z)];
    forall k | 0 <= k < 4 ensures Word(data, 2 * k) == Word(parts[k], 0) {
    }
    Negate16Involution(p.x);
    Negate16Involution(p.w);
  }

  lemma EncodeDecodePosition(data: seq<Byte>)
    requires |data| == 8
    ensures EncodePosition(DecodePosition(data)) == data
  {
    var p := DecodePosition(data);
    Negate16Involution(ToSigned16(Le16(data[2], data[3])));
    Negate16Involution(ToSigned16(Le16(data[4], data[5])));
    Int16BytesOfWord(data[0], data[1]);
    Int16BytesOfWord(data[2], data[3]);
    Int16BytesOfWord(data[4], data[5]);
    Int16BytesOfWord(data[6], data[7]);
    assert data == data[0..2] + data[2..4] + data[4..6] + data[6..8];
  }

  lemma Int16BytesOfWord(lo: Byte, hi: Byte)
    ensures Int16Bytes(ToSigned16(Le16(lo, hi))) == [lo, hi]
  {
    SignedUnsignedInverse(Le16(lo, hi));
  }

  /** A buffer shorter than eight bytes decodes exactly as if it had been
      padded with zero bytes: the slices of missing bytes add nothing. */
  lemma ShortPositionReadsAsZeroPadded(data: seq<Byte>)
    requires |data| < 8
    ensures DecodePosition(data) == DecodePosition(data + seq(8 - |data|, _ => 0))
  {
    var padded := data + seq(8 - |data|, _ => 0);
    forall i: nat | i < 8 && i % 2 == 0 ensures Word(data, i) == Word(padded, i) {
      assert padded[i] == (if i < |data| then data[i] else 0);
      assert padded[i + 1] == (if i + 1 < |data| then data[i + 1] else 0);
    }
  }

  /** `Wand._on_button`: `data[0] == 1`, an IndexError on an empty payload. */
  function DecodeButton(data: seq<Byte>): (r: Result<Reading>)
    ensures r.Ok? <==> |data| > 0
    ensures r.Ok? ==> r.value.Button? && (r.value.pressed <==> data[0] == 1)
    ensures r.Err? ==> r.error == IndexError
  {
    if |data| == 0 then Err(IndexError) else Ok(Button(data[0] == 1))
  }

  /** `Wand._on_temperature`: bytes 0-1 as a little-endian signed 16-bit value. */
  function DecodeTemperature(data: seq<Byte>): (t: Reading)
    ensures t.Temperature? && IsInt16(t.value)
    ensures 2 <= |data| ==> t.value == ToSigned16(Le16(data[0], data[1]))
  {
    Temperature(ToSigned16(Word(data, 0)))
  }

  lemma DecodeTemperatureRoundTrip(v: int, rest: seq<Byte>)
    requires IsInt16(v)
    ensures DecodeTemperature(Int16Bytes(v) + rest) == Temperature(v)
  {
    var data := Int16Bytes(v) + rest;
    assert Word(data, 0) == Word(Int16Bytes(v), 0);
  }

  /** A temperature payload shorter than two bytes decodes as if padded with
      zero bytes: an empty one reads 0, a single byte reads as itself. */
  lemma ShortTemperatureReadsAsZeroPadded(data: seq<Byte>)
    requires |data| < 2
    ensures DecodeTemperature(data) == DecodeTemperature(data + seq(2 - |data|, _ => 0))
    ensures DecodeTemperature(data).value == if data == [] then 0 else data[0]
  {
    var padded := data + seq(2 - |data|, _ => 0);
    assert padded[0] == (if 0 < |data| then data[0] else 0);
    assert padded[1] == 0;
  }

  /** `Wand._on_battery`: the raw first byte, an IndexError on an empty payload. */
  function DecodeBattery(data: seq<Byte>): (r: Result<Reading>)
    ensures r.Ok? <==> |data| > 0
    ensures r.Ok? ==> r.value == Battery(data[0])
    ensures r.Err? ==> r.error == IndexError
  {
    if |data| == 0 then Err(IndexError) else Ok(Battery(data[0]))
  }

  // ---------------------------------------------------------------------------
  // Vibration
  // ---------------------------------------------------------------------------

  /** The `PATTERN` enum. */
  datatype Pattern = Regular | Short | Burst | Long | ShortLong | ShortShort | BigPause

  function PatternValue(p: Pattern): (v: Byte)
    ensures 1 <= v <= 7
  {
    match p
    case Regular => 1
    case Short => 2
    case Burst => 3
    case Long => 4
    case ShortLong => 5
    case ShortShort => 6
    case BigPause => 7
  }

  /** No two `PATTERN` members share a value. */
  lemma PatternValueInjective(p: Pattern, q: Pattern)
    requires PatternValue(p) == PatternValue(q)
    ensures p == q
  {
  }

  /** The argument of `vibrate`: a `PATTERN` member or any other value. */
  datatype VibrationArg = Named(pattern: Pattern) | Raw(value: int)

  /** The one-byte message `vibrate` writes; `bytes([v])` raises ValueError
      when a raw value is not a byte. */
  function EncodeVibration(arg: VibrationArg): (r: Result<seq<Byte>>)
    ensures r.Ok? ==> |r.value| == 1
    ensures arg.Named? ==> r == Ok([PatternValue(arg.pattern)])
    ensures arg.Raw? ==> (r.Ok? <==> 0 <= arg.value < 256)
    ensures arg.Raw? && r.Ok? ==> r.value[0] == arg.value
    ensures r.Err? ==> r.error == ValueError
  {
    match arg
    case Named(p) => Ok([PatternValue(p)])
    case Raw(v) => if 0 <= v < 256 then Ok([v]) else Err(ValueError)
  }

  /** A named pattern and its raw value put the same byte on the wire. */
  lemma VibrationNamedEqualsRaw(p: Pattern)
    ensures EncodeVibration(Named(p)) == EncodeVibration(Raw(PatternValue(p)))
  {
  }

  // ---------------------------------------------------------------------------
  // LED colour
  // ---------------------------------------------------------------------------

  /** `s.replace("#", "")`. */
  function RemoveHashes(s: string): (t: string)
    ensures '#' !in t
    ensures |t| <= |s|
    ensures '#' !in s ==> t == s
  {
    if s == [] then []
    else if s[0] == '#' then RemoveHashes(s[1..])
    else [s[0]] + RemoveHashes(s[1..])
  }

  /** Removal works character by character: a `#` disappears and any other
      character is kept. */
  lemma RemoveHashesChar(c: char)
    ensures RemoveHashes([c]) == if c == '#' then [] else [c]
  {
    assert [c][1..] == [];
  }

  /** Removal distributes over concatenation, so together with
      RemoveHashesChar it keeps every other character, in order. */
  lemma {:induction false} RemoveHashesConcat(a: string, b: string)
    ensures RemoveHashes(a + b) == RemoveHashes(a) + RemoveHashes(b)
  {
    if a != [] {
      assert (a + b)[0] == a[0];
      assert (a + b)[1..] == a[1..] + b;
      RemoveHashesConcat(a[1..], b);
      if a[0] != '#' {
        assert RemoveHashes(a + b) == [a[0]] + RemoveHashes(a[1..] + b);
        assert RemoveHashes(a) == [a[0]] + RemoveHashes(a[1..]);
      }
    } else {
      assert a + b == b;
    }
  }

  /** A digit `int(s, 16)` accepts; the letters of the `0x` prefix are not
      digits. */
  predicate IsHexDigit(c: char)
    ensures IsHexDigit(c) ==> c != 'x' && c != 'X' && c != '#'
  {
    '0' <= c <= '9' || 'a' <= c <= 'f' || 'A' <= c <= 'F'
  }

  function HexDigitValue(c: char): (v: nat)
    requires IsHexDigit(c)
    ensures v < 16
    ensures '0' <= c <= '9' ==> v < 10
    ensures !('0' <= c <= '9') ==> 10 <= v
  {
    if '0' <= c <= '9' then c as int - '0' as int
    else if 'a' <= c <= 'f' then c as int - 'a' as int + 10
    else c as int - 'A' as int + 10
  }

  predicate AllHexDigits(s: string)
  {
    forall i :: 0 <= i < |s| ==> IsHexDigit(s[i])
  }

  /** The value of a string of hex digits, most significant first. */
  function HexValue(s: string): (n: nat)
    requires AllHexDigits(s)
    ensures n < Pow(16, |s|)
  {
    if s == [] then 0 else 16 * HexValue(s[..|s| - 1]) + HexDigitValue(s[|s| - 1])
  }

  /** `int(s, 16)` for an unsigned literal: an optional `0x`/`0X` prefix and at
      least one hex digit; anything else raises ValueError. */
  function ParseHex(s: string): (r: Result<nat>)
    ensures r.Err? ==> r.error == ValueError
    ensures AllHexDigits(s) && s != [] ==> r == Ok(HexValue(s))
    ensures r.Ok? ==> s != [] && IsHexDigit(s[0]) && IsHexDigit(s[|s| - 1])
    ensures r.Ok? ==> forall i :: 0 <= i < |s| && i != 1 ==> IsHexDigit(s[i])
    ensures r.Ok? && 2 <= |s| && !IsHexDigit(s[1]) ==>
      s[0] == '0' && (s[1] == 'x' || s[1] == 'X') && AllHexDigits(s[2..]) && r.value == HexValue(s[2..])
  {
    var digits := if 2 <= |s| && s[0] == '0' && (s[1] == 'x' || s[1] == 'X') then s[2..] else s;
    if digits != [] && AllHexDigits(digits) then Ok(HexValue(digits)) else Err(ValueError)
  }

  /** The lower-case hex digit for `d`. */
  function HexDigit(d: nat): (c: char)
    requires d < 16
    ensures IsHexDigit(c) && HexDigitValue(c) == d
  {
    if d < 10 then ('0' as int + d) as char else ('a' as int + d - 10) as char
  }

  /** A decimal or lower-case digit is the rendering of its own value. */
  lemma HexDigitOfValue(c: char)
    requires '0' <= c <= '9' || 'a' <= c <= 'f'
    ensures HexDigit(HexDigitValue(c)) == c
  {
  }

  /** `n` written with exactly `width` hex digits (leading zeros kept). */
  function FormatHex(n: nat, width: nat): (s: string)
    ensures |s| == width && AllHexDigits(s)
  {
    if width == 0 then [] else FormatHex(n / 16, width - 1) + [HexDigit(n % 16)]
  }

  /** `0x` or `0X` followed by one or more hex digits, in either case, parses
      to the digits' value, as the default "0x2185d0" does. */
  lemma ParsePrefixedHex(digits: string, x: char)
    requires digits != [] && AllHexDigits(digits)
    requires x == 'x' || x == 'X'
    ensures ParseHex(['0', x] + digits) == Ok(HexValue(digits))
  {
    assert (['0', x] + digits)[2..] == digits;
  }

  lemma {:induction false} HexValueFormatHex(n: nat, width: nat)
    requires n < Pow(16, width)
    ensures HexValue(FormatHex(n, width)) == n
  {
    if width > 0 {
      var s := FormatHex(n, width);
      var high := FormatHex(n / 16, width - 1);
      assert s == high + [HexDigit(n % 16)];
      assert s[..|s| - 1] == high;
      assert HexDigitValue(s[|s| - 1]) == n % 16;
      assert n / 16 < Pow(16, width - 1) by {
        assert Pow(16, width) == 16 * Pow(16, width - 1);
      }
      HexValueFormatHex(n / 16, width - 1);
      assert HexValue(s) == 16 * (n / 16) + n % 16;
    } else {
      assert n == 0;
    }
  }

  /** The 5-6-5 packing `((r & 248) << 8) + ((g & 252) << 3) + ((b & 248) >> 3)`,
      written with `x & 248 == x - x % 8` and `x & 252 == x - x % 4` for a byte
      `x`, and shifts as multiplication and division by powers of two. The three
      terms occupy disjoint bits, so each channel's top bits can be read back. */
  function Pack565(r: Byte, g: Byte, b: Byte): (rgb: int)
    ensures 0 <= rgb <= 0xFFFF
    ensures rgb / 2048 == r / 8
    ensures (rgb / 32) % 64 == g / 4
    ensures rgb % 32 == b / 8
  {
    var red, green, blue := (r - r % 8) * 256, (g - g % 4) * 8, (b - b % 8) / 8;
    Pack565Fields(r, g, b, red, green, blue);
    red + green + blue
  }

  lemma Pack565Fields(r: Byte, g: Byte, b: Byte, red: int, green: int, blue: int)
    requires red == (r - r % 8) * 256 && green == (g - g % 4) * 8 && blue == (b - b % 8) / 8
    ensures 0 <= red + green + blue <= 0xFFFF
    ensures (red + green + blue) / 2048 == r / 8
    ensures ((red + green + blue) / 32) % 64 == g / 4
    ensures (red + green + blue) % 32 == b / 8
  {
    var hi, mid, lo := r / 8, g / 4, b / 8;
    assert hi < 32 && mid < 64 && lo < 32;
    assert red == hi * 2048 by { assert r - r % 8 == hi * 8; }
    assert green == mid * 32 by { assert g - g % 4 == mid * 4; }
    assert blue == lo by { assert b - b % 8 == lo * 8; }
    var low := mid * 32 + lo;
    assert low < 2048;
    assert (hi * 2048 + low) / 2048 == hi;
    assert (red + green + blue) / 32 == hi * 64 + mid;
    assert (hi * 64 + mid) % 64 == mid;
  }

  /** The three-byte message of `set_led`: the on flag, then the packed colour
      high byte first. The channels are `(color >> 16) & 255`,
      `(color >> 8) & 255` and `color & 255`. */
  function EncodeLed(color: string, on: bool): (r: Result<seq<Byte>>)
    ensures r.Ok? ==> |r.value| == 3 && r.value[0] == (if on then 1 else 0)
    ensures r.Ok? ==> ParseHex(RemoveHashes(color)).Ok?
    ensures r.Ok? ==> Le16(r.value[2], r.value[1]) == Pack565(
      ParseHex(RemoveHashes(color)).value / 0x1_0000 % 256,
      ParseHex(RemoveHashes(color)).value / 0x100 % 256,
      ParseHex(RemoveHashes(color)).value % 256)
    ensures r.Err? <==> ParseHex(RemoveHashes(color)).Err?
  {
    match ParseHex(RemoveHashes(color))
    case Err(e) => Err(e)
    case Ok(c) =>
      var rgb := Pack565(c / 0x1_0000 % 256, c / 0x100 % 256, c % 256);
      Ok([if on then 1 else 0, rgb / 256, rgb % 256])
  }

  /** Any 24-bit colour written as `#rrggbb` encodes to its 5-6-5 packing, and
      the channels read back from the message are the colour's top bits. */
  lemma EncodeLedHashColor(c: nat, on: bool)
    requires c < 0x100_0000
    ensures var msg := EncodeLed("#" + FormatHex(c, 6), on);
      && msg.Ok?
      && Le16(msg.value[2], msg.value[1]) / 2048 == (c / 0x1_0000) / 8
      && (Le16(msg.value[2], msg.value[1]) / 32) % 64 == (c / 0x100 % 256) / 4
      && Le16(msg.value[2], msg.value[1]) % 32 == (c % 256) / 8
  {
    HashColorParses(c);
    TopChannel(c);
  }

  lemma TopChannel(c: nat)
    requires c < 0x100_0000
    ensures c / 0x1_0000 % 256 == c / 0x1_0000
  {
    assert c / 0x1_0000 < 256;
  }

  /** `#rrggbb` parses back to the colour. */
  lemma HashColorParses(c: nat)
    requires c < 0x100_0000
    ensures ParseHex(RemoveHashes("#" + FormatHex(c, 6))) == Ok(c)
  {
    var hex := FormatHex(c, 6);
    assert RemoveHashes("#" + hex) == hex by {
      assert ("#" + hex)[1..] == hex;
    }
    assert Pow(16, 6) == 0x100_0000;
    HexValueFormatHex(c, 6);
  }

  lemma DefaultColorHighDigits()
    ensures AllHexDigits("218") && HexValue("218") == 0x218
  {
    assert HexValue("2") == 0x2;
    assert HexValue("21") == 0x21 by { assert "21"[..1] == "2"; }
    assert "218"[..2] == "21";
  }

  lemma DefaultColorDigits()
    ensures AllHexDigits("2185d0") && HexValue("2185d0") == 0x2185d0
  {
    DefaultColorHighDigits();
    assert HexValue("2185") == 0x2185 by { assert "2185"[..3] == "218"; }
    assert HexValue("2185d") == 0x2185d by { assert "2185d"[..4] == "2185"; }
    assert "2185d0"[..5] == "2185d";
  }

  lemma DefaultColorValue()
    ensures ParseHex(RemoveHashes("0x2185d0")) == Ok(0x2185d0)
  {
    DefaultColorDigits();
    assert RemoveHashes("0x2185d0") == "0x2185d0";
    assert "0x2185d0"[2..] == "2185d0";
  }

  lemma DefaultColorPacking()
    ensures 0x2185d0 / 0x1_0000 % 256 == 0x21 && 0x2185d0 / 0x100 % 256 == 0x85 && 0x2185d0 % 256 == 0xD0
    ensures Pack565(0x21, 0x85, 0xD0) == 0x243A
    ensures 0x243A / 256 == 0x24 && 0x243A % 256 == 0x3A
  {
  }

  /** `set_led()` with its default colour "0x2185d0". */
  lemma EncodeLedDefault()
    ensures EncodeLed("0x2185d0", true) == Ok([1, 0x24, 0x3A])
  {
    DefaultColorValue();
    DefaultColorPacking();
    var r := EncodeLed("0x2185d0", true);
    assert r.Ok? && r.value[0] == 1 && r.value[1] == 0x24 && r.value[2] == 0x3A;
    assert r.value == [1, 0x24, 0x3A];
  }
}
