/**
 * The plugin settings Maplands reads when it is enabled: the per-tick render
 * budget and the background colour of the void. Reading and writing the
 * configuration file belong to the server library: the stored values are
 * parameters. The colour decoder follows the code: a palette constant by
 * name, else a hexadecimal RGB value or a decimal palette index.
 */
module Config {
  import opened Wrappers
  import opened RowMajor

  /** Milliseconds a map may spend rendering per tick when the file does not say. */
  const DefaultMaxRenderTime: int := 50
  /** The name stored when the file does not give a background colour. */
  const DefaultBackgroundName: string := "transparent"

  const MinInt: int := -0x8000_0000
  const MaxInt: int := 0x7fff_ffff

  /**
   * A background colour: one of the six palette constants, a palette index,
   * or the palette colour closest to an RGB value (the palette lookup itself
   * belongs to the server library).
   */
  datatype Background =
    | Transparent | Black | White | Red | Green | Blue
    | MapColour(index: int)
    | RgbColour(rgb: int)

  /** The two warnings the decoder logs, with the name as it stood when decoding failed. */
  datatype Warning = OutOfRange(name: string) | CannotDecode(name: string)

  // Characters and case

  function LowerAscii(c: char): (r: char)
    ensures 'A' <= c <= 'Z' ==> r as int == c as int + 32
    ensures !('A' <= c <= 'Z') ==> r == c
  {
    if 'A' <= c <= 'Z' then (c as int + 32) as char else c
  }

  function UpperAscii(c: char): (r: char)
    ensures 'a' <= c <= 'z' ==> r as int == c as int - 32
    ensures !('a' <= c <= 'z') ==> r == c
  {
    if 'a' <= c <= 'z' then (c as int - 32) as char else c
  }

  function UpperCase(s: string): (r: string)
    ensures |r| == |s| && forall i | 0 <= i < |s| :: r[i] == UpperAscii(s[i])
  {
    seq(|s|, i requires 0 <= i < |s| => UpperAscii(s[i]))
  }

  /**
   * String.equalsIgnoreCase on ASCII letters: same length, equal characters
   * up to case, whether compared as lower case or as upper case.
   */
  predicate EqualsIgnoreCase(a: string, b: string): (r: bool)
    ensures r <==> |a| == |b| && forall i | 0 <= i < |a| :: UpperAscii(a[i]) == UpperAscii(b[i])
  {
    |a| == |b| && forall i | 0 <= i < |a| :: LowerAscii(a[i]) == LowerAscii(b[i])
  }

  lemma LowerOfUpper(c: char)
    ensures LowerAscii(UpperAscii(c)) == LowerAscii(c)
  {
  }

  /** Changing a name to upper case does not change whom it equals ignoring case. */
  lemma EqualsIgnoreCaseUpper(a: string, b: string)
    ensures EqualsIgnoreCase(UpperCase(a), b) <==> EqualsIgnoreCase(a, b)
  {
    if |a| == |b| {
      forall i | 0 <= i < |a|
        ensures LowerAscii(UpperCase(a)[i]) == LowerAscii(a[i])
      {
        LowerOfUpper(a[i]);
      }
    }
  }

  /** The six palette constants, matched by name ignoring case. */
  function NamedColour(name: string): (r: Option<Background>)
    ensures r.Some? ==> r.value in {Transparent, Black, White, Red, Green, Blue}
    ensures r.None? <==> !EqualsIgnoreCase(name, "transparent") && !EqualsIgnoreCase(name, "black") &&
                         !EqualsIgnoreCase(name, "white") && !EqualsIgnoreCase(name, "red") &&
                         !EqualsIgnoreCase(name, "green") && !EqualsIgnoreCase(name, "blue")
  {
    if EqualsIgnoreCase(name, "transparent") then Some(Transparent)
    else if EqualsIgnoreCase(name, "black") then Some(Black)
    else if EqualsIgnoreCase(name, "white") then Some(White)
    else if EqualsIgnoreCase(name, "red") then Some(Red)
    else if EqualsIgnoreCase(name, "green") then Some(Green)
    else if EqualsIgnoreCase(name, "blue") then Some(Blue)
    else None
  }

  /** The palette constants are matched whatever the case of the name. */
  lemma NamedColourUpper(name: string)
    ensures NamedColour(UpperCase(name)) == NamedColour(name)
  {
    EqualsIgnoreCaseUpper(name, "transparent");
    EqualsIgnoreCaseUpper(name, "black");
    EqualsIgnoreCaseUpper(name, "white");
    EqualsIgnoreCaseUpper(name, "red");
    EqualsIgnoreCaseUpper(name, "green");
    EqualsIgnoreCaseUpper(name, "blue");
  }

  /** A name whose first character is no letter names no palette constant. */
  lemma NotNamed(name: string)
    requires |name| > 0 && !('a' <= name[0] <= 'z') && !('A' <= name[0] <= 'Z')
    ensures NamedColour(name).None?
  {
    assert LowerAscii(name[0]) == name[0];
  }

  // Prefixes

  /** The name after every leading '#' is removed. */
  function WithoutHashes(s: string): (r: string)
    ensures |r| <= |s| && r == s[|s| - |r|..]
    ensures forall i | 0 <= i < |s| - |r| :: s[i] == '#'
    ensures r == [] || r[0] != '#'
    decreases |s|
  {
    if |s| > 0 && s[0] == '#' then WithoutHashes(s[1..]) else s
  }

  /** The name after one "0x" or "0X" prefix, if present, is removed. */
  function WithoutHexPrefix(s: string): (r: string)
    ensures (|s| >= 2 && s[0] == '0' && (s[1] == 'x' || s[1] == 'X')) ==> r == s[2..]
    ensures !(|s| >= 2 && s[0] == '0' && (s[1] == 'x' || s[1] == 'X')) ==> r == s
  {
    if |s| >= 2 && s[0] == '0' && (s[1] == 'x' || s[1] == 'X') then s[2..] else s
  }

  /** The strip loop: remove leading '#' characters while there are any. */
  method StripHashes(name: string) returns (r: string)
    ensures r == WithoutHashes(name)
  {
    r := name;
    while |r| > 0 && r[0] == '#'
      invariant WithoutHashes(r) == WithoutHashes(name)
      decreases |r|
    {
      r := r[1..];
    }
  }

  /** `k` '#' characters. */
  function Hashes(k: nat): (r: string)
    ensures |r| == k && forall i | 0 <= i < k :: r[i] == '#'
  {
    seq(k, _ => '#')
  }

  lemma {:induction false} WithoutHashesPrefix(k: nat, s: string)
    requires s == [] || s[0] != '#'
    ensures WithoutHashes(Hashes(k) + s) == s
  {
    if k > 0 {
      assert (Hashes(k) + s)[1..] == Hashes(k - 1) + s;
      WithoutHashesPrefix(k - 1, s);
    } else {
      assert Hashes(k) + s == s;
    }
  }

  // Integer.parseInt

  /** Character.digit on ASCII: the value of a decimal digit or a letter. */
  function DigitValue(c: char): (r: Option<nat>)
    ensures r.Some? ==> r.value < 36
    ensures r.None? <==> !('0' <= c <= '9') && !('a' <= c <= 'z') && !('A' <= c <= 'Z')
  {
    if '0' <= c <= '9' then Some(c as int - '0' as int)
    else if 'a' <= c <= 'z' then Some(c as int - 'a' as int + 10)
    else if 'A' <= c <= 'Z' then Some(c as int - 'A' as int + 10)
    else None
  }

  /** The lower-case character of a digit value. */
  function DigitChar(d: nat): (c: char)
    requires d < 36
    ensures DigitValue(c) == Some(d)
    ensures '0' <= c <= '9' || 'a' <= c <= 'z'
  {
    if d < 10 then ('0' as int + d) as char else ('a' as int + d - 10) as char
  }

  /** `c` is a digit of base `radix`. */
  predicate IsDigit(c: char, radix: nat) {
    DigitValue(c).Some? && DigitValue(c).value < radix
  }

  /** Upper case leaves the value of a digit as it is. */
  lemma DigitValueUpper(c: char)
    ensures DigitValue(UpperAscii(c)) == DigitValue(c)
  {
  }

  /** The value of a sequence of digits in base `radix`, most significant first. */
  function DigitsValue(s: string, radix: nat): (r: Option<nat>)
    requires 2 <= radix <= 36
    decreases |s|
  {
    if |s| == 0 then Some(0)
    else
      var d := DigitValue(s[|s| - 1]);
      match DigitsValue(s[..|s| - 1], radix)
      case None => None
      case Some(v) => if d.Some? && d.value < radix then Some(v * radix + d.value) else None
  }

  /** The digits have a value exactly when every character is a digit of the base. */
  lemma {:induction false} DigitsValueDefined(s: string, radix: nat)
    requires 2 <= radix <= 36
    ensures DigitsValue(s, radix).Some? <==> forall i | 0 <= i < |s| :: IsDigit(s[i], radix)
    decreases |s|
  {
    if |s| > 0 {
      var init := s[..|s| - 1];
      DigitsValueDefined(init, radix);
      assert forall i | 0 <= i < |init| :: init[i] == s[i];
    }
  }

  /**
   * Integer.parseInt(s, radix): an optional sign and at least one digit,
   * whose value must fit a 32-bit int; anything else is a NumberFormatException.
   */
  function ParseInt(s: string, radix: nat): (r: Result<int>)
    requires 2 <= radix <= 36
    ensures r.Err? ==> r.error == NumberFormat
    ensures r.Ok? ==> MinInt <= r.value <= MaxInt
    ensures |s| == 0 ==> r.Err?
    ensures |s| == 1 && (s[0] == '-' || s[0] == '+') ==> r.Err?
  {
    if |s| == 0 then Err(NumberFormat)
    else
      var signed := s[0] == '-' || s[0] == '+';
      if signed && |s| == 1 then Err(NumberFormat)
      else
        match DigitsValue(if signed then s[1..] else s, radix)
        case None => Err(NumberFormat)
        case Some(v) =>
          var n := if s[0] == '-' then -(v as int) else v;
          if MinInt <= n <= MaxInt then Ok(n) else Err(NumberFormat)
  }

  /** Upper-casing a numeral, as the decoder does before parsing, does not change its value. */
  lemma {:induction false} DigitsValueUpper(s: string, radix: nat)
    requires 2 <= radix <= 36
    ensures DigitsValue(UpperCase(s), radix) == DigitsValue(s, radix)
    decreases |s|
  {
    if |s| > 0 {
      assert UpperCase(s)[..|s| - 1] == UpperCase(s[..|s| - 1]);
      DigitsValueUpper(s[..|s| - 1], radix);
      DigitValueUpper(s[|s| - 1]);
    }
  }

  lemma ParseIntUpper(s: string, radix: nat)
    requires 2 <= radix <= 36
    ensures ParseInt(UpperCase(s), radix) == ParseInt(s, radix)
  {
    if |s| > 0 {
      var u := UpperCase(s);
      var c := s[0];
      assert u[0] == UpperAscii(c);
      if c == '-' || c == '+' {
        assert u[1..] == UpperCase(s[1..]);
        DigitsValueUpper(s[1..], radix);
      } else {
        DigitsValueUpper(s, radix);
      }
      SameParse(u, s, radix);
    }
  }

  /** Texts with the same sign and the same digit values parse alike. */
  lemma SameParse(s: string, t: string, radix: nat)
    requires 2 <= radix <= 36 && |s| == |t| > 0
    requires (s[0] == '-') == (t[0] == '-') && (s[0] == '+') == (t[0] == '+')
    requires s[0] == '-' || s[0] == '+' ==> DigitsValue(s[1..], radix) == DigitsValue(t[1..], radix)
    requires s[0] != '-' && s[0] != '+' ==> DigitsValue(s, radix) == DigitsValue(t, radix)
    ensures ParseInt(s, radix) == ParseInt(t, radix)
  {
  }

  /** A character that is no digit after the first position makes parseInt fail. */
  lemma ParseIntBadDigit(s: string, radix: nat, i: nat)
    requires 2 <= radix <= 36 && 1 <= i < |s| && DigitValue(s[i]).None?
    ensures ParseInt(s, radix).Err?
  {
    assert !IsDigit(s[i], radix);
    assert s[1..][i - 1] == s[i];
    assert !IsDigit(s[1..][i - 1], radix);
    DigitsValueDefined(s, radix);
    DigitsValueDefined(s[1..], radix);
  }

  // Numerals, the partner of ParseInt

  function Pow(b: nat, k: nat): (r: nat)
    ensures b >= 1 ==> r >= 1
  {
    if k == 0 then 1 else b * Pow(b, k - 1)
  }

  /** The `k` lowest base-`radix` digits of `v`, most significant first. */
  function Numeral(v: nat, radix: nat, k: nat): (s: string)
    requires 2 <= radix <= 36
    ensures |s| == k
    ensures forall i | 0 <= i < k :: IsDigit(s[i], radix)
  {
    if k == 0 then [] else Numeral(v / radix, radix, k - 1) + [DigitChar(v % radix)]
  }

  /** Reading back a numeral wide enough for its value gives the value. */
  lemma {:induction false} NumeralRoundTrip(v: nat, radix: nat, k: nat)
    requires 2 <= radix <= 36 && v < Pow(radix, k)
    ensures DigitsValue(Numeral(v, radix, k), radix) == Some(v)
    decreases k
  {
    if k > 0 {
      var s := Numeral(v, radix, k);
      DivMod(v, radix);
      var q: nat, d: nat := v / radix, v % radix;
      var prefix := Numeral(q, radix, k - 1);
      assert s == prefix + [DigitChar(d)];
      assert s[..k - 1] == prefix;
      assert DigitValue(s[k - 1]) == Some(d);
      PowStep(v, radix, k);
      NumeralRoundTrip(q, radix, k - 1);
      assert DigitsValue(s, radix) == Some(q * radix + d);
    } else {
      assert v == 0;
    }
  }

  /** Dropping the last digit leaves a value one digit narrower. */
  lemma PowStep(v: nat, radix: nat, k: nat)
    requires 2 <= radix && 0 < k && v < Pow(radix, k)
    ensures v / radix < Pow(radix, k - 1)
  {
    DivBound(v, radix, Pow(radix, k - 1));
  }

  lemma DivMod(v: nat, d: nat)
    requires d > 0
    ensures 0 <= v / d && 0 <= v % d < d && v == (v / d) * d + v % d
  {
  }

  lemma DivBound(v: nat, d: nat, p: nat)
    requires d > 0 && v < d * p
    ensures v / d < p
  {
    MulMonotone(d, p, v / d);
  }

  lemma MulMonotone(d: nat, p: int, q: int)
    requires d > 0
    ensures q >= p ==> d * q >= d * p
  {
  }

  /** The number of decimal digits of `v`. */
  function DecimalWidth(v: nat): (w: nat)
    ensures 1 <= w && v < Pow(10, w)
  {
    if v < 10 then 1 else 1 + DecimalWidth(v / 10)
  }

  /** Integer.toString: an optional minus sign and the decimal digits. */
  function Decimal(n: int): (s: string)
    ensures n < 0 ==> |s| >= 2 && s[0] == '-' && forall i | 1 <= i < |s| :: IsDigit(s[i], 10)
    ensures n >= 0 ==> |s| >= 1 && forall i | 0 <= i < |s| :: IsDigit(s[i], 10)
  {
    if n < 0 then "-" + Numeral(-n, 10, DecimalWidth(-n)) else Numeral(n, 10, DecimalWidth(n))
  }

  /** Every 32-bit int reads back from its decimal text. */
  lemma DecimalRoundTrip(n: int)
    requires MinInt <= n <= MaxInt
    ensures ParseInt(Decimal(n), 10) == Ok(n)
  {
    var s := Decimal(n);
    if n < 0 {
      var v: nat := -n;
      assert s[1..] == Numeral(v, 10, DecimalWidth(v));
      NumeralRoundTrip(v, 10, DecimalWidth(v));
    } else {
      assert IsDigit(s[0], 10);
      NumeralRoundTrip(n, 10, DecimalWidth(n));
    }
  }

  /** Six lower-case hexadecimal digits of an RGB value. */
  function Hex6(rgb: nat): (s: string)
    ensures |s| == 6
  {
    Numeral(rgb, 16, 6)
  }

  /** Every 24-bit RGB value reads back from its six hexadecimal digits. */
  lemma HexRoundTrip(rgb: nat)
    requires rgb < 0x100_0000
    ensures ParseInt(Hex6(rgb), 16) == Ok(rgb)
  {
    assert Pow(16, 6) == 0x100_0000;
    NumeralRoundTrip(rgb, 16, 6);
  }

  // The decoder

  /**
   * The colour for a name stripped of its prefixes: six characters are a
   * hexadecimal RGB value and any other length a decimal palette index,
   * which must lie in [0, 255]. On a warning the colour stays `current`.
   */
  function NumberColour(s: string, current: Background): (r: (Background, Option<Warning>))
    ensures r.1.Some? ==> r.0 == current
    ensures r.1.None? ==> (r.0.MapColour? && 0 <= r.0.index < 256 && |s| != 6) || (r.0.RgbColour? && 0 <= r.0.rgb < 0x100_0000 && |s| == 6)
    ensures r.1.Some? ==> r.1.value == CannotDecode(s) || (r.1.value == OutOfRange(s) && |s| != 6)
  {
    if |s| == 6 then
      match ParseInt(UpperCase(s), 16)
      case Ok(v) => (RgbColour(v % 0x100_0000), None)
      case Err(_) => (current, Some(CannotDecode(s)))
    else
      match ParseInt(UpperCase(s), 10)
      case Ok(v) => if 0 <= v < 256 then (MapColour(v), None) else (current, Some(OutOfRange(s)))
      case Err(_) => (current, Some(CannotDecode(s)))
  }

  /**
   * The background colour for a configured name, and the warning logged:
   * a palette constant by name; else the colour of the number left after
   * removing every leading '#' and one "0x" prefix.
   */
  function BackgroundOf(name: string, current: Background): (r: (Background, Option<Warning>))
    ensures r.1.Some? ==> r.0 == current
    ensures NamedColour(name).Some? ==> r.1.None?
    ensures r.1.None? && r.0.MapColour? ==> 0 <= r.0.index < 256
    ensures r.1.None? && r.0.RgbColour? ==> 0 <= r.0.rgb < 0x100_0000
  {
    match NamedColour(name)
    case Some(c) => (c, None)
    case None => NumberColour(WithoutHexPrefix(WithoutHashes(name)), current)
  }

  /** The decoding in enable, with its strip loop. */
  method DecodeBackground(name: string, current: Background) returns (colour: Background, warning: Option<Warning>)
    ensures (colour, warning) == BackgroundOf(name, current)
  {
    if EqualsIgnoreCase(name, "transparent") {
      return Transparent, None;
    } else if EqualsIgnoreCase(name, "black") {
      return Black, None;
    } else if EqualsIgnoreCase(name, "white") {
      return White, None;
    } else if EqualsIgnoreCase(name, "red") {
      return Red, None;
    } else if EqualsIgnoreCase(name, "green") {
      return Green, None;
    } else if EqualsIgnoreCase(name, "blue") {
      return Blue, None;
    }
    var s := StripHashes(name);
    if |s| >= 2 && s[0] == '0' && (s[1] == 'x' || s[1] == 'X') {
      s := s[2..];
    }
    colour, warning := DecodeNumber(s, current);
  }

  /** The try block of the decoding: parse, range-check, or warn. */
  method DecodeNumber(s: string, current: Background) returns (colour: Background, warning: Option<Warning>)
    ensures (colour, warning) == NumberColour(s, current)
  {
    colour, warning := current, None;
    if |s| == 6 {
      var parsed := ParseInt(UpperCase(s), 16);
      if parsed.Ok? {
        colour := RgbColour(parsed.value % 0x100_0000);
      } else {
        warning := Some(CannotDecode(s));
      }
    } else {
      var parsed := ParseInt(UpperCase(s), 10);
      if parsed.Err? {
        warning := Some(CannotDecode(s));
      } else if parsed.value < 0 || parsed.value >= 256 {
        warning := Some(OutOfRange(s));
      } else {
        colour := MapColour(parsed.value);
      }
    }
  }

  lemma NamedBackground(name: string, current: Background)
    requires NamedColour(name).Some?
    ensures BackgroundOf(name, current) == (NamedColour(name).value, None)
    ensures BackgroundOf(UpperCase(name), current) == BackgroundOf(name, current)
  {
    NamedColourUpper(name);
  }

  /**
   * A decimal palette index of any length but six, after any number of '#',
   * selects that index when it lies in [0, 255], and otherwise warns that
   * it is out of range and keeps the colour.
   */
  lemma DecimalBackground(k: nat, n: int, current: Background)
    requires MinInt <= n <= MaxInt && |Decimal(n)| != 6
    ensures BackgroundOf(Hashes(k) + Decimal(n), current) ==
      if 0 <= n < 256 then (MapColour(n), None) else (current, Some(OutOfRange(Decimal(n))))
  {
    DecimalStripped(k, n);
    DecimalNumber(n, current);
  }

  /** A decimal numeral after '#' characters names no constant, and stripping leaves just the numeral. */
  lemma DecimalStripped(k: nat, n: int)
    ensures NamedColour(Hashes(k) + Decimal(n)).None?
    ensures WithoutHexPrefix(WithoutHashes(Hashes(k) + Decimal(n))) == Decimal(n)
  {
    var d := Decimal(n);
    WithoutHashesPrefix(k, d);
    if k > 0 {
      NotNamed(Hashes(k) + d);
    } else {
      assert Hashes(k) + d == d;
      NotNamed(d);
    }
    if |d| >= 2 {
      assert IsDigit(d[1], 10);
    }
  }

  lemma DecimalNumber(n: int, current: Background)
    requires MinInt <= n <= MaxInt && |Decimal(n)| != 6
    ensures NumberColour(Decimal(n), current) ==
      if 0 <= n < 256 then (MapColour(n), None) else (current, Some(OutOfRange(Decimal(n))))
  {
    DecimalRoundTrip(n);
    ParseIntUpper(Decimal(n), 10);
  }

  /** Digits of base `radix` have a value below radix^|s|. */
  lemma {:induction false} DigitsValueBound(s: string, radix: nat)
    requires 2 <= radix <= 36 && DigitsValue(s, radix).Some?
    ensures DigitsValue(s, radix).value < Pow(radix, |s|)
    decreases |s|
  {
    if |s| > 0 {
      var init := s[..|s| - 1];
      var last := DigitValue(s[|s| - 1]);
      assert DigitsValue(init, radix).Some? && last.Some? && last.value < radix;
      var v, d := DigitsValue(init, radix).value, last.value;
      assert DigitsValue(s, radix).value == v * radix + d;
      DigitsValueBound(init, radix);
      IndexInBounds(v, d, radix, Pow(radix, |init|));
      assert Pow(radix, |s|) == radix * Pow(radix, |init|);
    }
  }

  /**
   * Six hexadecimal digits, in either case, after one or more '#' select
   * the RGB colour they spell.
   */
  lemma HexBackground(k: nat, h: string, current: Background)
    requires k > 0 && |h| == 6 && forall i | 0 <= i < 6 :: IsDigit(h[i], 16)
    ensures DigitsValue(h, 16).Some? &&
            BackgroundOf(Hashes(k) + h, current) == (RgbColour(DigitsValue(h, 16).value), None)
  {
    DigitsValueDefined(h, 16);
    DigitsValueBound(h, 16);
    assert Pow(16, 6) == 0x100_0000;
    var v := DigitsValue(h, 16).value;
    NotNamed(Hashes(k) + h);
    WithoutHashesPrefix(k, h);
    assert IsDigit(h[0], 16) && IsDigit(h[1], 16);
    assert WithoutHexPrefix(h) == h;
    assert ParseInt(h, 16) == Ok(v);
    ParseIntUpper(h, 16);
    SixDigitNumber(h, v, current);
  }

  /** The background of the configuration's own example, '#1256FE'. */
  lemma ConfiguredExampleBackground(current: Background)
    ensures BackgroundOf("#1256FE", current) == (RgbColour(0x1256FE), None)
  {
    var h := "1256FE";
    assert "#1256FE" == Hashes(1) + h;
    assert h[..5] == "1256F" && "1256F"[..4] == "1256" && "1256"[..3] == "125";
    assert "125"[..2] == "12" && "12"[..1] == "1" && "1"[..0] == "";
    assert DigitsValue("1", 16) == Some(0x1);
    assert DigitsValue("12", 16) == Some(0x12);
    assert DigitsValue("125", 16) == Some(0x125);
    assert DigitsValue("1256", 16) == Some(0x1256);
    assert DigitsValue("1256F", 16) == Some(0x1256F);
    assert DigitsValue(h, 16) == Some(0x1256FE);
    HexBackground(1, h, current);
  }

  /** Six lower-case hexadecimal digits of an RGB value after a '#' select that colour. */
  lemma Hex6Background(rgb: nat, current: Background)
    requires rgb < 0x100_0000
    ensures BackgroundOf("#" + Hex6(rgb), current) == (RgbColour(rgb), None)
  {
    var h := Hex6(rgb);
    assert Pow(16, 6) == 0x100_0000;
    NumeralRoundTrip(rgb, 16, 6);
    DigitsValueDefined(h, 16);
    assert Hashes(1) + h == "#" + h;
    HexBackground(1, h, current);
  }

  lemma SixDigitNumber(s: string, rgb: int, current: Background)
    requires |s| == 6 && ParseInt(UpperCase(s), 16) == Ok(rgb) && 0 <= rgb < 0x100_0000
    ensures NumberColour(s, current) == (RgbColour(rgb), None)
  {
  }

  /** Nothing but '#' characters cannot be decoded, and the colour stays. */
  lemma OnlyHashesBackground(k: nat, current: Background)
    requires k > 0
    ensures BackgroundOf(Hashes(k), current) == (current, Some(CannotDecode("")))
  {
    NotNamed(Hashes(k));
    assert Hashes(k) + [] == Hashes(k);
    WithoutHashesPrefix(k, []);
  }

  /** A character that is neither a letter nor a digit after the first position cannot be decoded. */
  lemma BadCharacterBackground(name: string, current: Background, i: nat)
    requires NamedColour(name).None?
    requires var s := WithoutHexPrefix(WithoutHashes(name));
      1 <= i < |s| && DigitValue(s[i]).None?
    ensures BackgroundOf(name, current) == (current, Some(CannotDecode(WithoutHexPrefix(WithoutHashes(name)))))
  {
    var s := WithoutHexPrefix(WithoutHashes(name));
    var u := UpperCase(s);
    DigitValueUpper(s[i]);
    ParseIntBadDigit(u, 16, i);
    ParseIntBadDigit(u, 10, i);
  }

  /** The value a setting takes: the stored one, else the default. */
  function Setting<T>(stored: Option<T>, default: T): (r: T)
    ensures stored.None? ==> r == default
    ensures stored.Some? ==> r == stored.value
  {
    match stored
    case Some(v) => v
    case None => default
  }

  /** The plugin's static settings. */
  class Settings {
    var maxRenderTime: int
    var backgroundColor: Background

    constructor ()
      ensures maxRenderTime == DefaultMaxRenderTime && backgroundColor == Transparent
    {
      maxRenderTime := DefaultMaxRenderTime;
      backgroundColor := Transparent;
    }

    /**
     * enable: the render budget is the stored one, or 50; the background
     * colour is decoded from the stored name, or from "transparent".
     */
    method Enable(storedMaxRenderTime: Option<int>, storedBackground: Option<string>) returns (warning: Option<Warning>)
      modifies this
      ensures maxRenderTime == Setting(storedMaxRenderTime, DefaultMaxRenderTime)
      ensures (backgroundColor, warning) == BackgroundOf(Setting(storedBackground, DefaultBackgroundName), old(backgroundColor))
    {
      maxRenderTime := Setting(storedMaxRenderTime, DefaultMaxRenderTime);
      var name := Setting(storedBackground, DefaultBackgroundName);
      backgroundColor, warning := DecodeBackground(name, backgroundColor);
    }
  }
}
