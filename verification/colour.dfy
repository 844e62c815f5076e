/** Pixel colours and the "#rrggbb" text codec of the turmite program. */
module Colour {
  import opened Results

  /** A colour as pygame compares it: red, green, blue and alpha channels. */
  datatype Rgba = Rgba(r: int, g: int, b: int, a: int)

  predicate IsByte(n: int) { 0 <= n < 256 }

  /** pygame accepts a colour argument only when every channel is a byte. */
  predicate Paintable(c: Rgba) {
    IsByte(c.r) && IsByte(c.g) && IsByte(c.b) && IsByte(c.a)
  }

  /** Value of one hexadecimal digit, either case. */
  function DigitValue(c: char): (r: Option<nat>)
    ensures r.Some? ==> r.value < 16
  {
    if '0' <= c <= '9' then Some(c as int - '0' as int)
    else if 'a' <= c <= 'f' then Some(c as int - 'a' as int + 10)
    else if 'A' <= c <= 'F' then Some(c as int - 'A' as int + 10)
    else None
  }

  predicate IsHexDigit(c: char) { DigitValue(c).Some? }

  /** Value of a nonempty run of hexadecimal digits; None if it is empty or holds anything else. */
  function DigitsValue(t: string): (r: Option<nat>)
    decreases |t|
  {
    if |t| == 0 then None
    else if |t| == 1 then DigitValue(t[0])
    else match (DigitsValue(t[..|t| - 1]), DigitValue(t[|t| - 1]))
      case (Some(hi), Some(lo)) => Some(16 * hi + lo)
      case _ => None
  }

  /** The whitespace Python's int() strips around an ASCII numeral. */
  predicate IsSpace(c: char) {
    c == ' ' || c == '\t' || c == '\n' || c == '\r' || c == 11 as char || c == 12 as char
  }

  function TrimStart(s: string): string {
    if |s| > 0 && IsSpace(s[0]) then TrimStart(s[1..]) else s
  }

  function TrimEnd(s: string): string {
    if |s| > 0 && IsSpace(s[|s| - 1]) then TrimEnd(s[..|s| - 1]) else s
  }

  /** int(f, 16): surrounding whitespace, then an optional sign, then hexadecimal
      digits; None where Python raises ValueError. */
  function ParseHex(f: string): (r: Option<int>)
    ensures TrimEnd(TrimStart(f)) == [] ==> r.None?
    ensures |f| == 2 && IsHexDigit(f[0]) && IsHexDigit(f[1]) ==>
              r == Some(16 * DigitValue(f[0]).value + DigitValue(f[1]).value)
    ensures |f| == 2 && (f[0] == '+' || f[0] == '-') && IsHexDigit(f[1]) ==>
              r == Some(if f[0] == '-' then -(DigitValue(f[1]).value as int) else DigitValue(f[1]).value)
    ensures |f| == 2 && !IsSpace(f[0]) && !IsHexDigit(f[0]) && f[0] != '+' && f[0] != '-' ==> r.None?
    ensures |f| == 2 && !IsSpace(f[1]) && !IsHexDigit(f[1]) ==> r.None?
    ensures |f| == 1 ==> (r.Some? <==> IsHexDigit(f[0])) && (r.Some? ==> r.value == DigitValue(f[0]).value)
  {
    var t := TrimEnd(TrimStart(f));
    TrimField(f);
    DigitsShort(f);
    assert |f| == 2 ==> f[1..] == [f[1]];
    assert |f| == 2 && IsHexDigit(f[1]) ==> !IsSpace(f[1]);
    if |t| > 0 && (t[0] == '+' || t[0] == '-') then
      match DigitsValue(t[1..])
      case None => None
      case Some(m) => Some(if t[0] == '-' then -(m as int) else m as int)
    else DigitsValue(t)
  }

  /** Python's s[i:j] for 0 <= i <= j: both ends clipped to the length. */
  function Slice(s: string, i: nat, j: nat): (r: string)
    requires i <= j
    ensures |r| <= j - i
  {
    var hi := if j <= |s| then j else |s|;
    var lo := if i <= hi then i else hi;
    s[lo..hi]
  }

  /** A character int(_, 16) rejects wherever it stands in a field: not a
      digit, not whitespace and not a sign. */
  predicate Stray(c: char) {
    !IsHexDigit(c) && !IsSpace(c) && c != '+' && c != '-'
  }

  /** One of the six characters after the first is stray. */
  predicate HasStray(hex: string) {
    exists i :: 1 <= i < |hex| && i < 7 && Stray(hex[i])
  }

  /** A field of at most two characters holding a stray character does not parse. */
  lemma FieldRejects(f: string, j: nat)
    requires |f| <= 2 && j < |f| && Stray(f[j])
    ensures ParseHex(f).None?
  {
  }

  /** A stray character among the six after the first makes one of
      hex_to_rgb's three fields fail to parse. */
  lemma StrayRejects(hex: string)
    ensures var body := if |hex| == 0 then hex else hex[1..];
              HasStray(hex) ==>
                ParseHex(Slice(body, 0, 2)).None? || ParseHex(Slice(body, 2, 4)).None? ||
                ParseHex(Slice(body, 4, 6)).None?
  {
    var body := if |hex| == 0 then hex else hex[1..];
    if HasStray(hex) {
      var i :| 1 <= i < |hex| && i < 7 && Stray(hex[i]);
      var k := (i - 1) / 2 * 2;
      assert k == 0 || k == 2 || k == 4;
      var f := Slice(body, k, k + 2);
      assert body[i - 1] == hex[i];
      assert f == body[k..if k + 2 <= |body| then k + 2 else |body|];
      assert f[i - 1 - k] == hex[i];
      FieldRejects(f, i - 1 - k);
    }
  }

  /** hex_to_rgb raises on a string of at most five characters, whose last
      field is empty, and on one with a stray character among the six after
      the first. */
  lemma HexToRgbRejects(hex: string)
    ensures |hex| <= 5 ==> HexToRgb(hex).None?
    ensures HasStray(hex) ==> HexToRgb(hex).None?
  {
    StrayRejects(hex);
    var body := if |hex| == 0 then hex else hex[1..];
    assert |hex| <= 5 ==> Slice(body, 4, 6) == [];
  }

  /** A canonical colour string: '#' and six hexadecimal digits. */
  predicate WellFormedHex(s: string) {
    |s| == 7 && s[0] == '#' && forall i :: 1 <= i < 7 ==> IsHexDigit(s[i])
  }

  /** Value of the two digits s[i], s[i+1]. */
  function PairValue(s: string, i: nat): nat
    requires i + 1 < |s| && IsHexDigit(s[i]) && IsHexDigit(s[i + 1])
  {
    16 * DigitValue(s[i]).value + DigitValue(s[i + 1]).value
  }

  /** hex_to_rgb: drop the first character, parse the three two-character fields
      with int(_, 16), and append an opaque alpha. */
  function HexToRgb(hex: string): (r: Option<Rgba>)
    ensures r.Some? ==> r.value.a == 255
    ensures r.Some? ==> -15 <= r.value.r < 256 && -15 <= r.value.g < 256 && -15 <= r.value.b < 256
  {
    var body := if |hex| == 0 then hex else hex[1..];
    FieldBound(Slice(body, 0, 2));
    FieldBound(Slice(body, 2, 4));
    FieldBound(Slice(body, 4, 6));
    var red :- ParseHex(Slice(body, 0, 2));
    var green :- ParseHex(Slice(body, 2, 4));
    var blue :- ParseHex(Slice(body, 4, 6));
    Some(Rgba(red, green, blue, 255))
  }

  /** The lower-case hexadecimal digit for n, as '%x' writes it. */
  function LowerDigit(n: nat): char
    requires n < 16
  {
    if n < 10 then ('0' as int + n) as char else ('a' as int + n - 10) as char
  }

  /** The lower-case hexadecimal numeral of n, without leading zeros. */
  function HexDigits(n: nat): (s: string)
    ensures |s| >= 1
    ensures |s| == 1 <==> n < 16
    ensures n >= 256 ==> |s| >= 3
    decreases n
  {
    if n < 16 then [LowerDigit(n)] else HexDigits(n / 16) + [LowerDigit(n % 16)]
  }

  /** Python's '%02x' % n: zero-padded to two characters, a minus sign for negatives. */
  function Format02x(n: int): (f: string)
    ensures |f| >= 2
    ensures |f| == 2 <==> -15 <= n < 256
  {
    if n < 0 then "-" + HexDigits(-n)
    else if n < 16 then "0" + HexDigits(n)
    else HexDigits(n)
  }

  /** rgb_to_hex: '#' and the three channels in '%02x'; the alpha is ignored. */
  function RgbToHex(r: int, g: int, b: int, a: int): (hex: string)
    ensures |hex| >= 7 && hex[0] == '#'
    ensures |hex| == 7 <==> -15 <= r < 256 && -15 <= g < 256 && -15 <= b < 256
    ensures r < 0 ==> hex[1] == '-'
    ensures IsByte(r) && IsByte(g) && IsByte(b) ==>
              hex == ['#', LowerDigit(r / 16), LowerDigit(r % 16), LowerDigit(g / 16), LowerDigit(g % 16),
                      LowerDigit(b / 16), LowerDigit(b % 16)]
  {
    Format02xByte(r);
    Format02xByte(g);
    Format02xByte(b);
    "#" + Format02x(r) + Format02x(g) + Format02x(b)
  }

  /** str.lower restricted to ASCII letters. */
  function LowerChar(c: char): char {
    if 'A' <= c <= 'Z' then (c as int + 32) as char else c
  }

  function Lower(s: string): (r: string)
    ensures |r| == |s| && forall i :: 0 <= i < |s| ==> r[i] == LowerChar(s[i])
  {
    seq(|s|, i requires 0 <= i < |s| => LowerChar(s[i]))
  }

  // ---------------------------------------------------------------- lemmas

  /** A canonical "#rrggbb" string decodes to its three byte values, opaque. */
  lemma HexToRgbWellFormed(hex: string)
    requires WellFormedHex(hex)
    ensures HexToRgb(hex) == Some(Rgba(PairValue(hex, 1), PairValue(hex, 3), PairValue(hex, 5), 255))
    ensures Paintable(HexToRgb(hex).value)
  {
    var body := hex[1..];
    WellFormedField(hex, 1);
    WellFormedField(hex, 3);
    WellFormedField(hex, 5);
    assert Slice(body, 0, 2) == hex[1..3];
    assert Slice(body, 2, 4) == hex[3..5];
    assert Slice(body, 4, 6) == hex[5..7];
  }

  /** A field of at most two characters parses, if at all, to a value in -15..255. */
  lemma FieldBound(f: string)
    requires |f| <= 2
    ensures ParseHex(f).Some? ==> -15 <= ParseHex(f).value < 256
  {
    var t := TrimEnd(TrimStart(f));
    TrimShrinks(f);
    if |t| > 0 && (t[0] == '+' || t[0] == '-') {
      DigitsBound(t[1..]);
    } else {
      DigitsBound(t);
    }
  }

  lemma TrimShrinks(s: string)
    ensures |TrimEnd(TrimStart(s))| <= |s|
  {
    TrimStartShrinks(s);
    TrimEndShrinks(TrimStart(s));
  }

  lemma TrimStartShrinks(s: string)
    ensures |TrimStart(s)| <= |s|
  {
  }

  lemma TrimEndShrinks(s: string)
    ensures |TrimEnd(s)| <= |s|
  {
  }

  lemma DigitsBound(t: string)
    requires |t| <= 2
    ensures DigitsValue(t).Some? ==> DigitsValue(t).value < if |t| == 1 then 16 else 256
  {
  }

  /** Two hexadecimal digits at s[i..i+2] parse to their value. */
  lemma WellFormedField(s: string, i: nat)
    requires i + 1 < |s| && IsHexDigit(s[i]) && IsHexDigit(s[i + 1])
    ensures ParseHex(s[i..i + 2]) == Some(PairValue(s, i) as int)
  {
    var f := s[i..i + 2];
    assert !IsSpace(f[0]) && !IsSpace(f[1]);
    assert TrimStart(f) == f;
    assert TrimEnd(f) == f;
    assert f[..1] == [s[i]];
    assert f[0] != '+' && f[0] != '-';
    assert DigitsValue(f[..1]) == DigitValue(s[i]);
    assert DigitsValue(f) == Some(PairValue(s, i));
  }

  /** A two-character field not starting with whitespace keeps its first
      character, and its second unless that is whitespace. */
  lemma TrimField(f: string)
    ensures |f| == 2 && !IsSpace(f[0]) ==>
              TrimEnd(TrimStart(f)) == if IsSpace(f[1]) then [f[0]] else f
    ensures |f| == 2 && IsSpace(f[0]) && !IsSpace(f[1]) ==> TrimEnd(TrimStart(f)) == [f[1]]
    ensures |f| == 1 ==> TrimEnd(TrimStart(f)) == if IsSpace(f[0]) then [] else f
  {
    if |f| == 2 && IsSpace(f[0]) && !IsSpace(f[1]) {
      assert f[1..] == [f[1]];
    }
    if |f| == 2 && !IsSpace(f[0]) {
      assert TrimStart(f) == f;
      if IsSpace(f[1]) {
        assert TrimEnd(f) == TrimEnd(f[..1]);
        assert f[..1] == [f[0]];
      }
    }
  }

  /** Digit runs of one and two characters. */
  lemma DigitsShort(t: string)
    ensures |t| == 1 ==> DigitsValue(t) == DigitValue(t[0])
    ensures |t| == 2 ==> DigitsValue([t[0]]) == DigitValue(t[0])
    ensures |t| == 2 && IsHexDigit(t[0]) && IsHexDigit(t[1]) ==>
              DigitsValue(t) == Some(16 * DigitValue(t[0]).value + DigitValue(t[1]).value)
    ensures |t| == 2 && !IsHexDigit(t[0]) ==> DigitsValue(t).None?
    ensures |t| == 2 && !IsHexDigit(t[1]) ==> DigitsValue(t).None?
  {
    if |t| == 2 {
      assert t[..1] == [t[0]];
    }
  }

  /** '%02x' of a byte is exactly its two lower-case digits. */
  lemma Format02xByte(n: int)
    ensures IsByte(n) ==> Format02x(n) == [LowerDigit(n / 16), LowerDigit(n % 16)]
  {
    if IsByte(n) && n >= 16 {
      assert HexDigits(n / 16) == [LowerDigit(n / 16)];
    }
  }

  /** rgb_to_hex of three bytes is a canonical lower-case colour string. */
  lemma RgbToHexWellFormed(r: int, g: int, b: int, a: int)
    requires IsByte(r) && IsByte(g) && IsByte(b)
    ensures WellFormedHex(RgbToHex(r, g, b, a))
    ensures Lower(RgbToHex(r, g, b, a)) == RgbToHex(r, g, b, a)
    ensures var s := RgbToHex(r, g, b, a);
              PairValue(s, 1) == r && PairValue(s, 3) == g && PairValue(s, 5) == b
  {
    Format02xByte(r);
    Format02xByte(g);
    Format02xByte(b);
    var s := RgbToHex(r, g, b, a);
    assert s == ['#', LowerDigit(r / 16), LowerDigit(r % 16), LowerDigit(g / 16), LowerDigit(g % 16),
                 LowerDigit(b / 16), LowerDigit(b % 16)];
  }

  /** Encoding three bytes and decoding again gives them back, with alpha forced opaque. */
  lemma BytesRoundTrip(r: int, g: int, b: int, a: int)
    requires IsByte(r) && IsByte(g) && IsByte(b)
    ensures HexToRgb(RgbToHex(r, g, b, a)) == Some(Rgba(r, g, b, 255))
  {
    RgbToHexWellFormed(r, g, b, a);
    HexToRgbWellFormed(RgbToHex(r, g, b, a));
  }

  /** Decoding a canonical colour string and encoding again gives its lower-case form. */
  lemma StringRoundTrip(s: string)
    requires WellFormedHex(s)
    ensures HexToRgb(s).Some?
    ensures var c := HexToRgb(s).value; RgbToHex(c.r, c.g, c.b, c.a) == Lower(s)
  {
    HexToRgbWellFormed(s);
    var c := HexToRgb(s).value;
    PairDigits(s, 1);
    PairDigits(s, 3);
    PairDigits(s, 5);
    var l := Lower(s);
    assert l == [LowerChar(s[0]), LowerChar(s[1]), LowerChar(s[2]), LowerChar(s[3]), LowerChar(s[4]),
                 LowerChar(s[5]), LowerChar(s[6])];
  }

  /** The digits of a pair's value, re-written in lower case, are the pair lower-cased. */
  lemma PairDigits(s: string, i: nat)
    requires i + 1 < |s| && IsHexDigit(s[i]) && IsHexDigit(s[i + 1])
    ensures LowerDigit(PairValue(s, i) / 16) == LowerChar(s[i])
    ensures LowerDigit(PairValue(s, i) % 16) == LowerChar(s[i + 1])
  {
    var hi, lo := DigitValue(s[i]).value, DigitValue(s[i + 1]).value;
    assert PairValue(s, i) / 16 == hi && PairValue(s, i) % 16 == lo;
  }
}
