/** Colour values and their wire form: "transparent" or "#rrggbb" in lower-case hex. */
module Colors {

  datatype Color = Color(red: int, green: int, blue: int, transparent: bool)

  const Red := Color(180, 0, 0, false)
  const Green := Color(0, 150, 0, false)
  const Blue := Color(0, 0, 200, false)
  const Yellow := Color(255, 215, 0, false)
  const White := Color(255, 255, 255, false)
  const LightGrey := Color(199, 199, 199, false)
  const Grey := Color(127, 127, 127, false)
  const DarkGrey := Color(82, 82, 82, false)
  const Black := Color(0, 0, 0, false)
  const Transparent := Color(0, 0, 0, true)

  /** `Color.rgb`: an opaque colour. */
  function Rgb(red: int, green: int, blue: int): (c: Color)
    ensures !c.transparent && c.red == red && c.green == green && c.blue == blue
  {
    Color(red, green, blue, false)
  }

  /** One lower-case hex digit: '0' to '9', then 'a' to 'f'. */
  predicate IsHexDigit(ch: char)
  {
    '0' <= ch <= '9' || 'a' <= ch <= 'f'
  }

  /** The digit `"%x"` writes for a value below 16. */
  function HexDigit(d: int): (ch: char)
    requires 0 <= d < 16
    ensures IsHexDigit(ch)
  {
    if d < 10 then ('0' as int + d) as char else ('a' as int + d - 10) as char
  }

  /** The value of one lower-case hex digit. */
  function DigitValue(ch: char): (d: int)
    ensures IsHexDigit(ch) ==> 0 <= d < 16 && HexDigit(d) == ch
  {
    if '0' <= ch <= '9' then ch as int - '0' as int
    else if 'a' <= ch <= 'f' then ch as int - 'a' as int + 10
    else -1
  }

  /** `"%x" % v` for a non-negative v. */
  function Hex(v: nat): (s: string)
    ensures |s| >= 1
    ensures forall i | 0 <= i < |s| :: IsHexDigit(s[i])
    decreases v
  {
    if v < 16 then [HexDigit(v)] else Hex(v / 16) + [HexDigit(v % 16)]
  }

  /** `"%02x" % v`: at least two digits, the sign counting toward the width. */
  function Hex02(v: int): (s: string)
    ensures |s| >= 2
    ensures s[0] == '-' <==> v < 0
    ensures forall i | (if v < 0 then 1 else 0) <= i < |s| :: IsHexDigit(s[i])
  {
    if v < 0 then "-" + Hex(-v)
    else if v < 16 then "0" + Hex(v)
    else Hex(v)
  }

  /** Reads a string of hex digits back as a number. */
  function ParseHex(s: string): int
  {
    if s == [] then 0 else ParseHex(s[..|s| - 1]) * 16 + DigitValue(s[|s| - 1])
  }

  /** `Color.hex_string`. */
  function HexString(c: Color): (s: string)
    ensures s == "transparent" <==> c.transparent
    ensures !c.transparent ==> |s| >= 7 && s[0] == '#'
  {
    if c.transparent then "transparent"
    else
      var s := "#" + Hex02(c.red) + Hex02(c.green) + Hex02(c.blue);
      assert s[0] != "transparent"[0];
      s
  }

  predicate IsByte(v: int)
  {
    0 <= v < 256
  }

  lemma {:induction false} HexRoundTrip(v: nat)
    ensures ParseHex(Hex(v)) == v
    decreases v
  {
    var s := Hex(v);
    if v >= 16 {
      HexRoundTrip(v / 16);
      assert s[..|s| - 1] == Hex(v / 16);
    } else {
      assert s[..|s| - 1] == [];
    }
  }

  /** A byte prints as exactly two digits, which read back as the byte. */
  lemma ByteRoundTrip(v: int)
    requires IsByte(v)
    ensures |Hex02(v)| == 2
    ensures ParseHex(Hex02(v)) == v
  {
    HexRoundTrip(v);
    if v < 16 {
      var s := Hex02(v);
      assert s[..1] == "0";
      assert ParseHex("0") == 0 by { assert "0"[..0] == []; }
    }
  }

  /**
   * For an opaque colour with byte components the wire form is seven characters, '#' and three
   * two-digit fields that read back as red, green and blue; a transparent colour is the literal.
   */
  lemma HexStringRoundTrip(c: Color)
    ensures c.transparent ==> HexString(c) == "transparent"
    ensures !c.transparent && IsByte(c.red) && IsByte(c.green) && IsByte(c.blue) ==>
      var s := HexString(c);
      && |s| == 7 && s[0] == '#'
      && ParseHex(s[1..3]) == c.red && ParseHex(s[3..5]) == c.green && ParseHex(s[5..7]) == c.blue
  {
    if !c.transparent && IsByte(c.red) && IsByte(c.green) && IsByte(c.blue) {
      ByteRoundTrip(c.red);
      ByteRoundTrip(c.green);
      ByteRoundTrip(c.blue);
      var r, g, b := Hex02(c.red), Hex02(c.green), Hex02(c.blue);
      var s := HexString(c);
      assert s == "#" + r + g + b;
      assert s[1..3] == r && s[3..5] == g && s[5..7] == b;
    }
  }
}
