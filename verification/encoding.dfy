/** Character encodings: UTF-8 (section 3.9 of the Unicode Standard, the
    encoding source files are saved in) and the Mac OS Roman single-byte
    code page. Reading the UTF-8 bytes of a string back as Mac OS Roman is
    how the medals of the profile page came to be stored as other
    characters (see `Profiles.RankEmojiAsWritten`). */
module Encoding {

  /** A byte, as a number. */
  type Byte = b: int | 0 <= b < 256

  /** The UTF-8 bytes of one code point: one byte below U+0080, two below
      U+0800, three below U+10000, four above. */
  function Utf8Char(c: char): (r: seq<Byte>)
    ensures 1 <= |r| <= 4
    ensures (c as int < 0x80) <==> |r| == 1
    ensures |r| == 1 ==> r[0] == c as int
    ensures |r| > 1 ==> r[0] >= 0xC0 && forall i :: 1 <= i < |r| ==> 0x80 <= r[i] < 0xC0
  {
    var cp := c as int;
    if cp < 0x80 then [cp]
    else if cp < 0x800 then [0xC0 + cp / 64, 0x80 + cp % 64]
    else if cp < 0x10000 then [0xE0 + cp / 4096, 0x80 + (cp / 64) % 64, 0x80 + cp % 64]
    else [0xF0 + cp / 262144, 0x80 + (cp / 4096) % 64, 0x80 + (cp / 64) % 64, 0x80 + cp % 64]
  }

  /** The UTF-8 bytes of a string, character by character. */
  function Utf8(s: string): (r: seq<Byte>)
    ensures |s| <= |r| <= 4 * |s|
  {
    if |s| == 0 then [] else Utf8Char(s[0]) + Utf8(s[1..])
  }

  /** The upper half of Mac OS Roman, sixteen characters per row: row
      `h` holds the characters of bytes 0x80 + 16 * h to 0x8F + 16 * h.
      (Byte 0xF0 is the Apple logo, which Unicode places in the private use
      area at U+F8FF.) */
  const MacRomanRows: seq<string> := [
    "\U{00C4}\U{00C5}\U{00C7}\U{00C9}\U{00D1}\U{00D6}\U{00DC}\U{00E1}\U{00E0}\U{00E2}\U{00E4}\U{00E3}\U{00E5}\U{00E7}\U{00E9}\U{00E8}",
    "\U{00EA}\U{00EB}\U{00ED}\U{00EC}\U{00EE}\U{00EF}\U{00F1}\U{00F3}\U{00F2}\U{00F4}\U{00F6}\U{00F5}\U{00FA}\U{00F9}\U{00FB}\U{00FC}",
    "\U{2020}\U{00B0}\U{00A2}\U{00A3}\U{00A7}\U{2022}\U{00B6}\U{00DF}\U{00AE}\U{00A9}\U{2122}\U{00B4}\U{00A8}\U{2260}\U{00C6}\U{00D8}",
    "\U{221E}\U{00B1}\U{2264}\U{2265}\U{00A5}\U{00B5}\U{2202}\U{2211}\U{220F}\U{03C0}\U{222B}\U{00AA}\U{00BA}\U{03A9}\U{00E6}\U{00F8}",
    "\U{00BF}\U{00A1}\U{00AC}\U{221A}\U{0192}\U{2248}\U{2206}\U{00AB}\U{00BB}\U{2026}\U{00A0}\U{00C0}\U{00C3}\U{00D5}\U{0152}\U{0153}",
    "\U{2013}\U{2014}\U{201C}\U{201D}\U{2018}\U{2019}\U{00F7}\U{25CA}\U{00FF}\U{0178}\U{2044}\U{20AC}\U{2039}\U{203A}\U{FB01}\U{FB02}",
    "\U{2021}\U{00B7}\U{201A}\U{201E}\U{2030}\U{00C2}\U{00CA}\U{00C1}\U{00CB}\U{00C8}\U{00CD}\U{00CE}\U{00CF}\U{00CC}\U{00D3}\U{00D4}",
    "\U{F8FF}\U{00D2}\U{00DA}\U{00DB}\U{00D9}\U{0131}\U{02C6}\U{02DC}\U{00AF}\U{02D8}\U{02D9}\U{02DA}\U{00B8}\U{02DD}\U{02DB}\U{02C7}"]

  /** Mac OS Roman: ASCII below 0x80, the table above. */
  function MacRomanChar(b: Byte): (c: char)
    ensures b < 0x80 ==> c as int == b
  {
    if b < 0x80 then b as char
    else
      var row := MacRomanRows[(b - 0x80) / 16];
      assert |row| == 16;
      row[(b - 0x80) % 16]
  }

  /** Reading bytes as Mac OS Roman: one character per byte. */
  function MacRoman(bs: seq<Byte>): (r: string)
    ensures |r| == |bs|
    ensures forall i :: 0 <= i < |bs| ==> r[i] == MacRomanChar(bs[i])
  {
    if |bs| == 0 then [] else [MacRomanChar(bs[0])] + MacRoman(bs[1..])
  }

  /** Reading `bs` gives `cs` when it does so byte by byte. */
  lemma {:induction false} MacRomanIs(bs: seq<Byte>, cs: string)
    requires |bs| == |cs| && forall i :: 0 <= i < |bs| ==> MacRomanChar(bs[i]) == cs[i]
    ensures MacRoman(bs) == cs
  {
  }

  /** An ASCII string survives being read in the wrong code page. */
  lemma {:induction false} AsciiSurvives(s: string)
    requires forall i :: 0 <= i < |s| ==> s[i] as int < 0x80
    ensures MacRoman(Utf8(s)) == s
  {
    if |s| > 0 {
      AsciiSurvives(s[1..]);
      assert s == [s[0]] + s[1..];
    }
  }

  /** A character outside ASCII never does: it takes two to four bytes,
      and each byte reads as a character of its own. */
  lemma {:induction false} NonAsciiGarbled(c: char)
    requires c as int >= 0x80
    ensures MacRoman(Utf8([c])) != [c]
  {
    assert Utf8([c]) == Utf8Char(c);
  }
}
