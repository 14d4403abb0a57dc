/**
 * Rows of the reversal test table. A Go string literal holds the UTF-8
 * encoding of its characters, so a row is written as Encode of the code
 * points the literal spells; the rows with raw bytes are written as bytes.
 */
module Utf8ReverseCases {
  import opened Utf8Reverse

  lemma EmptyCase()
    ensures Reverse([]) == []
  {
  }

  /** "x": a single character is unchanged. */
  lemma SingleCase()
    ensures Reverse(Encode([0x78])) == Encode([0x78])
  {
    var rs: seq<Rune> := [0x78];
    RevUnique(rs, rs);
    ReverseEncoded(rs);
  }

  /** "Hello!" and "!olleH" are ASCII: each code point is one byte of the same value. */
  lemma AsciiBytes()
    ensures Encode([0x48, 0x65, 0x6C, 0x6C, 0x6F, 0x21]) == [0x48, 0x65, 0x6C, 0x6C, 0x6F, 0x21]
  {
  }

  /** "Hello!" becomes "!olleH". */
  lemma AsciiCase()
    ensures Reverse(Encode([0x48, 0x65, 0x6C, 0x6C, 0x6F, 0x21]))
         == Encode([0x21, 0x6F, 0x6C, 0x6C, 0x65, 0x48])
  {
    var rs: seq<Rune>, ys: seq<Rune> := [0x48, 0x65, 0x6C, 0x6C, 0x6F, 0x21], [0x21, 0x6F, 0x6C, 0x6C, 0x65, 0x48];
    RevUnique(rs, ys);
    ReverseEncoded(rs);
  }

  /** "\r\n" becomes "\n\r": control characters are code points like any other. */
  lemma ControlCase()
    ensures Reverse([0x0D, 0x0A]) == [0x0A, 0x0D]
  {
  }

  /** "\n\n" reads the same both ways. */
  lemma NewlinesCase()
    ensures Reverse(Encode([0x0A, 0x0A])) == Encode([0x0A, 0x0A])
  {
    var rs: seq<Rune> := [0x0A, 0x0A];
    RevUnique(rs, rs);
    ReverseEncoded(rs);
  }

  /** "\t*" becomes "*\t". */
  lemma TabCase()
    ensures Reverse(Encode([0x09, 0x2A]))
         == Encode([0x2A, 0x09])
  {
    var rs: seq<Rune>, ys: seq<Rune> := [0x09, 0x2A], [0x2A, 0x09];
    RevUnique(rs, ys);
    ReverseEncoded(rs);
  }

  /** "\xff\x00\xff\x00": each invalid byte comes back as EF BF BD. */
  lemma InvalidCase()
    ensures Reverse([0xFF, 0x00, 0xFF, 0x00]) == [0x00, 0xEF, 0xBF, 0xBD, 0x00, 0xEF, 0xBF, 0xBD]
  {
    var rs: seq<Rune>, ys: seq<Rune> := [0xFFFD, 0x00, 0xFFFD, 0x00], [0x00, 0xFFFD, 0x00, 0xFFFD];
    RevUnique(rs, ys);
    InvalidDecode();
    InvalidBytes();
  }

  /** U+0000 and U+FFFD, twice over, are 00 EF BF BD 00 EF BF BD. */
  lemma InvalidBytes()
    ensures Encode([0x00, 0xFFFD, 0x00, 0xFFFD]) == [0x00, 0xEF, 0xBF, 0xBD, 0x00, 0xEF, 0xBF, 0xBD]
  {
  }

  /** Each byte FF decodes as U+FFFD, each 00 as itself. */
  lemma InvalidDecode()
    ensures Decode([0xFF, 0x00, 0xFF, 0x00]) == [0xFFFD, 0x00, 0xFFFD, 0x00]
  {
    var s: seq<byte> := [0xFF, 0x00, 0xFF, 0x00];
    var t := s[2..];
    InvalidLead(s);
    InvalidLead(t);
    assert s[1..][1..] == t && t[1..][1..] == [];
    assert DecodeFirst(s[1..]) == Step(0, 1, true) && DecodeFirst(t[1..]) == Step(0, 1, true);
    assert Decode(t) == [Replacement, 0];
  }

  /** "Привет" becomes "тевирП": two-byte characters stay whole. */
  lemma CyrillicBytes()
    ensures Encode([0x41F, 0x440, 0x438, 0x432, 0x435, 0x442])
         == [0xD0, 0x9F, 0xD1, 0x80, 0xD0, 0xB8, 0xD0, 0xB2, 0xD0, 0xB5, 0xD1, 0x82]
  {
  }

  lemma CyrillicCase()
    ensures Reverse(Encode([0x41F, 0x440, 0x438, 0x432, 0x435, 0x442]))
         == Encode([0x442, 0x435, 0x432, 0x438, 0x440, 0x41F])
  {
    var rs: seq<Rune>, ys: seq<Rune> := [0x41F, 0x440, 0x438, 0x432, 0x435, 0x442], [0x442, 0x435, 0x432, 0x438, 0x440, 0x41F];
    RevUnique(rs, ys);
    ReverseEncoded(rs);
  }

  /** "Hello, 世界" becomes "界世 ,olleH": three-byte characters stay whole. */
  lemma MixedCase()
    ensures Reverse(Encode([0x48, 0x65, 0x6C, 0x6C, 0x6F, 0x2C, 0x20, 0x4E16, 0x754C]))
         == Encode([0x754C, 0x4E16, 0x20, 0x2C, 0x6F, 0x6C, 0x6C, 0x65, 0x48])
  {
    var rs: seq<Rune>, ys: seq<Rune> := [0x48, 0x65, 0x6C, 0x6C, 0x6F, 0x2C, 0x20, 0x4E16, 0x754C], [0x754C, 0x4E16, 0x20, 0x2C, 0x6F, 0x6C, 0x6C, 0x65, 0x48];
    RevUnique(rs, ys);
    ReverseEncoded(rs);
  }

  /** "möp" with a combining diaeresis: the mark moves onto the "p". */
  lemma CombiningCase()
    ensures Reverse(Encode([0x6D, 0x6F, 0x308, 0x70]))
         == Encode([0x70, 0x308, 0x6F, 0x6D])
  {
    var rs: seq<Rune>, ys: seq<Rune> := [0x6D, 0x6F, 0x308, 0x70], [0x70, 0x308, 0x6F, 0x6D];
    RevUnique(rs, ys);
    ReverseEncoded(rs);
  }

  /** A syllable spelt as three conjoining jamo falls apart into its jamo. */
  lemma HangulCase()
    ensures Reverse(Encode([0x1105, 0x116C, 0x11AB]))
         == Encode([0x11AB, 0x116C, 0x1105])
  {
    var rs: seq<Rune>, ys: seq<Rune> := [0x1105, 0x116C, 0x11AB], [0x11AB, 0x116C, 0x1105];
    RevUnique(rs, ys);
    ReverseEncoded(rs);
  }

  /** The Thai vowel sign SARA AM, U+0E33, alone is unchanged. */
  lemma ThaiCase()
    ensures Reverse(Encode([0x0E33])) == Encode([0x0E33])
  {
    var rs: seq<Rune> := [0x0E33];
    RevUnique(rs, rs);
    ReverseEncoded(rs);
  }

  /** Two SARA AM signs read the same both ways. */
  lemma ThaiTwiceCase()
    ensures Reverse(Encode([0x0E33, 0x0E33])) == Encode([0x0E33, 0x0E33])
  {
    var rs: seq<Rune> := [0x0E33, 0x0E33];
    RevUnique(rs, rs);
    ReverseEncoded(rs);
  }

  /** A zero-width-joiner emoji sequence is reversed rune by rune. */
  lemma KissCase()
    ensures Reverse(Encode([0x1F469, 0x200D, 0x2764, 0xFE0F, 0x200D, 0x1F48B, 0x200D, 0x1F469]))
         == Encode([0x1F469, 0x200D, 0x1F48B, 0x200D, 0xFE0F, 0x2764, 0x200D, 0x1F469])
  {
    var rs: seq<Rune>, ys: seq<Rune> := [0x1F469, 0x200D, 0x2764, 0xFE0F, 0x200D, 0x1F48B, 0x200D, 0x1F469], [0x1F469, 0x200D, 0x1F48B, 0x200D, 0xFE0F, 0x2764, 0x200D, 0x1F469];
    RevUnique(rs, ys);
    ReverseEncoded(rs);
  }

  /** A skin-tone modifier and a gender sign are separate runes too. */
  lemma LifterCase()
    ensures Reverse(Encode([0x1F3CB, 0x1F3FD, 0x200D, 0x2640, 0xFE0F]))
         == Encode([0xFE0F, 0x2640, 0x200D, 0x1F3FD, 0x1F3CB])
  {
    var rs: seq<Rune>, ys: seq<Rune> := [0x1F3CB, 0x1F3FD, 0x200D, 0x2640, 0xFE0F], [0xFE0F, 0x2640, 0x200D, 0x1F3FD, 0x1F3CB];
    RevUnique(rs, ys);
    ReverseEncoded(rs);
  }

  /** U+1F642 is four bytes in UTF-8. */
  lemma EmojiBytes()
    ensures Encode([0x1F642]) == [0xF0, 0x9F, 0x99, 0x82]
  {
  }

  /** A four-byte character alone is unchanged. */
  lemma EmojiCase()
    ensures Reverse(Encode([0x1F642])) == Encode([0x1F642])
  {
    var rs: seq<Rune> := [0x1F642];
    RevUnique(rs, rs);
    ReverseEncoded(rs);
  }

  /** Two of the same four-byte character are unchanged. */
  lemma EmojiTwiceCase()
    ensures Reverse(Encode([0x1F642, 0x1F642])) == Encode([0x1F642, 0x1F642])
  {
    var rs: seq<Rune> := [0x1F642, 0x1F642];
    RevUnique(rs, rs);
    ReverseEncoded(rs);
  }

  /** The flag of Germany, D then E, becomes E then D. */
  lemma FlagCase()
    ensures Reverse(Encode([0x1F1E9, 0x1F1EA]))
         == Encode([0x1F1EA, 0x1F1E9])
  {
    var rs: seq<Rune>, ys: seq<Rune> := [0x1F1E9, 0x1F1EA], [0x1F1EA, 0x1F1E9];
    RevUnique(rs, ys);
    ReverseEncoded(rs);
  }

  /** The rainbow flag is reversed rune by rune. */
  lemma RainbowCase()
    ensures Reverse(Encode([0x1F3F3, 0xFE0F, 0x200D, 0x1F308]))
         == Encode([0x1F308, 0x200D, 0xFE0F, 0x1F3F3])
  {
    var rs: seq<Rune>, ys: seq<Rune> := [0x1F3F3, 0xFE0F, 0x200D, 0x1F308], [0x1F308, 0x200D, 0xFE0F, 0x1F3F3];
    RevUnique(rs, ys);
    ReverseEncoded(rs);
  }
}
