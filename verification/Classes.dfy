/** The classes of characters and bytes, by name and number. */
module Classes {
  import opened Runes
  import Digest
  import Text
  import Utf8
  import opened Bytes

  /** unicode.IsSpace: the White_Space property of the Unicode Character Database. */
  lemma SpacesAre(c: char)
    ensures Text.IsSpace(c) <==> c as int in {
      0x9, 0xA, 0xB, 0xC, 0xD, 0x20, 0x85, 0xA0, 0x1680,
      0x2000, 0x2001, 0x2002, 0x2003, 0x2004, 0x2005, 0x2006, 0x2007, 0x2008, 0x2009, 0x200A,
      0x2028, 0x2029, 0x202F, 0x205F, 0x3000 }
  {
  }

  /** Python's whitespace: the four information separators besides. */
  lemma PySpacesAre(c: char)
    ensures IsPySpace(c) <==> Text.IsSpace(c) || c as int in {0x1C, 0x1D, 0x1E, 0x1F}
  {
  }

  lemma BreaksAre(c: char)
    ensures IsBreak(c) <==> c as int in {0xA, 0xB, 0xC, 0xD, 0x1C, 0x1D, 0x1E, 0x85, 0x2028, 0x2029}
  {
  }

  lemma LettersAre(c: char)
    ensures IsFoldedLetter(c) <==>
              || c in "abcdefghijklm" || c in "nopqrstuvwxyz"
              || c in "ABCDEFGHIJKLM" || c in "NOPQRSTUVWXYZ" || c as int in {0x17F, 0x212A}
  {
  }

  lemma StrippedAre(c: char)
    ensures Digest.IsAsciiSpace(c) <==> c as int in {0x20, 0x9, 0xA, 0xD, 0xB, 0xC}
  {
  }

  /** The ASCII bytes are the characters of UTF-8 that are one byte. */
  lemma AsciiIs(b: Byte)
    ensures Utf8.IsAscii(b) <==> Utf8.IsUtf8Char([b])
  {
  }
}
