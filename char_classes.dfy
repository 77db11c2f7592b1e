/** The character classes the cleaner's regular expressions rely on.

    Python decides `\w` and `\s` from the Unicode database. That table is not
    part of this model: a `Classes` value stands for it, and `Valid()` lists
    the few facts about it that the proofs are allowed to use. */
module CharClasses {

  /** Membership in Python's `\w` (word character) and `\s` (whitespace). */
  datatype Classes = Classes(isWord: char -> bool, isSpace: char -> bool)
  {
    /** What the model assumes of the Unicode tables: ASCII letters, digits
        and `_` are word characters; space, tab, newline and carriage return
        are whitespace; and no character is both. */
    ghost predicate Valid()
    {
      && (forall c :: IsAsciiAlnum(c) ==> isWord(c))
      && isWord('_')
      && isSpace(' ') && isSpace('\t') && isSpace('\n') && isSpace('\r')
      && (forall c :: !(isWord(c) && isSpace(c)))
    }
  }

  predicate IsAsciiLetter(c: char)
  {
    'A' <= c <= 'Z' || 'a' <= c <= 'z'
  }

  predicate IsAsciiDigit(c: char)
  {
    '0' <= c <= '9'
  }

  /** The class `[A-Za-z0-9]`. */
  predicate IsAsciiAlnum(c: char)
  {
    IsAsciiLetter(c) || IsAsciiDigit(c)
  }

  /** A classification that satisfies `Valid()`, so the facts above are
      consistent. It is not Python's table: it takes every code point of
      U+1200..U+135A as a word character, the unassigned ones included,
      and only the six ASCII whitespace characters as spaces. */
  function Sample(): (cls: Classes)
    ensures cls.Valid()
  {
    Classes(
      c => IsAsciiAlnum(c) || c == '_' || 'ሀ' <= c <= 'ፚ',
      c => c == ' ' || c == '\t' || c == '\n' || c == '\r' || c == '\U{B}' || c == '\U{C}')
  }
}
