/** Character classes used by the regular expressions of the resume cleaner.

    Python's `re` module, on `str` patterns, makes `\w` and `\s` Unicode-aware.
    On 7-bit ASCII they are fixed: `\w` is letters, digits and underscore, and
    `\s` is tab, line feed, vertical tab, form feed, carriage return, the four
    separators U+001C..U+001F and space (`str.strip` uses the same set). For the
    rest of Unicode the classes are taken as a parameter: every theorem of the
    model holds for ANY pair of classes that agrees with Python on ASCII. */
module CharClasses {

  /** The two Unicode-aware classes: `\w` and `\s`. */
  datatype Classes = Classes(isWord: char -> bool, isSpace: char -> bool)

  /** Inside the range `\x00-\x7F`. */
  predicate IsAscii(c: char) {
    c as int < 128
  }

  /** `\w` restricted to ASCII. */
  predicate AsciiWord(c: char) {
    'a' <= c <= 'z' || 'A' <= c <= 'Z' || '0' <= c <= '9' || c == '_'
  }

  /** `\s` restricted to ASCII: code points 9..13 and 28..32. */
  predicate AsciiSpace(c: char) {
    9 <= c as int <= 13 || 28 <= c as int <= 32
  }

  /** The classes behave as Python's on every ASCII character. */
  ghost predicate Agrees(cl: Classes) {
    && (forall c: char {:trigger cl.isWord(c)} :: IsAscii(c) ==> cl.isWord(c) == AsciiWord(c))
    && (forall c: char {:trigger cl.isSpace(c)} :: IsAscii(c) ==> cl.isSpace(c) == AsciiSpace(c))
  }
}
