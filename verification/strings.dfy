/** Character classes and the blank test used by the validator. */
module Strings {
  import opened Wrappers

  /** The characters `Character.isWhitespace` accepts in the ASCII range:
      space, tab, line feed, vertical tab, form feed, carriage return and the
      four information separators U+001C..U+001F. */
  predicate IsWhitespace(c: char) {
    c == ' ' || ('\t' <= c <= '\r') || ('\U{001C}' <= c <= '\U{001F}')
  }

  /** `StringUtils.isBlank`: the reference is null, or every character of the
      string (possibly none) is whitespace. */
  predicate IsBlank(s: Option<string>) {
    match s
    case None => true
    case Some(t) => forall i :: 0 <= i < |t| ==> IsWhitespace(t[i])
  }

  /** A letter of the pattern class `[a-z]` under ASCII-only case folding. */
  predicate IsLetter(c: char) {
    ('a' <= c <= 'z') || ('A' <= c <= 'Z')
  }

  /** A character of the pattern class `[a-z ]` under ASCII-only case folding. */
  predicate IsLetterOrSpace(c: char) {
    IsLetter(c) || c == ' '
  }

  predicate AllLetters(s: string) {
    forall i :: 0 <= i < |s| ==> IsLetter(s[i])
  }

  predicate AllLettersOrSpaces(s: string) {
    forall i :: 0 <= i < |s| ==> IsLetterOrSpace(s[i])
  }
}
