/**
  Characters that the JavaScript regular-expression class `\s` matches: the
  ECMAScript WhiteSpace and LineTerminator code points. `String.prototype.trim`
  strips exactly the same set, so both the email validator and the CTA text
  trimming are stated over this one predicate.
 */
module Chars {

  /** WhiteSpace (TAB, VT, FF, SPACE, NBSP, ZWNBSP and the Unicode Zs category)
      and LineTerminator (LF, CR, LS, PS). */
  predicate IsSpace(c: char) {
    || c == '\t' || c == '\n' || c == '\U{000B}' || c == '\U{000C}' || c == '\r'
    || c == ' ' || c == '\U{00A0}' || c == '\U{1680}'
    || ('\U{2000}' <= c <= '\U{200A}')
    || c == '\U{2028}' || c == '\U{2029}' || c == '\U{202F}' || c == '\U{205F}'
    || c == '\U{3000}' || c == '\U{FEFF}'
  }

  /** No character of `s` is whitespace. */
  predicate NoSpace(s: string) {
    forall i :: 0 <= i < |s| ==> !IsSpace(s[i])
  }
}
