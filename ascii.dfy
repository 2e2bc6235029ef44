/** The ASCII character classes the validators test for. */
module Ascii {

  predicate IsLetter(c: char) { 'a' <= c <= 'z' || 'A' <= c <= 'Z' }

  predicate IsDigit(c: char) { '0' <= c <= '9' }

  /** `[a-zA-Z0-9]` */
  predicate IsAlnum(c: char) { IsLetter(c) || IsDigit(c) }

  /** `[a-zA-Z0-9-]`: the characters a host label may hold. */
  predicate IsLabelChar(c: char) { IsAlnum(c) || c == '-' }

  /** `[a-zA-Z0-9.-]`: the characters a dotted host name may hold. */
  predicate IsHostChar(c: char) { IsLabelChar(c) || c == '.' }

  predicate IsHostString(s: string) { forall j :: 0 <= j < |s| ==> IsHostChar(s[j]) }
}
