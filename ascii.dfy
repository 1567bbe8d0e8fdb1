/**
 * Character classes as Python's `str.isalpha`, `str.lower` and the regular
 * expression class `\d` see them on ASCII text, and as PostgreSQL's `lower`
 * does.
 */
module Ascii {

  predicate IsDigit(c: char)
  {
    '0' <= c <= '9'
  }

  predicate IsUpper(c: char)
  {
    'A' <= c <= 'Z'
  }

  predicate IsLower(c: char)
  {
    'a' <= c <= 'z'
  }

  /** `str.isalpha` on one character. */
  predicate IsLetter(c: char)
  {
    IsUpper(c) || IsLower(c)
  }

  /** `str.lower` on one character: upper-case letters move to lower case, nothing else moves. */
  function ToLower(c: char): (d: char)
    ensures IsUpper(c) ==> IsLower(d) && d as int == c as int + 32
    ensures !IsUpper(c) ==> d == c
    ensures IsLetter(c) <==> IsLower(d)
  {
    if IsUpper(c) then (c as int + 32) as char else c
  }

  function DigitChar(d: nat): (c: char)
    requires d < 10
    ensures IsDigit(c)
  {
    ('0' as int + d) as char
  }

  function DigitValue(c: char): (d: nat)
    requires IsDigit(c)
    ensures d < 10 && DigitChar(d) == c
  {
    c as int - '0' as int
  }

  predicate AllDigits(s: string)
  {
    forall i :: 0 <= i < |s| ==> IsDigit(s[i])
  }
}
