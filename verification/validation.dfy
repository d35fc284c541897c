/**
 * Input validation for new account numbers and passwords. The program's
 * strings are byte strings; here a string is a sequence of Unicode characters
 * and its byte length is its UTF-8 encoded length. The account-number check is
 * the regular expression `^[0-9]{6}$`, restated as a predicate over
 * characters; `MatchAccountNumber` is an equivalent scan.
 */
module Validation {

  const AccountNumberLength := 6
  const MinPasswordLength := 6

  predicate IsDigit(c: char)
  {
    '0' <= c <= '9'
  }

  predicate IsAscii(c: char)
  {
    c as int < 0x80
  }

  /** Number of bytes UTF-8 uses for one character. */
  function Utf8Width(c: char): (n: nat)
    ensures 1 <= n <= 4
    ensures n == 1 <==> IsAscii(c)
  {
    if c as int < 0x80 then 1
    else if c as int < 0x800 then 2
    else if c as int < 0x1_0000 then 3
    else 4
  }

  /** Length in bytes of the UTF-8 encoding, which is what `length()` counts. */
  function Utf8Length(s: string): (n: nat)
    ensures |s| <= n <= 4 * |s|
    ensures (forall i :: 0 <= i < |s| ==> IsAscii(s[i])) ==> n == |s|
  {
    if |s| == 0 then 0 else Utf8Width(s[0]) + Utf8Length(s[1..])
  }

  /**
   * Exactly six characters, each a decimal digit. Every digit is one byte, so
   * this is also the byte-level reading of the pattern: six bytes, all digits.
   */
  predicate IsValidAccountNumber(s: string)
    ensures IsValidAccountNumber(s) ==> Utf8Length(s) == AccountNumberLength
  {
    |s| == AccountNumberLength && forall i :: 0 <= i < |s| ==> IsDigit(s[i])
  }

  /**
   * At least six bytes; any characters are allowed. Six characters always
   * suffice, and for plain ASCII the rule is "at least six characters".
   */
  predicate IsValidPassword(pwd: string)
    ensures |pwd| >= MinPasswordLength ==> IsValidPassword(pwd)
    ensures IsValidPassword(pwd) ==> |pwd| >= 2
    ensures (forall i :: 0 <= i < |pwd| ==> IsAscii(pwd[i])) ==>
              (IsValidPassword(pwd) <==> |pwd| >= MinPasswordLength)
  {
    Utf8Length(pwd) >= MinPasswordLength
  }

  /** Accepts exactly the strings the anchored pattern `[0-9]{6}` matches. */
  method MatchAccountNumber(s: string) returns (ok: bool)
    ensures ok <==> |s| == 6 && forall i :: 0 <= i < |s| ==> '0' <= s[i] <= '9'
    ensures ok <==> IsValidAccountNumber(s)
  {
    if |s| != AccountNumberLength {
      return false;
    }
    var i := 0;
    while i < |s|
      invariant 0 <= i <= |s|
      invariant forall k :: 0 <= k < i ==> IsDigit(s[k])
    {
      if !IsDigit(s[i]) {
        return false;
      }
      i := i + 1;
    }
    return true;
  }

  /** Concrete account numbers: one accepted, three rejected for length or content. */
  lemma AccountNumberExamples()
    ensures IsValidAccountNumber("123456")
    ensures !IsValidAccountNumber("12345")
    ensures !IsValidAccountNumber("1234567")
    ensures !IsValidAccountNumber("12a456")
  {
    assert !IsDigit("12a456"[2]);
  }

  /**
   * A five-character ASCII password is rejected and a seven-character one
   * accepted; three two-byte characters make six bytes and are accepted, two
   * make four and are not.
   */
  lemma PasswordExamples()
    ensures !IsValidPassword("abc12")
    ensures IsValidPassword("secret1")
    ensures IsValidPassword("\U{e9}\U{e9}\U{e9}")
    ensures !IsValidPassword("\U{e9}\U{e9}")
  {
  }
}
