/**
 * Character classes and whitespace stripping, restricted to ASCII.
 *
 * Python's `str.isupper`, `str.islower` and `str.strip` consult the full
 * Unicode database; this model keeps their ASCII behaviour, which is all the
 * normaliser's contracts depend on.
 */
module Chars {

  /** Python's `isspace` on an ASCII character: tab, line feed, vertical tab,
      form feed, carriage return, the four information separators and space. */
  predicate IsSpace(c: char) {
    c == ' ' || ('\U{9}' <= c <= '\U{D}') || ('\U{1C}' <= c <= '\U{1F}')
  }

  predicate IsUpper(c: char) {
    'A' <= c <= 'Z'
  }

  predicate IsLower(c: char) {
    'a' <= c <= 'z'
  }

  predicate IsDigit(c: char) {
    '0' <= c <= '9'
  }

  /** No whitespace at either end. */
  predicate Stripped(s: string) {
    |s| == 0 || (!IsSpace(s[0]) && !IsSpace(s[|s| - 1]))
  }

  /** `s.lstrip()`: drops exactly the maximal whitespace prefix. */
  function LStrip(s: string): (r: string)
    ensures |r| <= |s| && r == s[|s| - |r|..]
    ensures forall k :: 0 <= k < |s| - |r| ==> IsSpace(s[k])
    ensures |r| > 0 ==> !IsSpace(r[0])
  {
    if |s| > 0 && IsSpace(s[0]) then LStrip(s[1..]) else s
  }

  /** `s.rstrip()`: drops exactly the maximal whitespace suffix. */
  function RStrip(s: string): (r: string)
    ensures |r| <= |s| && r == s[..|r|]
    ensures forall k :: |r| <= k < |s| ==> IsSpace(s[k])
    ensures |r| > 0 ==> !IsSpace(r[|r| - 1])
  {
    if |s| > 0 && IsSpace(s[|s| - 1]) then RStrip(s[..|s| - 1]) else s
  }

  /** Where the result of `Strip(s)` starts inside `s`. */
  function StripStart(s: string): nat
  {
    |s| - |LStrip(s)|
  }

  /** `s.strip()`: the infix of `s` between its leading and trailing
      whitespace runs; a stripped string is its own strip. */
  function Strip(s: string): (r: string)
    ensures StripStart(s) + |r| <= |s|
    ensures r == s[StripStart(s)..StripStart(s) + |r|]
    ensures forall k :: 0 <= k < StripStart(s) ==> IsSpace(s[k])
    ensures forall k :: StripStart(s) + |r| <= k < |s| ==> IsSpace(s[k])
    ensures Stripped(r)
    ensures Stripped(s) ==> r == s
  {
    RStrip(LStrip(s))
  }
}
