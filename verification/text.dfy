/** ECMAScript `String.prototype.trim` and the blank-content test built on it. */
module Text {

  /** The code points `trim` removes: ECMAScript WhiteSpace (TAB, VT, FF,
      ZWNBSP and every space separator of category Zs) and LineTerminator
      (LF, CR, LS, PS). */
  predicate IsTrimmable(c: char) {
    || c == '\t' || c == '\n' || c == '\U{000B}' || c == '\U{000C}' || c == '\r'
    || c == ' ' || c == '\U{00A0}' || c == '\U{1680}'
    || ('\U{2000}' <= c <= '\U{200A}')
    || c == '\U{2028}' || c == '\U{2029}' || c == '\U{202F}' || c == '\U{205F}'
    || c == '\U{3000}' || c == '\U{FEFF}'
  }

  /** Length of the longest trimmable prefix of `s`. */
  function LeadingCount(s: string): (n: nat)
    ensures n <= |s|
    ensures forall k :: 0 <= k < n ==> IsTrimmable(s[k])
    ensures n < |s| ==> !IsTrimmable(s[n])
  {
    if |s| > 0 && IsTrimmable(s[0]) then 1 + LeadingCount(s[1..]) else 0
  }

  /** Length of the longest trimmable suffix of `s`. */
  function TrailingCount(s: string): (n: nat)
    ensures n <= |s|
    ensures forall k :: |s| - n <= k < |s| ==> IsTrimmable(s[k])
    ensures n < |s| ==> !IsTrimmable(s[|s| - 1 - n])
  {
    if |s| > 0 && IsTrimmable(s[|s| - 1]) then 1 + TrailingCount(s[..|s| - 1]) else 0
  }

  /** The half-open range of `s` that `trim` keeps: everything outside it is
      trimmable, and a non-empty range starts and ends on a kept character. */
  function TrimRange(s: string): (b: (nat, nat))
    ensures b.0 <= b.1 <= |s|
    ensures forall k :: 0 <= k < b.0 ==> IsTrimmable(s[k])
    ensures forall k :: b.1 <= k < |s| ==> IsTrimmable(s[k])
    ensures b.0 < b.1 ==> !IsTrimmable(s[b.0]) && !IsTrimmable(s[b.1 - 1])
  {
    var i := LeadingCount(s);
    var rest := s[i..];
    var n := TrailingCount(rest);
    assert forall k :: i <= k < |s| ==> s[k] == rest[k - i];
    (i, |s| - n)
  }

  /** `s.trim()`: the part of `s` after its longest trimmable prefix, up to a
      suffix that is all trimmable, and starting and ending on kept
      characters. */
  function Trim(s: string): (t: string)
    ensures |t| <= |s|
    ensures LeadingCount(s) + |t| <= |s| && t == s[LeadingCount(s)..LeadingCount(s) + |t|]
    ensures forall k :: LeadingCount(s) + |t| <= k < |s| ==> IsTrimmable(s[k])
    ensures |t| > 0 ==> !IsTrimmable(t[0]) && !IsTrimmable(t[|t| - 1])
    ensures |t| == 0 <==> forall k :: 0 <= k < |s| ==> IsTrimmable(s[k])
  {
    var b := TrimRange(s);
    assert b.0 < b.1 ==> !IsTrimmable(s[b.0]);
    s[b.0..b.1]
  }

  /** `content.trim().length === 0`: by `Trim`'s contract, exactly when every
      character is whitespace or a line terminator. */
  predicate IsBlank(s: string) {
    |Trim(s)| == 0
  }
}
