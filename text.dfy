/** Python's `str.strip()` with no argument, as the handlers apply it to user names,
    passwords and beer names. */
module Text {

  /** The characters for which Python's `str.isspace()` holds: the ASCII controls
      TAB..CR and FS..US, SPACE, NEL, NO-BREAK SPACE and the Unicode space separators. */
  function IsSpace(c: char): (b: bool)
    ensures c == ' ' || c == '\t' || c == '\n' || c == '\r' ==> b
    ensures b ==> !('0' <= c <= '9') && !('a' <= c <= 'z') && !('A' <= c <= 'Z')
  {
    || ('\t' <= c <= '\r')
    || ('\U{001C}' <= c <= ' ')
    || c == '\U{0085}' || c == '\U{00A0}' || c == '\U{1680}'
    || ('\U{2000}' <= c <= '\U{200A}')
    || c == '\U{2028}' || c == '\U{2029}' || c == '\U{202F}' || c == '\U{205F}' || c == '\U{3000}'
  }

  /** Number of whitespace characters at the front of `s`. */
  function LeadingSpaces(s: string): (n: nat)
    ensures n <= |s|
    ensures forall k :: 0 <= k < n ==> IsSpace(s[k])
    ensures n == |s| || !IsSpace(s[n])
  {
    if s != [] && IsSpace(s[0]) then 1 + LeadingSpaces(s[1..]) else 0
  }

  /** Number of whitespace characters at the back of `s`. */
  function TrailingSpaces(s: string): (n: nat)
    ensures n <= |s|
    ensures forall k :: |s| - n <= k < |s| ==> IsSpace(s[k])
    ensures n == |s| || !IsSpace(s[|s| - 1 - n])
  {
    if s != [] && IsSpace(s[|s| - 1]) then 1 + TrailingSpaces(s[..|s| - 1]) else 0
  }

  /** `s` without its leading and trailing whitespace. The result is the infix of `s`
      that starts after the leading spaces, everything cut off is whitespace, and the
      result neither starts nor ends with whitespace. */
  function Strip(s: string): (r: string)
    ensures LeadingSpaces(s) + |r| <= |s|
    ensures r == s[LeadingSpaces(s)..LeadingSpaces(s) + |r|]
    ensures forall k :: 0 <= k < LeadingSpaces(s) ==> IsSpace(s[k])
    ensures forall k :: LeadingSpaces(s) + |r| <= k < |s| ==> IsSpace(s[k])
    ensures IsStripped(r)
  {
    var head := s[LeadingSpaces(s)..];
    head[..|head| - TrailingSpaces(head)]
  }

  /** `s` has nothing for `Strip` to remove. */
  predicate IsStripped(s: string) {
    s == [] || (!IsSpace(s[0]) && !IsSpace(s[|s| - 1]))
  }

  /** A string strips to nothing exactly when every character of it is whitespace. */
  lemma StripEmptyIff(s: string)
    ensures Strip(s) == [] <==> forall k :: 0 <= k < |s| ==> IsSpace(s[k])
  {
    if Strip(s) != [] {
      assert s[LeadingSpaces(s)] == Strip(s)[0];
    }
  }

  /** Stripping twice is stripping once. */
  lemma StripIdempotent(s: string)
    ensures Strip(Strip(s)) == Strip(s)
    ensures IsStripped(s) ==> Strip(s) == s
  {
    var r := Strip(s);
    if r != [] {
      assert LeadingSpaces(r) == 0;
      assert TrailingSpaces(r) == 0;
    }
    if s != [] && IsStripped(s) {
      assert LeadingSpaces(s) == 0;
      assert TrailingSpaces(s) == 0;
    }
  }
}
