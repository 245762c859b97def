/** The two whitespace classes the source mixes, Rust's `char::is_whitespace` (Unicode White_Space)
    and `u8::is_ascii_whitespace`, and the string trims built on the first. */
module Whitespace {
  predicate IsAsciiWhitespace(c: char) {
    var n := c as int;
    n == 9 || n == 10 || n == 12 || n == 13 || n == 32
  }

  predicate IsWhitespace(c: char)
    ensures IsAsciiWhitespace(c) ==> IsWhitespace(c)
  {
    var n := c as int;
    || 9 <= n <= 13 || n == 0x20 || n == 0x85 || n == 0xA0 || n == 0x1680 || 0x2000 <= n <= 0x200A
    || n == 0x2028 || n == 0x2029 || n == 0x202F || n == 0x205F || n == 0x3000
  }

  /** `str::trim().is_empty()`. */
  predicate IsBlank(s: string) {
    forall i | 0 <= i < |s| :: IsWhitespace(s[i])
  }

  /** `str::trim_start`. */
  function TrimStart(s: string): (t: string)
    ensures |t| <= |s|
  {
    if s == [] || !IsWhitespace(s[0]) then s else TrimStart(s[1..])
  }

  /** A suffix that starts with something to see, and nothing to see before it. */
  lemma {:induction false} TrimStartMeaning(s: string)
    ensures var t := TrimStart(s);
            && t == s[|s| - |t|..]
            && (t != [] ==> !IsWhitespace(t[0]))
            && (forall i | 0 <= i < |s| - |t| :: IsWhitespace(s[i]))
  {
    if s != [] && IsWhitespace(s[0]) {
      TrimStartMeaning(s[1..]);
    }
  }

  /** `str::trim_end`. */
  function TrimEnd(s: string): (t: string)
    ensures |t| <= |s|
  {
    if s == [] || !IsWhitespace(s[|s| - 1]) then s else TrimEnd(s[..|s| - 1])
  }

  /** `str::trim`. */
  function Trim(s: string): string {
    TrimEnd(TrimStart(s))
  }

  /** Nothing is left of a text exactly when it is all white space. */
  lemma {:induction false} TrimIsEmptyIff(s: string)
    ensures Trim(s) == "" <==> IsBlank(s)
  {
    TrimStartMeaning(s);
    TrimEndEmpty(TrimStart(s));
  }

  lemma {:induction false} TrimEndEmpty(s: string)
    ensures TrimEnd(s) == "" <==> IsBlank(s)
  {
    if s != [] && IsWhitespace(s[|s| - 1]) {
      TrimEndEmpty(s[..|s| - 1]);
    }
  }
}
