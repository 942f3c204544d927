/** Character classification and stripping as the application uses them:
    Python's `str.isspace` and `str.strip()` with no arguments. */
module Whitespace {

  /** Python's `str.isspace` on one code point: the characters whose
      bidirectional class is WS, B or S, or whose general category is Zs.
      Nothing proved in this project depends on which characters these are;
      only that the classification is a total predicate on characters. */
  predicate IsSpace(c: char) {
    var n := c as int;
    (0x09 <= n <= 0x0D) || (0x1C <= n <= 0x20) || n == 0x85 || n == 0xA0 ||
    n == 0x1680 || (0x2000 <= n <= 0x200A) || n == 0x2028 || n == 0x2029 ||
    n == 0x202F || n == 0x205F || n == 0x3000
  }

  /** Every character of `s` is whitespace (vacuously true of the empty string). */
  predicate AllSpace(s: string) {
    forall k :: 0 <= k < |s| ==> IsSpace(s[k])
  }

  /** `s.lstrip()`: drop the longest whitespace prefix. */
  function LStrip(s: string): (r: string)
    ensures |r| <= |s| && r == s[|s| - |r|..]
    ensures AllSpace(s[..|s| - |r|])
    ensures r == [] || !IsSpace(r[0])
  {
    if s != [] && IsSpace(s[0]) then
      var r := LStrip(s[1..]);
      assert s[1..][..|s| - 1 - |r|] == s[1..|s| - |r|];
      r
    else s
  }

  /** `s.rstrip()`: drop the longest whitespace suffix. */
  function RStrip(s: string): (r: string)
    ensures |r| <= |s| && r == s[..|r|]
    ensures AllSpace(s[|r|..])
    ensures r == [] || !IsSpace(r[|r| - 1])
  {
    if s != [] && IsSpace(s[|s| - 1]) then
      var r := RStrip(s[..|s| - 1]);
      assert s[..|s| - 1][|r|..] == s[|r|..|s| - 1];
      r
    else s
  }

  /** `s.strip()`: the text between the first and the last non-whitespace
      character, both included. */
  function Strip(s: string): string {
    RStrip(LStrip(s))
  }

  /** `s.strip()` is empty exactly when `s` holds whitespace only. */
  lemma StripEmptyIffAllSpace(s: string)
    ensures Strip(s) == [] <==> AllSpace(s)
  {
  }

  /** The blank test of `run_ner` and `process_file`: `not text or not text.strip()`.
      It holds exactly when the text contains no non-whitespace character. */
  function IsBlank(text: string): (b: bool)
    ensures b <==> AllSpace(text)
  {
    StripEmptyIffAllSpace(text);
    text == [] || Strip(text) == []
  }
}
