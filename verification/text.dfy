/** The part of JavaScript's `String.prototype.trim` the controller relies on. */
module JsText {

  /** The characters `trim` removes: ECMAScript WhiteSpace (tab, vertical tab, form feed,
      zero-width no-break space and every Unicode space separator) and LineTerminator. */
  predicate IsJsWhitespace(c: char) {
    var u := c as int;
    || u == 0x09 || u == 0x0B || u == 0x0C || u == 0x20 || u == 0xA0 || u == 0xFEFF
    || u == 0x1680 || (0x2000 <= u <= 0x200A) || u == 0x202F || u == 0x205F || u == 0x3000
    || u == 0x0A || u == 0x0D || u == 0x2028 || u == 0x2029
  }

  /** True when every character of `s` is whitespace (vacuously so for ""). */
  ghost predicate AllWhitespace(s: string) {
    forall i :: 0 <= i < |s| ==> IsJsWhitespace(s[i])
  }

  /** `s` without its leading whitespace: a suffix of `s` that starts with a non-whitespace
      character (or is empty), and everything dropped was whitespace. */
  function TrimStart(s: string): (r: string)
    ensures |r| <= |s| && r == s[|s| - |r|..]
    ensures r == [] || !IsJsWhitespace(r[0])
    ensures forall i :: 0 <= i < |s| - |r| ==> IsJsWhitespace(s[i])
  {
    if |s| > 0 && IsJsWhitespace(s[0]) then TrimStart(s[1..]) else s
  }

  /** `s` without its trailing whitespace: a prefix of `s` that ends with a non-whitespace
      character (or is empty), and everything dropped was whitespace. */
  function TrimEnd(s: string): (r: string)
    ensures |r| <= |s| && r == s[..|r|]
    ensures r == [] || !IsJsWhitespace(r[|r| - 1])
    ensures forall i :: |r| <= i < |s| ==> IsJsWhitespace(s[i])
  {
    if |s| > 0 && IsJsWhitespace(s[|s| - 1]) then TrimEnd(s[..|s| - 1]) else s
  }

  /** `r` is `s[lo..hi]` and every character outside that slice is whitespace. */
  ghost predicate StrippedSlice(s: string, r: string, lo: int, hi: int) {
    && 0 <= lo <= hi <= |s| && r == s[lo..hi]
    && (forall i :: 0 <= i < lo || hi <= i < |s| ==> IsJsWhitespace(s[i]))
  }

  /** `s.trim()`: the slice of `s` left after both ends are stripped, where everything stripped
      is whitespace. */
  function Trim(s: string): (r: string)
    ensures exists lo, hi :: StrippedSlice(s, r, lo, hi)
    ensures r == [] || (!IsJsWhitespace(r[0]) && !IsJsWhitespace(r[|r| - 1]))
  {
    var t := TrimStart(s);
    var r := TrimEnd(t);
    var lo, hi := |s| - |t|, |s| - |t| + |r|;
    assert StrippedSlice(s, r, lo, hi) by {
      assert r == s[lo..hi];
      forall i | hi <= i < |s|
        ensures IsJsWhitespace(s[i])
      {
        assert s[i] == t[i - lo];
      }
    }
    r
  }

  /** `!s.trim()`: the trimmed string is empty, hence falsy. */
  predicate IsBlank(s: string) {
    Trim(s) == ""
  }

  /** Blank input is exactly input made only of whitespace (including the empty string). */
  lemma BlankIffAllWhitespace(s: string)
    ensures IsBlank(s) <==> AllWhitespace(s)
  {
  }
}
