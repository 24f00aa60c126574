/** Prefix and suffix tests on strings. */
module Text {
  predicate StartsWith(s: string, lead: string) {
    |lead| <= |s| && s[..|lead|] == lead
  }

  predicate EndsWith(s: string, tail: string) {
    |tail| <= |s| && s[|s| - |tail|..] == tail
  }
}
