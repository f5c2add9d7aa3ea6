/** Character classes of Python's string methods. */
module Text {

  predicate IsDigit(c: char) {
    '0' <= c <= '9'
  }

  // What str.isspace, str.strip and the pattern \s accept.
  predicate IsSpace(c: char) {
    || '\t' <= c <= '\r'
    || '\U{1c}' <= c <= ' '
    || c == '\U{85}' || c == '\U{a0}' || c == '\U{1680}'
    || '\U{2000}' <= c <= '\U{200a}'
    || c == '\U{2028}' || c == '\U{2029}' || c == '\U{202f}' || c == '\U{205f}' || c == '\U{3000}'
  }

  // c.lower() is the lower-case ASCII letter k: the two ASCII cases and the Kelvin sign.
  predicate LowersTo(c: char, k: char) {
    || c == k
    || ('a' <= k <= 'z' && 'A' <= c <= 'Z' && c as int + 32 == k as int)
    || (k == 'k' && c == '\U{212a}')
  }

  // c matches the lower-case letter k in a pattern that ignores case: besides
  // LowersTo, the long s and the dotted and dotless Turkish i.
  predicate FoldsTo(c: char, k: char) {
    || LowersTo(c, k)
    || (k == 's' && c == '\U{17f}')
    || (k == 'i' && (c == '\U{130}' || c == '\U{131}'))
  }

  predicate LowersToWord(s: string, w: string) {
    |s| == |w| && forall i :: 0 <= i < |w| ==> LowersTo(s[i], w[i])
  }

  // s is w in any mixture of ASCII cases.
  predicate Cased(s: string, w: string) {
    |s| == |w|
    && forall i :: 0 <= i < |w| ==> s[i] == w[i] || ('a' <= w[i] <= 'z' && s[i] as int == w[i] as int - 32)
  }

  ghost predicate IsAscii(s: string) {
    forall i :: 0 <= i < |s| ==> s[i] < '\U{80}'
  }

  /** Among ASCII texts lowering is a matter of case alone. */
  lemma CasedLowers(s: string, w: string)
    ensures Cased(s, w) ==> LowersToWord(s, w)
    ensures IsAscii(s) && LowersToWord(s, w) ==> Cased(s, w)
  {
  }

  // One of the six words that name a secret, in any mixture of cases.
  predicate NamesSecret(key: string) {
    exists w <- ["password", "passwd", "secret", "token", "auth", "credential"] :: Cased(key, w)
  }
}
