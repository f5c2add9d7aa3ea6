/** Patterns of one shape: one of some
    keywords, then '=' or ':' and spaces, then a maximal run of value characters,
    which is replaced by a mask. The character classes are parameters, so the
    proofs depend only on what Valid says about them. */
module KeywordPatterns {
  import opened Substitution

  predicate IsSeparator(c: char) {
    c == '=' || c == ':'
  }

  predicate IsLetter(c: char) {
    'a' <= c <= 'z'
  }

  function Run(s: string, p: char -> bool): (n: nat)
    ensures n <= |s|
  {
    if s != [] && p(s[0]) then 1 + Run(s[1..], p) else 0
  }

  lemma {:induction false} RunHolds(s: string, p: char -> bool)
    ensures forall i :: 0 <= i < Run(s, p) ==> p(s[i])
    ensures Run(s, p) < |s| ==> !p(s[Run(s, p)])
  {
    if s != [] && p(s[0]) {
      RunHolds(s[1..], p);
      assert forall i :: 1 <= i < Run(s, p) ==> s[i] == s[1..][i - 1];
    }
  }

  lemma {:induction false} RunIs(s: string, p: char -> bool, n: nat)
    requires n <= |s| && (forall i :: 0 <= i < n ==> p(s[i])) && (n < |s| ==> !p(s[n]))
    ensures Run(s, p) == n
  {
    if n > 0 {
      RunIs(s[1..], p, n - 1);
    }
  }

  datatype Pattern = Pattern(
    words: seq<string>, mask: string,
    folds: (char, char) -> bool,   // the text character matches the keyword letter
    space: char -> bool,
    value: char -> bool)
  {
    ghost predicate Valid() {
      && (forall w <- words :: IsWord(w) && w != [])
      && (forall c, k :: IsLetter(k) && folds(c, k) ==> !IsSeparator(c) && value(c))
      && (forall c :: value(c) ==> !space(c))
      && mask != [] && (forall i :: 0 <= i < |mask| ==> value(mask[i]))
    }

    static ghost predicate IsWord(w: string) {
      forall i :: 0 <= i < |w| ==> IsLetter(w[i])
    }

    predicate StartsWith(s: string, w: string) {
      |w| <= |s| && forall i :: 0 <= i < |w| ==> folds(s[i], w[i])
    }

    function MatchWord(s: string, w: string): (m: Match)
      ensures m.Match? ==> 0 < m.value && 0 < m.sep && m.key == |w| && m.key + m.sep + m.value <= |s|
    {
      if StartsWith(s, w) && |w| < |s| && IsSeparator(s[|w|]) then
        var sep := 1 + Run(s[|w| + 1..], space);
        var n := Run(s[|w| + sep..], value);
        if n == 0 then NoMatch else Match(|w|, sep, n)
      else NoMatch
    }

    function MatchAny(s: string, ws: seq<string>): (m: Match)
      ensures m.Match? ==> 0 < m.value && 0 < m.sep && m.key + m.sep + m.value <= |s|
      decreases |ws|
    {
      if ws == [] then NoMatch
      else
        var m := MatchWord(s, ws[0]);
        if m.Match? then m else MatchAny(s, ws[1..])
    }

    function Head(s: string): (m: Match)
      ensures m.Match? ==> 0 < m.value && 0 < m.sep && m.key + m.sep + m.value <= |s|
    {
      MatchAny(s, words)
    }

    function Matcher(): string -> Match {
      s => Head(s)
    }

    function Replace(s: string): string {
      Substitute(s, Matcher(), mask)
    }

    // Every leftmost match already carries the mask.
    ghost predicate IsMasked(s: string) {
      Masked(s, Matcher(), mask)
    }

    // The leftmost scan comes to position n.
    ghost predicate Reaches(s: string, n: nat) {
      Scans(s, n, Matcher())
    }

    lemma AtHead(s: string, k: nat, p: nat, v: nat)
      requires Head(s) == Match(k, p, v)
      ensures IsMasked(s) <==> s[k + p..k + p + v] == mask && IsMasked(s[k + p + v..])
      ensures Replace(s) == s[..k + p] + mask + Replace(s[k + p + v..])
    {
      PastMatch(s, Matcher(), mask, k + p, k + p + v);
    }

    lemma NothingAtHead(s: string)
      requires s != [] && Head(s).NoMatch?
      ensures IsMasked(s) <==> IsMasked(s[1..])
      ensures Replace(s) == [s[0]] + Replace(s[1..])
    {
      PastNone(s, Matcher(), mask);
    }

    // ---- What a match is ----

    // The groups of a match are where a reader sees them, whatever order the
    // matcher tries things in.
    ghost predicate Groups(s: string, w: string, p: nat, v: nat) {
      && 0 < p && 0 < v && |w| + p + v <= |s|
      && StartsWith(s, w)
      && IsSeparator(s[|w|])
      && (forall i :: |w| < i < |w| + p ==> space(s[i]))
      && (forall i :: |w| + p <= i < |w| + p + v ==> value(s[i]))
      && (|w| + p + v < |s| ==> !value(s[|w| + p + v]))
    }

    lemma MatchWordGroups(s: string, w: string, p: nat, v: nat)
      requires Valid()
      ensures MatchWord(s, w) == Match(|w|, p, v) <==> Groups(s, w, p, v)
    {
      if Groups(s, w, p, v) {
        assert !space(s[|w| + p]);
        RunIs(s[|w| + 1..], space, p - 1);
        RunIs(s[|w| + p..], value, v);
      }
      if MatchWord(s, w) == Match(|w|, p, v) {
        var t := s[|w| + 1..];
        RunHolds(t, space);
        RunHolds(s[|w| + p..], value);
        assert forall i :: |w| < i < |w| + p ==> s[i] == t[i - |w| - 1];
        var u := s[|w| + p..];
        assert forall i :: |w| + p <= i < |w| + p + v ==> s[i] == u[i - |w| - p];
      }
    }

    lemma LongerWordFails(s: string, w: string, x: string)
      requires Valid() && IsWord(x) && |w| < |x| && MatchWord(s, w).Match?
      ensures !StartsWith(s, x)
    {
      assert !folds(s[|w|], x[|w|]);
    }

    // A match determines the length of its word.
    lemma WordLengthUnique(s: string, w: string, x: string)
      requires Valid() && IsWord(w) && IsWord(x)
      requires MatchWord(s, w).Match? && MatchWord(s, x).Match?
      ensures MatchWord(s, w) == MatchWord(s, x)
    {
      if |w| < |x| {
        LongerWordFails(s, w, x);
      } else if |x| < |w| {
        LongerWordFails(s, x, w);
      }
    }

    // The match of a keyword list is that of one of them, and there is one if any has one.
    lemma {:induction false} MatchAnyWord(s: string, ws: seq<string>)
      ensures MatchAny(s, ws).Match? ==> exists w <- ws :: MatchAny(s, ws) == MatchWord(s, w)
      ensures MatchAny(s, ws).NoMatch? ==> forall w <- ws :: MatchWord(s, w).NoMatch?
      decreases |ws|
    {
      if ws != [] {
        MatchAnyWord(s, ws[1..]);
        assert forall w <- ws :: w == ws[0] || w in ws[1..];
      }
    }

    lemma HeadWord(s: string) returns (w: string)
      requires Valid() && Head(s).Match?
      ensures w in words && IsWord(w) && w != []
      ensures Head(s) == MatchWord(s, w) && Head(s).key == |w|
      ensures folds(s[0], w[0])
    {
      MatchAnyWord(s, words);
      w :| w in words && Head(s) == MatchWord(s, w);
    }

    // The order of the keywords is immaterial.
    lemma HeadIsAnyWord(s: string, w: string)
      requires Valid() && w in words && MatchWord(s, w).Match?
      ensures Head(s) == MatchWord(s, w)
    {
      MatchAnyWord(s, words);
      var x := HeadWord(s);
      WordLengthUnique(s, w, x);
    }

    // ---- Replacing makes no new match ----

    ghost predicate ValueAfterSpaces(s: string) {
      var n := Run(s, space);
      n < |s| && value(s[n])
    }

    lemma MatchEmptyWord(s: string)
      requires s != []
      ensures MatchWord(s, []).Match? <==> IsSeparator(s[0]) && ValueAfterSpaces(s[1..])
    {
      var n := Run(s[1..], space);
      assert s[1 + n..] == s[1..][n..];
    }

    lemma StartsWithUnfolds(s: string, w: string)
      requires s != [] && w != []
      ensures StartsWith(s, w) <==> folds(s[0], w[0]) && StartsWith(s[1..], w[1..])
    {
      if folds(s[0], w[0]) && StartsWith(s[1..], w[1..]) {
        forall i | 0 <= i < |w|
          ensures folds(s[i], w[i])
        {
          assert i > 0 ==> folds(s[1..][i - 1], w[1..][i - 1]);
        }
      }
    }

    lemma MatchWordUnfolds(s: string, w: string)
      requires s != [] && w != []
      ensures MatchWord(s, w).Match? <==> folds(s[0], w[0]) && MatchWord(s[1..], w[1..]).Match?
    {
      StartsWithUnfolds(s, w);
      if StartsWith(s, w) && |w| < |s| {
        assert s[|w| + 1..] == s[1..][|w[1..]| + 1..];
        var sep := 1 + Run(s[|w| + 1..], space);
        assert s[|w| + sep..] == s[1..][|w[1..]| + sep..];
      }
    }

    lemma {:induction false} ReplaceKeepsValueAfterSpaces(s: string)
      requires Valid() && ValueAfterSpaces(Replace(s))
      ensures ValueAfterSpaces(s)
      decreases |s|
    {
      if s != [] {
        if Head(s).Match? {
          var w := HeadWord(s);
          assert value(s[0]);
        } else {
          NothingAtHead(s);
          if space(s[0]) {
            assert Replace(s)[1..] == Replace(s[1..]);
            ReplaceKeepsValueAfterSpaces(s[1..]);
          }
        }
      }
    }

    // The text after a match still ends the value once replaced.
    lemma ReplaceKeepsTerminator(s: string)
      requires Valid() && s != [] && !value(s[0])
      ensures Replace(s) != [] && Replace(s)[0] == s[0]
    {
      if Head(s).Match? {
        var w := HeadWord(s);
      } else {
        NothingAtHead(s);
      }
    }

    lemma GroupsSplice(s: string, w: string, p: nat, v: nat, u: string, tail: string)
      requires Groups(s, w, p, v)
      requires u != [] && forall i :: 0 <= i < |u| ==> value(u[i])
      requires tail != [] ==> !value(tail[0])
      ensures Groups(s[..|w| + p] + u + tail, w, p, |u|)
    {
      var n := |w| + p;
      var r := s[..n] + u + tail;
      assert forall i :: 0 <= i < n ==> r[i] == s[i];
      assert forall i :: n <= i < n + |u| ==> r[i] == u[i - n];
      assert tail != [] ==> r[n + |u|] == tail[0];
    }

    lemma ReplacedGroups(s: string, w: string, k: nat, p: nat, v: nat)
      requires Valid() && Head(s) == Match(k, p, v) && k == |w| && Groups(s, w, p, v)
      ensures Groups(Replace(s), w, p, |mask|)
    {
      var rest := s[k + p + v..];
      if rest != [] {
        assert rest[0] == s[k + p + v];
        ReplaceKeepsTerminator(rest);
      }
      AtHead(s, k, p, v);
      GroupsSplice(s, w, p, v, mask, Replace(rest));
    }

    lemma ReplacedHead(s: string, w: string)
      requires Valid() && w in words && Head(s).Match? && Head(s) == MatchWord(s, w)
      ensures Head(Replace(s)) == MatchWord(Replace(s), w) == Match(|w|, Head(s).sep, |mask|)
    {
      var Match(k, p, v) := Head(s);
      MatchWordGroups(s, w, p, v);
      ReplacedGroups(s, w, k, p, v);
      MatchWordGroups(Replace(s), w, p, |mask|);
      HeadIsAnyWord(Replace(s), w);
    }

    // A word as long as the head's, spelled by the same characters, matches there too.
    lemma MatchCarriesBack(s: string, w: string, x: string)
      requires Valid() && IsWord(w) && x in words && Head(s).Match? && Head(s) == MatchWord(s, x)
      requires MatchWord(Replace(s), w).Match?
      ensures MatchWord(s, w).Match?
    {
      var r := Replace(s);
      var Match(k, p, v) := Head(s);
      ReplacedHead(s, x);
      WordLengthUnique(r, w, x);
      MatchWordGroups(s, x, p, v);
      assert forall i :: 0 <= i < |w| ==> r[i] == s[i];
      assert Groups(s, w, p, v);
      MatchWordGroups(s, w, p, v);
    }

    lemma {:induction false} ReplaceMakesNoMatch(s: string, w: string)
      requires Valid() && IsWord(w) && MatchWord(Replace(s), w).Match?
      ensures MatchWord(s, w).Match?
      decreases |s|
    {
      var r := Replace(s);
      if s != [] {
        if Head(s).Match? {
          var x := HeadWord(s);
          MatchCarriesBack(s, w, x);
        } else {
          NothingAtHead(s);
          assert r[1..] == Replace(s[1..]);
          if w == [] {
            MatchEmptyWord(r);
            MatchEmptyWord(s);
            ReplaceKeepsValueAfterSpaces(s[1..]);
          } else {
            MatchWordUnfolds(r, w);
            MatchWordUnfolds(s, w);
            ReplaceMakesNoMatch(s[1..], w[1..]);
          }
        }
      }
    }

    lemma NoHeadStays(s: string)
      requires Valid() && Head(s).NoMatch?
      ensures Head(Replace(s)).NoMatch?
    {
      var r := Replace(s);
      MatchAnyWord(s, words);
      if Head(r).Match? {
        var w := HeadWord(r);
        ReplaceMakesNoMatch(s, w);
        assert false;
      }
    }

    // ---- The main results ----

    lemma MaskedConcat(a: string, c: string, k: nat, p: nat)
      requires |a| == k + p && Head(a + mask + c) == Match(k, p, |mask|)
      ensures IsMasked(a + mask + c) <==> IsMasked(c)
    {
      Slices(a, mask, c);
      AtHead(a + mask + c, k, p, |mask|);
    }

    lemma MaskedTail(r: string, tail: string)
      requires r != [] && r[1..] == tail && Head(r).NoMatch?
      ensures IsMasked(r) <==> IsMasked(tail)
    {
      NothingAtHead(r);
    }

    lemma ReplaceConcat(a: string, v: string, c: string, k: nat, p: nat)
      requires |a| == k + p && Head(a + v + c) == Match(k, p, |v|)
      ensures Replace(a + v + c) == a + mask + Replace(c)
    {
      Slices(a, v, c);
      AtHead(a + v + c, k, p, |v|);
    }

    lemma EmptyIsMasked()
      ensures Replace([]) == [] && IsMasked([])
    {
    }

    /** Every leftmost match of a replaced text has exactly the mask as its value. */
    lemma {:induction false} ReplacedIsMasked(s: string)
      requires Valid()
      ensures IsMasked(Replace(s))
      decreases |s|
    {
      if s == [] {
        EmptyIsMasked();
      } else {
        match Head(s)
        case NoMatch =>
          NoHeadStays(s);
          ReplacedIsMasked(s[1..]);
          NothingAtHead(s);
          MaskedTail(Replace(s), Replace(s[1..]));
        case Match(k, p, v) =>
          var w := HeadWord(s);
          ReplacedHead(s, w);
          ReplacedIsMasked(s[k + p + v..]);
          AtHead(s, k, p, v);
          MaskedConcat(s[..k + p], Replace(s[k + p + v..]), k, p);
      }
    }

    /** Masked texts are left alone. */
    lemma MaskedIsFixed(s: string)
      requires IsMasked(s)
      ensures Replace(s) == s
    {
      Substitution.MaskedIsFixed(s, Matcher(), mask);
    }

    lemma GroupsOf(w: string, key: string, sep: string, v: string, rest: string)
      requires |key| == |w| && StartsWith(key, w)
      requires sep != [] && IsSeparator(sep[0]) && forall i :: 1 <= i < |sep| ==> space(sep[i])
      requires v != [] && forall i :: 0 <= i < |v| ==> value(v[i])
      requires rest != [] ==> !value(rest[0])
      ensures Groups(key + sep + v + rest, w, |sep|, |v|)
    {
      var s := key + sep + v + rest;
      var n := |key| + |sep|;
      assert forall i :: 0 <= i < |key| ==> s[i] == key[i];
      assert forall i :: |key| <= i < n ==> s[i] == sep[i - |key|];
      assert forall i :: n <= i < n + |v| ==> s[i] == v[i - n];
      assert rest != [] ==> s[n + |v|] == rest[0];
    }

    lemma ReplaceAt(w: string, key: string, sep: string, v: string, rest: string)
      requires Valid() && w in words && |key| == |w| && StartsWith(key, w)
      requires sep != [] && IsSeparator(sep[0]) && forall i :: 1 <= i < |sep| ==> space(sep[i])
      requires v != [] && forall i :: 0 <= i < |v| ==> value(v[i])
      requires rest != [] ==> !value(rest[0])
      ensures Replace(key + sep + v + rest) == key + sep + mask + Replace(rest)
    {
      var s := key + sep + v + rest;
      GroupsOf(w, key, sep, v, rest);
      MatchWordGroups(s, w, |sep|, |v|);
      HeadIsAnyWord(s, w);
      ReplaceConcat(key + sep, v, rest, |key|, |sep|);
    }

    // ---- Lines and plain texts ----

    lemma FirstSeparator(t: string, w: string, c: nat)
      requires Valid() && IsWord(w) && StartsWith(t, w) && |w| < |t| && IsSeparator(t[|w|])
      requires c < |t| && IsSeparator(t[c]) && forall i :: 0 <= i < c ==> !IsSeparator(t[i])
      ensures |w| == c
    {
      KeywordHasNoSeparator(t, w);
    }

    // No keyword begins in front of the only one that ends at the first separator.
    lemma NoneInFront(pre: string, j: nat, w: string, a: string)
      requires Valid() && Strict() && j < |pre| && w in words && StartsWith(a, w)
      requires |w| < |a| && IsSeparator(a[|w|]) && forall i :: 0 <= i < |pre| ==> !IsSeparator(pre[i])
      ensures Head(pre[j..] + a).NoMatch?
    {
      var t := pre[j..] + a;
      var c := |pre| - j + |w|;
      KeywordHasNoSeparator(a, w);
      assert forall i :: 0 <= i < |pre| - j ==> t[i] == pre[j + i];
      assert forall i :: 0 <= i <= |w| ==> t[|pre| - j + i] == a[i];
      assert forall i :: |pre| - j <= i < c ==> t[i] == a[i - (|pre| - j)];
      if Head(t).Match? {
        var x := HeadWord(t);
        MatchWordGroups(t, x, Head(t).sep, Head(t).value);
        FirstSeparator(t, x, c);
        assert t[|pre| - j..] == a;
        KeywordsToldApart(t, |pre| - j, w, x);
        assert false;
      }
    }

    lemma FrontPasses(pre: string, w: string, a: string)
      requires Valid() && Strict() && w in words && StartsWith(a, w)
      requires |w| < |a| && IsSeparator(a[|w|]) && forall i :: 0 <= i < |pre| ==> !IsSeparator(pre[i])
      ensures Replace(pre + a) == pre + Replace(a)
    {
      forall j | 0 <= j < |pre|
        ensures !Fits(Matcher()(Behind(pre, j, a)), Behind(pre, j, a))
      {
        NoneInFront(pre, j, w, a);
      }
      NonesPass(pre, 0, a, Matcher(), mask);
      assert Behind(pre, 0, a) == pre + a && pre[0..] == pre;
    }

    // A keyword with a separator right behind it stands at i.
    ghost predicate KeyedAt(s: string, i: nat) {
      i <= |s| && exists w <- words :: StartsWith(s[i..], w) && |w| < |s| - i && IsSeparator(s[i..][|w|])
    }

    /** A text in which no keyword has a separator behind it is left alone. */
    lemma UnkeyedIsFixed(s: string)
      requires Valid() && forall i: nat :: !KeyedAt(s, i)
      ensures Replace(s) == s
    {
      forall j | 0 <= j < |s|
        ensures !Fits(Matcher()(Behind(s, j, [])), Behind(s, j, []))
      {
        assert Behind(s, j, []) == s[j..];
        assert !KeyedAt(s, j);
        if Head(s[j..]).Match? {
          var w := HeadWord(s[j..]);
          MatchWordGroups(s[j..], w, Head(s[j..]).sep, Head(s[j..]).value);
          assert false;
        }
      }
      NonesPass(s, 0, [], Matcher(), mask);
      EmptyIsMasked();
      assert Behind(s, 0, []) == s && s[0..] == s;
    }

    // ---- Which values are hidden ----

    // A match whose value begins at |w| + p.
    ghost predicate Opens(s: string, w: string, p: nat) {
      && 0 < p && |w| + p < |s|
      && StartsWith(s, w) && IsSeparator(s[|w|])
      && (forall i :: |w| < i < |w| + p ==> space(s[i]))
      && value(s[|w| + p])
    }

    lemma OpensMatches(s: string, w: string, p: nat)
      requires Valid() && Opens(s, w, p)
      ensures MatchWord(s, w).Match?
    {
      var t := s[|w| + p..];
      var n := Run(t, value);
      RunHolds(t, value);
      assert t[0] == s[|w| + p];
      assert forall i :: |w| + p <= i < |w| + p + n ==> s[i] == t[i - |w| - p];
      assert |w| + p + n < |s| ==> s[|w| + p + n] == t[n];
      MatchWordGroups(s, w, p, n);
    }

    // The texts agree up to position c, where a value begins in both; the separator
    // of that value is at d.
    ghost predicate AgreeUpTo(s: string, t: string, d: nat, c: nat) {
      && d < c < |s| && c < |t| && s[..c] == t[..c]
      && IsSeparator(s[d]) && value(s[c]) && value(t[c])
    }

    lemma AgreeAt(s: string, t: string, d: nat, c: nat, i: nat)
      requires AgreeUpTo(s, t, d, c) && i < c
      ensures s[i] == t[i]
    {
      assert s[..c][i] == t[..c][i];
    }

    lemma KeywordHasNoSeparator(t: string, w: string)
      requires Valid() && IsWord(w) && StartsWith(t, w)
      ensures forall i :: 0 <= i < |w| ==> !IsSeparator(t[i])
    {
      assert forall i :: 0 <= i < |w| ==> folds(t[i], w[i]);
    }

    // No match begins its value behind c.
    lemma OpensEarly(t: string, d: nat, c: nat, w: string, p: nat)
      requires Valid() && IsWord(w) && Opens(t, w, p)
      requires d < c < |t| && IsSeparator(t[d]) && value(t[c])
      ensures |w| + p <= c
    {
      KeywordHasNoSeparator(t, w);
    }

    lemma OpensAgree(s: string, t: string, d: nat, c: nat, w: string, p: nat)
      requires Valid() && IsWord(w) && AgreeUpTo(s, t, d, c) && Opens(t, w, p)
      ensures Opens(s, w, p)
    {
      AgreeAt(s, t, d, c, d);
      OpensEarly(t, d, c, w, p);
      forall i | 0 <= i < c
        ensures s[i] == t[i]
      {
        AgreeAt(s, t, d, c, i);
      }
    }

    lemma NoHeadAgrees(s: string, t: string, d: nat, c: nat)
      requires Valid() && AgreeUpTo(s, t, d, c) && Head(s).NoMatch?
      ensures Head(t).NoMatch?
    {
      MatchAnyWord(s, words);
      if Head(t).Match? {
        var w := HeadWord(t);
        MatchWordGroups(t, w, Head(t).sep, Head(t).value);
        OpensAgree(s, t, d, c, w, Head(t).sep);
        OpensMatches(s, w, Head(t).sep);
        assert false;
      }
    }

    lemma GroupsAreHead(s: string, w: string, p: nat, v: nat)
      requires Valid() && w in words && Groups(s, w, p, v)
      ensures Head(s) == Match(|w|, p, v)
    {
      MatchWordGroups(s, w, p, v);
      HeadIsAnyWord(s, w);
    }

    // A match that ends in the part two texts share is in both.
    lemma HeadAgrees(s: string, t: string, m: nat, k: nat, p: nat, v: nat)
      requires Valid() && Head(s) == Match(k, p, v) && k + p + v < m <= |s| && m <= |t| && s[..m] == t[..m]
      ensures Head(t) == Match(k, p, v)
    {
      var w := HeadWord(s);
      MatchWordGroups(s, w, p, v);
      assert forall i :: 0 <= i < m ==> s[..m][i] == t[..m][i];
      assert Groups(t, w, p, v);
      GroupsAreHead(t, w, p, v);
    }

    lemma AgreeBehind(pre: string, a: string, b: string, d: nat, c: nat)
      requires AgreeUpTo(a, b, d, c)
      ensures AgreeUpTo(pre + a, pre + b, |pre| + d, |pre| + c)
    {
      assert (pre + a)[..|pre| + c] == pre + a[..c];
      assert (pre + b)[..|pre| + c] == pre + b[..c];
    }

    lemma HeadsAgree(pre: string, a: string, b: string, d: nat, c: nat)
      requires Valid() && AgreeUpTo(a, b, d, c)
      ensures SameHead(pre + a, pre + b, |pre|, Matcher())
    {
      var s, t := pre + a, pre + b;
      AgreeBehind(pre, a, b, d, c);
      assert s[..|pre|] == pre == t[..|pre|];
      match Head(s)
      case NoMatch => NoHeadAgrees(s, t, |pre| + d, |pre| + c);
      case Match(k, p, v) =>
        if k + p + v <= |pre| {
          HeadAgrees(s, t, |pre| + c, k, p, v);
        }
    }

    /** What stands before a value that the scan reaches makes no difference. */
    lemma ReachedReplaced(pre: string, a: string, b: string, d: nat, c: nat)
      requires Valid() && AgreeUpTo(a, b, d, c) && Reaches(pre + a, |pre|)
      ensures Reaches(pre + b, |pre|)
      ensures Replace(pre + a) == Replace(pre + b) <==> Replace(a) == Replace(b)
    {
      forall j | 0 <= j < |pre|
        ensures Alike(pre, j, a, b, Matcher())
      {
        HeadsAgree(pre[j..], a, b, d, c);
      }
      assert Behind(pre, 0, a) == pre + a && Behind(pre, 0, b) == pre + b;
      ScannedAlike(pre, 0, a, b, Matcher(), mask);
    }

    // ---- Values the scan does not reach ----

    // Separators may stand in values, keywords have two letters or more, and none ends
    // with another one.
    ghost predicate Strict() {
      && (forall c :: IsSeparator(c) ==> value(c))
      && (forall w <- words :: |w| >= 2)
      && (forall w, x :: w in words && x in words && |w| < |x| ==> TellApart(w, x))
    }

    // No text ends with both.
    ghost predicate TellApart(w: string, x: string)
      requires |w| <= |x|
    {
      exists i :: 0 <= i < |w| && NoCommon(w[i], x[|x| - |w| + i])
    }

    ghost predicate NoCommon(k: char, l: char) {
      forall c :: !(folds(c, k) && folds(c, l))
    }

    // In s a keyword begins at n, its separator is at d, its value goes from c to e.
    ghost predicate Laid(s: string, n: nat, d: nat, c: nat, e: nat) {
      && n < d < c < e <= |s|
      && (forall i :: n <= i < d ==> value(s[i]) && !IsSeparator(s[i]))
      && IsSeparator(s[d])
      && (forall i :: d < i < c ==> space(s[i]))
      && (forall i :: c <= i < e ==> value(s[i]))
      && (e < |s| ==> !value(s[e]))
    }

    lemma LaidOut(u: string, w: string, key: string, sep: string, v: string, rest: string)
      requires Valid() && IsWord(w) && key != [] && |key| == |w| && StartsWith(key, w)
      requires sep != [] && IsSeparator(sep[0]) && forall i :: 1 <= i < |sep| ==> space(sep[i])
      requires v != [] && forall i :: 0 <= i < |v| ==> value(v[i])
      requires rest != [] ==> !value(rest[0])
      ensures var n := |u|; var d := n + |key|; var c := d + |sep|;
        Laid(u + (key + sep + v + rest), n, d, c, c + |v|)
    {
      var s, n := u + (key + sep + v + rest), |u|;
      var d := n + |key|;
      var c := d + |sep|;
      KeywordHasNoSeparator(key, w);
      assert forall i :: 0 <= i < |key| ==> folds(key[i], w[i]);
      assert forall i :: n <= i < d ==> s[i] == key[i - n];
      assert forall i :: d <= i < c ==> s[i] == sep[i - d];
      assert forall i :: c <= i < c + |v| ==> s[i] == v[i - c];
      assert c + |v| < |s| ==> s[c + |v|] == rest[0];
    }

    // A match carried past n whose separator has no space behind it swallows the value.
    lemma SwallowsValue(s: string, n: nat, d: nat, e: nat, w: string, p: nat, v: nat)
      requires Valid() && Strict() && IsWord(w) && Laid(s, n, d, d + 1, e)
      requires Groups(s, w, p, v) && |w| + p + v > n
      ensures |w| + p <= d + 1 && |w| + p + v == e
    {
      assert Opens(s, w, p);
      OpensEarly(s, d, d + 1, w, p);
      assert forall i :: n <= i < e ==> value(s[i]);
    }

    // Otherwise it ends with the separator.
    lemma EndsWithSeparator(s: string, n: nat, d: nat, c: nat, e: nat, w: string, p: nat, v: nat)
      requires Valid() && Strict() && IsWord(w) && Laid(s, n, d, c, e) && d + 1 < c
      requires Groups(s, w, p, v) && |w| + p + v > n && |w| + p <= n
      ensures |w| + p + v == d + 1
    {
      assert forall i :: n <= i <= d ==> value(s[i]);
      assert space(s[d + 1]);
    }

    // No match that starts before n begins its value behind n.
    lemma ValueBegins(s: string, n: nat, d: nat, c: nat, e: nat, w: string, p: nat)
      requires Valid() && Strict() && IsWord(w) && Laid(s, n, d, c, e) && Opens(s, w, p) && |w| != d
      ensures |w| + p <= n || |w| + p > c
    {
      var k, q := |w|, |w| + p;
      assert value(s[q]) && value(s[k]) && value(s[d]);
      assert q - 1 == k || space(s[q - 1]);
    }

    // No keyword ends where a shorter one does.
    lemma KeywordsToldApart(s: string, n: nat, w: string, x: string)
      requires n <= |s| && StartsWith(s[n..], w) && |x| == n + |w| && TellApart(w, x)
      ensures !StartsWith(s, x)
    {
      var i :| 0 <= i < |w| && NoCommon(w[i], x[|x| - |w| + i]);
      assert s[n..][i] == s[n + i];
    }

    // ---- Exactly which values are hidden ----

    ghost predicate IsValue(v: string) {
      v != [] && forall i :: 0 <= i < |v| ==> value(v[i])
    }

    // What a keyword, a separator and what may follow a value look like.
    ghost predicate Fields(w: string, key: string, sep: string, rest: string) {
      && w in words && |key| == |w| && StartsWith(key, w)
      && sep != [] && IsSeparator(sep[0]) && (forall i :: 1 <= i < |sep| ==> space(sep[i]))
      && (rest != [] ==> !value(rest[0]))
    }

    static function Line(pre: string, key: string, sep: string, v: string, rest: string): string {
      pre + (key + sep + v + rest)
    }

    lemma LinesAgree(w: string, key: string, sep: string, v: string, o: string, rest: string)
      requires Valid() && Fields(w, key, sep, rest) && IsValue(v) && IsValue(o)
      ensures AgreeUpTo(key + sep + v + rest, key + sep + o + rest, |key|, |key| + |sep|)
    {
      var a, b, c := key + sep + v + rest, key + sep + o + rest, |key| + |sep|;
      assert a[..c] == key + sep == b[..c];
      assert a[|key|] == sep[0] && a[c] == v[0] && b[c] == o[0];
    }

    lemma KeywordFacts(w: string, key: string, sep: string, rest: string)
      requires Valid() && Fields(w, key, sep, rest)
      ensures IsWord(w) && key != []
    {
    }

    lemma SwallowedGroups(s: string, t: string, c: nat, e: nat, f: nat, w: string, p: nat)
      requires |w| + p <= c < e <= |s| && c < f <= |t| && s[..c] == t[..c]
      requires Groups(s, w, p, e - (|w| + p))
      requires (forall i :: c <= i < f ==> value(t[i])) && (f < |t| ==> !value(t[f]))
      ensures Groups(t, w, p, f - (|w| + p))
    {
      assert forall i :: 0 <= i < c ==> s[..c][i] == t[..c][i];
    }

    // Without a space behind the separator, a match carried past the keyword takes the
    // value along, whatever the value is.
    lemma SwallowedHead(s: string, t: string, n: nat, d: nat, e: nat, f: nat, k: nat, p: nat, x: nat)
      requires Valid() && Strict() && Laid(s, n, d, d + 1, e) && Laid(t, n, d, d + 1, f)
      requires s[..d + 1] == t[..d + 1] && Head(s) == Match(k, p, x) && k + p + x > n
      ensures k + p <= d + 1 && k + p + x == e && Head(t) == Match(k, p, f - (k + p))
    {
      var w := HeadWord(s);
      MatchWordGroups(s, w, p, x);
      SwallowsValue(s, n, d, e, w, p, x);
      SwallowedGroups(s, t, d + 1, e, f, w, p);
      GroupsAreHead(t, w, p, f - (k + p));
    }

    lemma FrontAgrees(s: string, t: string, c: nat, q: nat)
      requires q <= c <= |s| && c <= |t| && s[..c] == t[..c]
      ensures s[..q] == t[..q]
    {
      assert s[..q] == s[..c][..q] == t[..c][..q] == t[..q];
    }

    lemma SwallowedSame(s: string, t: string, n: nat, d: nat, e: nat, f: nat)
      requires Valid() && Strict() && Laid(s, n, d, d + 1, e) && Laid(t, n, d, d + 1, f)
      requires s[..d + 1] == t[..d + 1] && s[e..] == t[f..]
      requires Head(s).Match? && Head(s).key + Head(s).sep + Head(s).value > n
      ensures Replace(s) == Replace(t)
    {
      var Match(k, p, x) := Head(s);
      SwallowedHead(s, t, n, d, e, f, k, p, x);
      FrontAgrees(s, t, d + 1, k + p);
      SameAround(s, t, k, p, x, f - (k + p));
    }

    lemma SameAround(s: string, t: string, k: nat, p: nat, x: nat, y: nat)
      requires Head(s) == Match(k, p, x) && Head(t) == Match(k, p, y)
      requires s[..k + p] == t[..k + p] && s[k + p + x..] == t[k + p + y..]
      ensures Replace(s) == Replace(t)
    {
      AtHead(s, k, p, x);
      AtHead(t, k, p, y);
    }

    // With one, it ends at the separator.
    lemma StopsAtSeparator(s: string, n: nat, d: nat, c: nat, e: nat, w: string)
      requires Valid() && Strict() && Laid(s, n, d, c, e) && d + 1 < c && 0 < n
      requires w in words && |w| == d - n && StartsWith(s[n..], w)
      requires Head(s).Match? && Head(s).key + Head(s).sep + Head(s).value > n
      ensures Head(s).key + Head(s).sep <= n && Head(s).key + Head(s).sep + Head(s).value == d + 1
    {
      var Match(k, p, x) := Head(s);
      var w' := HeadWord(s);
      MatchWordGroups(s, w', p, x);
      if |w'| == d {
        KeywordsToldApart(s, n, w, w');
        assert false;
      }
      assert Opens(s, w', p);
      ValueBegins(s, n, d, c, e, w', p);
      OpensEarly(s, d, c, w', p);
      EndsWithSeparator(s, n, d, c, e, w', p, x);
    }

    lemma HeadStartsWithValue(s: string)
      requires Valid() && Head(s).Match?
      ensures s != [] && value(s[0])
    {
      var w := HeadWord(s);
    }

    lemma HeadGoesOn(s: string)
      requires Valid() && Strict() && Head(s).Match?
      ensures |s| >= 2 && value(s[1])
    {
      var w := HeadWord(s);
      assert folds(s[1], w[1]);
    }

    lemma NoHeadAtSpace(s: string)
      requires Valid() && s != [] && space(s[0])
      ensures Head(s).NoMatch?
    {
      if Head(s).Match? {
        HeadStartsWithValue(s);
      }
    }

    lemma NoHeadAtLone(s: string)
      requires Valid() && Strict() && (|s| >= 2 ==> !value(s[1]))
      ensures Head(s).NoMatch?
    {
      if Head(s).Match? {
        HeadGoesOn(s);
      }
    }

    lemma SpacesPass(sp: string, y: string)
      requires Valid() && forall i :: 0 <= i < |sp| ==> space(sp[i])
      ensures Replace(sp + y) == sp + Replace(y)
    {
      forall j | 0 <= j < |sp|
        ensures !Fits(Matcher()(Behind(sp, j, y)), Behind(sp, j, y))
      {
        assert Behind(sp, j, y)[0] == sp[j];
        NoHeadAtSpace(Behind(sp, j, y));
      }
      NonesPass(sp, 0, y, Matcher(), mask);
      assert Behind(sp, 0, y) == sp + y && sp[0..] == sp;
    }

    lemma LoneCharacter(c: char, rest: string)
      requires Valid() && Strict() && (rest != [] ==> !value(rest[0]))
      ensures Replace([c] + rest) == [c] + Replace(rest)
    {
      NoHeadAtLone([c] + rest);
      NothingAtHead([c] + rest);
      assert ([c] + rest)[1..] == rest;
    }

    lemma DifferentMiddle(front: string, c: char, o: char, tail: string)
      requires c != o
      ensures front + ([c] + tail) != front + ([o] + tail)
    {
      assert (front + ([c] + tail))[|front|] == c && (front + ([o] + tail))[|front|] == o;
    }

    // What then follows the separator stays as it is.
    lemma LeftAsIs(s: string, d: nat, sp: string, c: char, rest: string, k: nat, p: nat)
      requires Valid() && Strict() && forall i :: 0 <= i < |sp| ==> space(sp[i])
      requires k + p <= d < |s| && Head(s) == Match(k, p, d + 1 - (k + p))
      requires s[d + 1..] == sp + ([c] + rest) && (rest != [] ==> !value(rest[0]))
      ensures Replace(s) == s[..k + p] + mask + sp + ([c] + Replace(rest))
    {
      AtHead(s, k, p, d + 1 - (k + p));
      SpacesPass(sp, [c] + rest);
      LoneCharacter(c, rest);
    }

    lemma LeftOver(s: string, t: string, n: nat, d: nat, w: string, sp: string, c: char, o: char, rest: string)
      requires Valid() && Strict() && sp != [] && (forall i :: 0 <= i < |sp| ==> space(sp[i])) && c != o
      requires Laid(s, n, d, d + 1 + |sp|, d + 2 + |sp|) && 0 < n
      requires d + 1 + |sp| <= |t| && s[..d + 1 + |sp|] == t[..d + 1 + |sp|]
      requires w in words && |w| == d - n && StartsWith(s[n..], w)
      requires Head(s).Match? && Head(s).key + Head(s).sep + Head(s).value > n
      requires s[d + 1..] == sp + ([c] + rest) && t[d + 1..] == sp + ([o] + rest)
      requires rest != [] ==> !value(rest[0])
      ensures Replace(s) != Replace(t)
    {
      var Match(k, p, x) := Head(s);
      StopsAtSeparator(s, n, d, d + 1 + |sp|, d + 2 + |sp|, w);
      HeadAgrees(s, t, d + 1 + |sp|, k, p, x);
      LeftAsIs(s, d, sp, c, rest, k, p);
      LeftAsIs(t, d, sp, o, rest, k, p);
      FrontAgrees(s, t, d + 1 + |sp|, k + p);
      DifferentMiddle(s[..k + p] + mask + sp, c, o, Replace(rest));
    }

    // From position j on, which the scan comes to, the text in front makes no difference.
    lemma FromReached(pre: string, j: nat, w: string, key: string, sep: string, v: string, o: string, rest: string)
      requires Valid() && Fields(w, key, sep, rest) && IsValue(v) && IsValue(o)
      requires j <= |pre| && Reaches(Line(pre, key, sep, v, rest), j)
      ensures Reaches(Line(pre, key, sep, o, rest), j)
      ensures Replace(Line(pre, key, sep, v, rest)) == Replace(Line(pre, key, sep, o, rest))
         <==> Replace(Line(pre[j..], key, sep, v, rest)) == Replace(Line(pre[j..], key, sep, o, rest))
    {
      var front, u := pre[..j], pre[j..];
      var a, b := key + sep + v + rest, key + sep + o + rest;
      assert pre + a == front + (u + a) && pre + b == front + (u + b);
      LinesAgree(w, key, sep, v, o, rest);
      AgreeBehind(u, a, b, |key|, |key| + |sep|);
      ReachedReplaced(front, u + a, u + b, |u| + |key|, |u| + |key| + |sep|);
    }

    // A line that begins with the keyword.
    lemma FirstReplaced(w: string, key: string, sep: string, v: string, rest: string)
      requires Valid() && Fields(w, key, sep, rest) && IsValue(v)
      ensures Replace(Line([], key, sep, v, rest)) == key + sep + mask + Replace(rest)
    {
      ReplaceAt(w, key, sep, v, rest);
      assert Line([], key, sep, v, rest) == key + sep + v + rest;
    }

    /** A value that the scan reaches is hidden: whatever it is, the line is replaced alike. */
    lemma ReachedIsHidden(pre: string, w: string, key: string, sep: string, v: string, o: string, rest: string)
      requires Valid() && Fields(w, key, sep, rest) && IsValue(v) && IsValue(o)
      requires Reaches(Line(pre, key, sep, v, rest), |pre|)
      ensures Reaches(Line(pre, key, sep, o, rest), |pre|)
      ensures Replace(Line(pre, key, sep, v, rest)) == Replace(Line(pre, key, sep, o, rest))
    {
      FromReached(pre, |pre|, w, key, sep, v, o, rest);
      assert pre[|pre|..] == [];
      FirstReplaced(w, key, sep, v, rest);
      FirstReplaced(w, key, sep, o, rest);
    }

    lemma LineParts(u: string, key: string, sep: string, v: string, rest: string)
      ensures var s, c := Line(u, key, sep, v, rest), |u| + |key| + |sep|;
        && |s| == c + |v| + |rest| && s[..c] == u + key + sep && s[c + |v|..] == rest
        && s[|u|..] == key + sep + v + rest
    {
    }

    // A value behind a match that runs past its keyword: hidden without a space behind
    // the separator ...
    lemma CarriedIsHidden(u: string, w: string, key: string, sep: string, v: string, o: string, rest: string)
      requires Valid() && Strict() && Fields(w, key, sep, rest) && IsValue(v) && IsValue(o) && |sep| == 1
      requires var h := Head(Line(u, key, sep, v, rest)); h.Match? && h.key + h.sep + h.value > |u|
      ensures Replace(Line(u, key, sep, v, rest)) == Replace(Line(u, key, sep, o, rest))
    {
      var s, t, n := Line(u, key, sep, v, rest), Line(u, key, sep, o, rest), |u|;
      var d := n + |key|;
      KeywordFacts(w, key, sep, rest);
      LaidOut(u, w, key, sep, v, rest);
      LaidOut(u, w, key, sep, o, rest);
      LineParts(u, key, sep, v, rest);
      LineParts(u, key, sep, o, rest);
      SwallowedSame(s, t, n, d, d + 1 + |v|, d + 1 + |o|);
    }

    // ... and left in the text with one.
    lemma CarriedIsLeft(u: string, w: string, key: string, sep: string, c: char, o: char, rest: string)
      requires Valid() && Strict() && Fields(w, key, sep, rest) && |sep| > 1 && u != []
      requires value(c) && value(o) && c != o
      requires var h := Head(Line(u, key, sep, [c], rest)); h.Match? && h.key + h.sep + h.value > |u|
      ensures Replace(Line(u, key, sep, [c], rest)) != Replace(Line(u, key, sep, [o], rest))
    {
      var s, t := Line(u, key, sep, [c], rest), Line(u, key, sep, [o], rest);
      KeywordFacts(w, key, sep, rest);
      LineLaid(u, w, key, sep, c, rest);
      LineLaid(u, w, key, sep, o, rest);
      LeftOver(s, t, |u|, |u| + |key|, w, sep[1..], c, o, rest);
    }

    lemma LineLaid(u: string, w: string, key: string, sep: string, c: char, rest: string)
      requires Valid() && Fields(w, key, sep, rest) && value(c)
      ensures var s, n, d, e := Line(u, key, sep, [c], rest), |u|, |u| + |key|, |u| + |key| + |sep|;
        && Laid(s, n, d, e, e + 1) && StartsWith(s[n..], w)
        && s[..e] == u + key + sep && s[d + 1..] == sep[1..] + ([c] + rest)
    {
      KeywordFacts(w, key, sep, rest);
      LaidOut(u, w, key, sep, [c], rest);
      LineParts(u, key, sep, [c], rest);
      SpacesBehind(u, key, sep, [c], rest);
      StartsWithFront(key, w, sep + [c] + rest);
      assert key + sep + [c] + rest == key + (sep + [c] + rest);
    }

    lemma SpacesBehind(u: string, key: string, sep: string, v: string, rest: string)
      requires sep != []
      ensures Line(u, key, sep, v, rest)[|u| + |key| + 1..] == sep[1..] + (v + rest)
    {
    }

    lemma StartsWithFront(key: string, w: string, more: string)
      requires StartsWith(key, w)
      ensures StartsWith(key + more, w)
    {
    }

    // ---- The condition ----

    // A space behind the separator saves a value only from a scan that has been carried
    // past its keyword.
    ghost predicate Caught(pre: string, key: string, sep: string, v: string, rest: string) {
      |sep| == 1 || Reaches(Line(pre, key, sep, v, rest), |pre|)
    }

    lemma CaughtIsHidden(pre: string, w: string, key: string, sep: string, v: string, o: string, rest: string)
      requires Valid() && Strict() && Fields(w, key, sep, rest) && IsValue(v) && IsValue(o)
      requires Caught(pre, key, sep, v, rest)
      ensures Replace(Line(pre, key, sep, v, rest)) == Replace(Line(pre, key, sep, o, rest))
    {
      if Reaches(Line(pre, key, sep, v, rest), |pre|) {
        ReachedIsHidden(pre, w, key, sep, v, o, rest);
      } else {
        var j := CarriedAt(pre, key, sep, v, rest);
        FromReached(pre, j, w, key, sep, v, o, rest);
        CarriedIsHidden(pre[j..], w, key, sep, v, o, rest);
      }
    }

    lemma CarriedAt(pre: string, key: string, sep: string, v: string, rest: string) returns (j: nat)
      requires !Reaches(Line(pre, key, sep, v, rest), |pre|)
      ensures j < |pre| && Reaches(Line(pre, key, sep, v, rest), j)
      ensures var h := Head(Line(pre[j..], key, sep, v, rest)); h.Match? && h.key + h.sep + h.value > |pre| - j
    {
      var a := key + sep + v + rest;
      assert pre[0..] == pre;
      j := CarriedPast(pre, 0, a, Matcher());
      assert Line(pre[j..], key, sep, v, rest) == pre[j..] + a;
    }

    lemma UncaughtIsLeft(pre: string, w: string, key: string, sep: string, c: char, o: char, rest: string)
      requires Valid() && Strict() && Fields(w, key, sep, rest) && value(c) && value(o) && c != o
      requires !Caught(pre, key, sep, [c], rest)
      ensures Replace(Line(pre, key, sep, [c], rest)) != Replace(Line(pre, key, sep, [o], rest))
    {
      var j := CarriedAt(pre, key, sep, [c], rest);
      FromReached(pre, j, w, key, sep, [c], [o], rest);
      CarriedIsLeft(pre[j..], w, key, sep, c, o, rest);
    }

    // Whether a value is caught does not depend on the value.
    lemma CaughtWhatever(pre: string, w: string, key: string, sep: string, v: string, o: string, rest: string)
      requires Valid() && Fields(w, key, sep, rest) && IsValue(v) && IsValue(o)
      requires Caught(pre, key, sep, v, rest)
      ensures Caught(pre, key, sep, o, rest)
    {
      if |sep| > 1 {
        ReachedIsHidden(pre, w, key, sep, v, o, rest);
      }
    }
  }
}
