/** Route identifiers made from the free-text tags of an imported configuration. */
module RouteIds {
  import opened Strings
  import opened Text

  const ID_LIMIT := 48

  function DigitPrefix(): string {
    ['r', 'o', 'u', 't', 'e', '-']
  }

  predicate IsIdChar(c: char) {
    'a' <= c <= 'z' || IsDigit(c) || c == '_' || c == '-'
  }

  ghost predicate IdText(s: string) {
    forall i :: 0 <= i < |s| ==> IsIdChar(s[i])
  }

  // str.lower. Apart from the ASCII capitals only the Kelvin sign and the dotted
  // capital I have a lower case that contains an ASCII letter; every other character
  // outside ASCII stays outside, which is all that the next step looks at.
  function LowerOne(c: char): string {
    if 'A' <= c <= 'Z' then [c + '\U{20}']
    else if c == '\U{212a}' then ['k']
    else if c == '\U{130}' then ['i', '\U{307}']
    else [c]
  }

  function Lower(s: string): string {
    if s == [] then [] else LowerOne(s[0]) + Lower(s[1..])
  }

  // After lowering, a character the pattern [^a-zA-Z0-9_-] does not match is an IdChar.
  function SkipOthers(s: string): (r: string)
    ensures |r| <= |s|
  {
    if s != [] && !IsIdChar(s[0]) then SkipOthers(s[1..]) else s
  }

  // TAG_PATTERN.sub("-", s): each run of other characters becomes one hyphen.
  function Hyphenate(s: string): string
    decreases |s|
  {
    if s == [] then []
    else if IsIdChar(s[0]) then [s[0]] + Hyphenate(s[1..])
    else ['-'] + Hyphenate(SkipOthers(s[1..]))
  }

  predicate IsHyphen(c: char) {
    c == '-'
  }

  function Hyphenated(tag: string): string {
    Hyphenate(Lower(Strip(tag, IsSpace)))
  }

  // A prefix keeps an identifier from starting with a digit.
  function Lettered(s: string): string {
    if s != [] && IsDigit(s[0]) then DigitPrefix() + s else s
  }

  // The identifier before it is cut to length.
  function Uncut(tag: string): string {
    Lettered(Strip(Hyphenated(tag), IsHyphen))
  }

  function Cut(s: string): string {
    if |s| > ID_LIMIT then s[..ID_LIMIT] else s
  }

  function NormalizeRouteId(tag: string): string {
    Cut(Uncut(tag))
  }

  // ---- What an identifier looks like ----

  lemma {:induction false} HyphenatedIsIdText(s: string)
    ensures IdText(Hyphenate(s))
    decreases |s|
  {
    if s != [] {
      if IsIdChar(s[0]) {
        HyphenatedIsIdText(s[1..]);
      } else {
        HyphenatedIsIdText(SkipOthers(s[1..]));
      }
    }
  }

  lemma SliceIdText(s: string, i: nat, j: nat)
    requires IdText(s) && i <= j <= |s|
    ensures IdText(s[i..j])
  {
    var t := s[i..j];
    assert forall k :: 0 <= k < |t| ==> t[k] == s[i + k];
  }

  lemma StripShape(s: string, p: char -> bool)
    requires IdText(s)
    ensures var r := Strip(s, p); IdText(r) && (r != [] ==> !p(r[0]) && !p(r[|r| - 1]))
  {
    var left := StripStart(s, p);
    SliceIdText(s, |s| - |left|, |s|);
    var r := StripEnd(left, p);
    SliceIdText(left, 0, |r|);
    assert r != [] ==> r[0] == left[0];
  }

  // Identifier characters, not starting with a hyphen or a digit.
  ghost predicate IdShape(s: string) {
    IdText(s) && (s != [] ==> s[0] != '-' && !IsDigit(s[0]))
  }

  lemma LetteredShape(s: string)
    requires IdText(s) && (s != [] ==> s[0] != '-' && s[|s| - 1] != '-')
    ensures var t := Lettered(s); IdShape(t) && (t != [] ==> t[|t| - 1] != '-')
  {
    if s != [] && IsDigit(s[0]) {
      PrefixShape(s);
    }
  }

  lemma UncutShape(tag: string)
    ensures var u := Uncut(tag); IdShape(u) && (u != [] ==> u[|u| - 1] != '-')
  {
    HyphenatedIsIdText(Lower(Strip(tag, IsSpace)));
    StripShape(Hyphenated(tag), IsHyphen);
    LetteredShape(Strip(Hyphenated(tag), IsHyphen));
  }

  lemma PrefixShape(s: string)
    requires IdText(s) && s != [] && s[|s| - 1] != '-'
    ensures var t := DigitPrefix() + s; IdShape(t) && t[|t| - 1] != '-'
  {
    var t := DigitPrefix() + s;
    var n := |DigitPrefix()|;
    assert forall i :: 0 <= i < |t| ==> t[i] == if i < n then DigitPrefix()[i] else s[i - n];
  }

  lemma FrontShaped(s: string, r: string)
    requires IdShape(s) && r <= s
    ensures IdShape(r)
  {
  }

  lemma CutIsFront(s: string)
    ensures Cut(s) <= s && |Cut(s)| <= 48
  {
  }

  /** Identifiers are at most 48 characters over [a-z0-9_-]; a non-empty one starts
      with a letter or an underscore. */
  lemma RouteIdShape(tag: string)
    ensures var id := NormalizeRouteId(tag); IdShape(id) && |id| <= 48
  {
    UncutShape(tag);
    CutIsFront(Uncut(tag));
    FrontShaped(Uncut(tag), Cut(Uncut(tag)));
  }

  // ---- Normalising again ----

  lemma {:induction false} LowerFixes(s: string)
    requires IdText(s)
    ensures Lower(s) == s
  {
    if s != [] {
      LowerFixes(s[1..]);
      assert s == [s[0]] + s[1..];
    }
  }

  lemma {:induction false} HyphenateFixes(s: string)
    requires IdText(s)
    ensures Hyphenate(s) == s
  {
    if s != [] {
      HyphenateFixes(s[1..]);
      assert s == [s[0]] + s[1..];
    }
  }

  lemma IdCharsAreNoSpaces(c: char)
    requires IsIdChar(c)
    ensures !IsSpace(c)
  {
  }

  lemma StripSpaceFixes(s: string)
    requires IdText(s)
    ensures Strip(s, IsSpace) == s
  {
    if s != [] {
      IdCharsAreNoSpaces(s[0]);
      IdCharsAreNoSpaces(s[|s| - 1]);
    }
    StripFixes(s, IsSpace);
  }

  lemma HyphenatedFixes(s: string)
    requires IdText(s)
    ensures Hyphenated(s) == s
  {
    StripSpaceFixes(s);
    LowerFixes(s);
    HyphenateFixes(s);
  }

  // On an identifier only the hyphens at its end are dropped.
  lemma UncutShaped(s: string)
    requires IdShape(s)
    ensures Uncut(s) == StripEnd(s, IsHyphen)
    ensures IdShape(StripEnd(s, IsHyphen))
  {
    HyphenatedFixes(s);
    StripFront(s, IsHyphen);
    FrontShaped(s, StripEnd(s, IsHyphen));
  }

  lemma ShortStays(u: string)
    requires |u| <= ID_LIMIT
    ensures Cut(u) == u
  {
  }

  lemma NormalizeShaped(s: string)
    requires IdShape(s) && |s| <= ID_LIMIT
    ensures NormalizeRouteId(s) == StripEnd(s, IsHyphen)
    ensures IdShape(StripEnd(s, IsHyphen)) && (s != [] ==> StripEnd(s, IsHyphen) != [])
  {
    UncutShaped(s);
    StripFront(s, IsHyphen);
    ShortStays(StripEnd(s, IsHyphen));
  }

  // The cut falls right behind a hyphen.
  predicate CutAtHyphen(tag: string) {
    |Uncut(tag)| > ID_LIMIT && Uncut(tag)[ID_LIMIT - 1] == '-'
  }

  lemma LastHyphen(s: string)
    ensures StripEnd(s, IsHyphen) == s <==> s == [] || s[|s| - 1] != '-'
  {
  }

  lemma CutEndsWithHyphen(tag: string)
    ensures var id := NormalizeRouteId(tag); (id != [] && id[|id| - 1] == '-') <==> CutAtHyphen(tag)
  {
    UncutShape(tag);
    CutEnd(Uncut(tag));
  }

  lemma CutEnd(u: string)
    requires u != [] ==> u[|u| - 1] != '-'
    ensures var c := Cut(u);
      (c != [] && c[|c| - 1] == '-') <==> (|u| > ID_LIMIT && u[ID_LIMIT - 1] == '-')
  {
  }

  /** Normalising twice is normalising once exactly when the cut does not fall right
      behind a hyphen; a third time never changes anything. */
  lemma NormalizeAgain(tag: string, id: string)
    requires id == NormalizeRouteId(tag)
    ensures NormalizeRouteId(id) == id <==> !CutAtHyphen(tag)
    ensures NormalizeRouteId(NormalizeRouteId(id)) == NormalizeRouteId(id)
    ensures id != [] ==> NormalizeRouteId(id) != []
  {
    RouteIdShape(tag);
    NormalizeShaped(id);
    CutEndsWithHyphen(tag);
    LastHyphen(id);
    var r := StripEnd(id, IsHyphen);
    NormalizeShaped(r);
    LastHyphen(r);
  }

  /** It does fall there, for any 47 characters that make an identifier on their own. */
  lemma CutAtHyphenHappens(s: string)
    requires IdShape(s) && |s| == ID_LIMIT - 1
    ensures CutAtHyphen(s + ['-', 'b'])
  {
    var t := s + ['-', 'b'];
    assert forall i :: 0 <= i < |t| ==> t[i] == if i < |s| then s[i] else ['-', 'b'][i - |s|];
    UncutShaped(t);
    LastHyphen(t);
  }

  // ---- The identifier of a tag ----

  lemma {:induction false} LowerConcat(a: string, b: string)
    ensures Lower(a + b) == Lower(a) + Lower(b)
  {
    if a == [] {
      assert a + b == b;
    } else {
      assert (a + b)[1..] == a[1..] + b;
      LowerConcat(a[1..], b);
    }
  }

  lemma {:induction false} LowerCased(m: string, w: string)
    requires IdText(w) && Cased(m, w)
    ensures Lower(m) == w
  {
    if m != [] {
      LowerCased(m[1..], w[1..]);
      assert w == [w[0]] + w[1..];
    }
  }

  // ASCII characters that no identifier holds.
  ghost predicate Gap(g: string) {
    g != [] && forall i :: 0 <= i < |g| ==> g[i] < '\U{80}' && !IsIdChar(g[i]) && !('A' <= g[i] <= 'Z')
  }

  lemma {:induction false} LowerGap(g: string)
    requires forall i :: 0 <= i < |g| ==> g[i] < '\U{80}' && !('A' <= g[i] <= 'Z')
    ensures Lower(g) == g
  {
    if g != [] {
      LowerGap(g[1..]);
      assert g == [g[0]] + g[1..];
    }
  }

  lemma {:induction false} HyphenateWord(w: string, rest: string)
    requires IdText(w)
    ensures Hyphenate(w + rest) == w + Hyphenate(rest)
  {
    if w == [] {
      assert w + rest == rest;
    } else {
      assert (w + rest)[1..] == w[1..] + rest;
      HyphenateWord(w[1..], rest);
      assert w == [w[0]] + w[1..];
    }
  }

  lemma {:induction false} SkipGap(g: string, rest: string)
    requires (forall i :: 0 <= i < |g| ==> !IsIdChar(g[i])) && (rest != [] ==> IsIdChar(rest[0]))
    ensures SkipOthers(g + rest) == rest
  {
    if g == [] {
      assert g + rest == rest;
    } else {
      assert (g + rest)[1..] == g[1..] + rest;
      SkipGap(g[1..], rest);
    }
  }

  lemma HyphenateGap(g: string, rest: string)
    requires Gap(g) && (rest != [] ==> IsIdChar(rest[0]))
    ensures Hyphenate(g + rest) == ['-'] + Hyphenate(rest)
  {
    assert (g + rest)[1..] == g[1..] + rest;
    SkipGap(g[1..], rest);
  }

  // Words with gaps between them.
  ghost function Spaced(words: seq<string>, gaps: seq<string>): string
    requires |words| == |gaps| + 1
    decreases |gaps|
  {
    if gaps == [] then words[0] else words[0] + (gaps[0] + Spaced(words[1..], gaps[1..]))
  }

  ghost predicate Words(ms: seq<string>, ws: seq<string>) {
    |ms| == |ws| && forall i :: 0 <= i < |ws| ==> ws[i] != [] && IdText(ws[i]) && Cased(ms[i], ws[i])
  }

  lemma {:induction false} SpacedHyphenates(ms: seq<string>, ws: seq<string>, gaps: seq<string>)
    requires |ms| == |gaps| + 1 && Words(ms, ws) && forall i :: 0 <= i < |gaps| ==> Gap(gaps[i])
    ensures Hyphenate(Lower(Spaced(ms, gaps))) == Join(ws, '-')
    ensures Lower(Spaced(ms, gaps)) != [] && IsIdChar(Lower(Spaced(ms, gaps))[0])
    decreases |gaps|
  {
    LowerCased(ms[0], ws[0]);
    if gaps == [] {
      HyphenateFixes(ws[0]);
    } else {
      var more := Spaced(ms[1..], gaps[1..]);
      SpacedHyphenates(ms[1..], ws[1..], gaps[1..]);
      LowerConcat(ms[0], gaps[0] + more);
      LowerConcat(gaps[0], more);
      LowerGap(gaps[0]);
      HyphenateWord(ws[0], gaps[0] + Lower(more));
      HyphenateGap(gaps[0], Lower(more));
      assert ws[0] + (['-'] + Join(ws[1..], '-')) == ws[0] + ['-'] + Join(ws[1..], '-');
    }
  }

  lemma EndsOf(a: string, b: string, c: string)
    requires a != [] && c != []
    ensures var s := a + (b + c); s != [] && s[0] == a[0] && s[|s| - 1] == c[|c| - 1]
  {
  }

  lemma {:induction false} SpacedEnds(ms: seq<string>, gaps: seq<string>)
    requires |ms| == |gaps| + 1 && forall i :: 0 <= i < |ms| ==> ms[i] != []
    ensures var s, last := Spaced(ms, gaps), ms[|ms| - 1];
      s != [] && s[0] == ms[0][0] && s[|s| - 1] == last[|last| - 1]
    decreases |gaps|
  {
    if gaps != [] {
      SpacedEnds(ms[1..], gaps[1..]);
      EndsOf(ms[0], gaps[0], Spaced(ms[1..], gaps[1..]));
    }
  }

  lemma CasedIsNoSpace(c: char, k: char)
    requires IsIdChar(k) && (c == k || ('a' <= k <= 'z' && c as int == k as int - 32))
    ensures !IsSpace(c)
  {
  }

  lemma WordEnds(m: string, w: string)
    requires w != [] && IdText(w) && Cased(m, w)
    ensures !IsSpace(m[0]) && !IsSpace(m[|m| - 1])
  {
    CasedIsNoSpace(m[0], w[0]);
    CasedIsNoSpace(m[|m| - 1], w[|w| - 1]);
  }

  lemma TagHyphenated(front: string, ms: seq<string>, ws: seq<string>, gaps: seq<string>, back: string)
    requires (forall i :: 0 <= i < |front| ==> IsSpace(front[i])) && (forall i :: 0 <= i < |back| ==> IsSpace(back[i]))
    requires |ms| == |gaps| + 1 && Words(ms, ws) && forall i :: 0 <= i < |gaps| ==> Gap(gaps[i])
    ensures Hyphenated(front + Spaced(ms, gaps) + back) == Join(ws, '-')
  {
    SpacedEnds(ms, gaps);
    WordEnds(ms[0], ws[0]);
    WordEnds(ms[|ms| - 1], ws[|ws| - 1]);
    StripRuns(front, Spaced(ms, gaps), back, IsSpace);
    SpacedHyphenates(ms, ws, gaps);
  }

  /** The identifier of a tag is its words in lower case with hyphens for the gaps, with
      "route-" in front of a digit, cut to 48 characters. */
  lemma TagNormalizes(
      front: string, ms: seq<string>, ws: seq<string>, gaps: seq<string>, back: string, id: string)
    requires (forall i :: 0 <= i < |front| ==> IsSpace(front[i])) && (forall i :: 0 <= i < |back| ==> IsSpace(back[i]))
    requires |ms| == |gaps| + 1 && Words(ms, ws) && forall i :: 0 <= i < |gaps| ==> Gap(gaps[i])
    requires id == Join(ws, '-') && id != [] && id[0] != '-' && id[|id| - 1] != '-'
    ensures var long := if '0' <= id[0] <= '9' then "route-" + id else id;
      NormalizeRouteId(front + Spaced(ms, gaps) + back) == if |long| > 48 then long[..48] else long
  {
    TagHyphenated(front, ms, ws, gaps, back);
    StripFixes(id, IsHyphen);
  }

  lemma EmptyParts()
    ensures Hyphenate(Lower([])) == [] && Strip([], IsHyphen) == [] && Lettered([]) == [] && Cut([]) == []
  {
  }

  lemma BlankNormalizes(tag: string)
    ensures Strip(tag, IsSpace) == [] ==> NormalizeRouteId(tag) == []
  {
    EmptyParts();
    if Strip(tag, IsSpace) == [] {
      assert Hyphenated(tag) == [];
      assert Uncut(tag) == [];
    }
  }
}
