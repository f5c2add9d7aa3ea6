/** Redaction of log text and of JSON payloads before they are written. */
module Redaction {
  import opened Json
  import opened KeywordPatterns
  import opened Substitution
  import opened Text

  function Keywords(): seq<string> {
    ["password", "passwd", "secret", "token", "auth", "server", "endpoint"]
  }

  function SensitiveWords(): seq<string> {
    ["password", "passwd", "secret", "token", "auth", "credential"]
  }

  function MaskText(): string {
    "[redacted]"
  }

  predicate IsValueChar(c: char) {
    !IsSpace(c) && c != ',' && c != '"' && c != '\''
  }

  function SecretPattern(): Pattern {
    Pattern(Keywords(), MaskText(), (c, k) => FoldsTo(c, k), c => IsSpace(c), c => IsValueChar(c))
  }

  lemma LettersFold(c: char, k: char)
    requires IsLetter(k) && FoldsTo(c, k)
    ensures !IsSeparator(c) && IsValueChar(c)
  {
  }

  lemma KeywordsAreWords()
    ensures forall w <- Keywords() :: Pattern.IsWord(w) && w != []
  {
  }

  lemma MaskIsAValue()
    ensures forall i :: 0 <= i < |MaskText()| ==> IsValueChar(MaskText()[i])
  {
  }

  lemma SecretPatternValid()
    ensures SecretPattern().Valid()
  {
    KeywordsAreWords();
    MaskIsAValue();
    forall c, k | IsLetter(k) && FoldsTo(c, k)
      ensures !IsSeparator(c) && IsValueChar(c)
    {
      LettersFold(c, k);
    }
  }

  function RedactText(s: string): string {
    SecretPattern().Replace(s)
  }

  /** In a redacted text every leftmost match carries the mask, so redacting again
      changes nothing. */
  lemma RedactedTextIsMasked(s: string)
    ensures SecretPattern().IsMasked(RedactText(s))
    ensures RedactText(RedactText(s)) == RedactText(s)
  {
    SecretPatternValid();
    SecretPattern().ReplacedIsMasked(s);
    SecretPattern().MaskedIsFixed(RedactText(s));
  }

  /** A text is left alone exactly when all its matches carry the mask. */
  lemma FixedExactlyWhenMasked(s: string)
    ensures RedactText(s) == s <==> SecretPattern().IsMasked(s)
  {
    SecretPatternValid();
    if SecretPattern().IsMasked(s) {
      SecretPattern().MaskedIsFixed(s);
    } else {
      RedactedTextIsMasked(s);
    }
  }

  // The last two letters tell the keywords apart.
  function Endings(): seq<string> {
    ["rd", "wd", "et", "en", "th", "er", "nt"]
  }

  lemma KeywordEnds(i: nat)
    requires i < 7
    ensures |Keywords()| == |Endings()| == 7
    ensures var w, x := Keywords()[i], Endings()[i];
      |w| >= 2 && |x| == 2 && w[|w| - 2] == x[0] && w[|w| - 1] == x[1]
  {
  }

  lemma EndingsDiffer(i: nat, j: nat)
    requires i < j < 7
    ensures Endings()[i][0] != Endings()[j][0] || Endings()[i][1] != Endings()[j][1]
  {
  }

  lemma FoldsUniquely(k: char, l: char)
    requires IsLetter(k) && IsLetter(l) && k != l
    ensures SecretPattern().NoCommon(k, l)
  {
    forall c
      ensures !(FoldsTo(c, k) && FoldsTo(c, l))
    {
      FoldsToOne(c, k, l);
    }
  }

  lemma FoldsToOne(c: char, k: char, l: char)
    requires IsLetter(k) && IsLetter(l) && k != l
    ensures !(FoldsTo(c, k) && FoldsTo(c, l))
  {
  }

  lemma EndsTellApart(w: string, x: string)
    requires Pattern.IsWord(w) && Pattern.IsWord(x) && 2 <= |w| < |x|
    requires w[|w| - 2] != x[|x| - 2] || w[|w| - 1] != x[|x| - 1]
    ensures SecretPattern().TellApart(w, x)
  {
    var i := if w[|w| - 1] != x[|x| - 1] then |w| - 1 else |w| - 2;
    FoldsUniquely(w[i], x[|x| - |w| + i]);
  }

  lemma KeywordsToldApart(w: string, x: string)
    requires w in Keywords() && x in Keywords() && |w| < |x|
    ensures SecretPattern().TellApart(w, x)
  {
    KeywordEnds(0);
    var i :| 0 <= i < 7 && Keywords()[i] == w;
    var j :| 0 <= j < 7 && Keywords()[j] == x;
    KeywordEnds(i);
    KeywordEnds(j);
    if i < j {
      EndingsDiffer(i, j);
    } else {
      EndingsDiffer(j, i);
    }
    KeywordsAreWords();
    EndsTellApart(w, x);
  }

  lemma SecretPatternStrict()
    ensures SecretPattern().Strict()
  {
    forall w | w in Keywords()
      ensures |w| >= 2
    {
      KeywordEnds(0);
      var i :| 0 <= i < 7 && Keywords()[i] == w;
      KeywordEnds(i);
    }
    forall w, x | w in Keywords() && x in Keywords() && |w| < |x|
      ensures SecretPattern().TellApart(w, x)
    {
      KeywordsToldApart(w, x);
    }
  }

  /** A value in a line of text survives only one thing: a space behind its separator in
      a line whose earlier matches run past its keyword. In every other line two values
      have the same redaction, and in such a line no two characters have. */
  lemma ValueHiddenExactlyWhen(
      pre: string, w: string, key: string, sep: string, v: string, o: string, c: char, d: char, rest: string)
    requires SecretPattern().Fields(w, key, sep, rest)
    requires SecretPattern().IsValue(v) && SecretPattern().IsValue(o) && IsValueChar(c) && IsValueChar(d) && c != d
    ensures SecretPattern().Caught(pre, key, sep, v, rest) ==>
      RedactText(Pattern.Line(pre, key, sep, v, rest)) == RedactText(Pattern.Line(pre, key, sep, o, rest))
    ensures !SecretPattern().Caught(pre, key, sep, v, rest) ==>
      RedactText(Pattern.Line(pre, key, sep, [c], rest)) != RedactText(Pattern.Line(pre, key, sep, [d], rest))
  {
    var p := SecretPattern();
    SecretPatternValid();
    SecretPatternStrict();
    if p.Caught(pre, key, sep, v, rest) {
      p.CaughtIsHidden(pre, w, key, sep, v, o, rest);
    } else {
      if p.Caught(pre, key, sep, [c], rest) {
        p.CaughtWhatever(pre, w, key, sep, [c], v, rest);
      }
      p.UncaughtIsLeft(pre, w, key, sep, c, d, rest);
    }
  }

  /** There is such a line: `token=password: ` and a value. */
  lemma ValueLeftHappens(c: char)
    requires IsValueChar(c)
    ensures !SecretPattern().Caught("token=", "password", ": ", [c], [])
  {
    var p := SecretPattern();
    var s := Pattern.Line("token=", "password", ": ", [c], []);
    SecretPatternValid();
    assert s == "token" + ("=" + ("password: " + [c]));
    TokenTakesKeyword(s, c);
    p.GroupsAreHead(s, "token", 1, 9);
    ScansOn(s, 6, p.Matcher());
  }

  lemma TokenTakesKeyword(s: string, c: char)
    requires s == "token" + ("=" + ("password: " + [c]))
    ensures "token" in Keywords() && SecretPattern().Groups(s, "token", 1, 9)
  {
    assert Keywords()[3] == "token";
    var t := "password: " + [c];
    assert forall i :: 0 <= i < 5 ==> s[i] == "token"[i];
    assert forall i :: 6 <= i < 17 ==> s[i] == t[i - 6];
    assert forall i :: 0 <= i < 9 ==> IsValueChar("password:"[i]) && t[i] == "password:"[i];
    assert s[15] == ' ';
  }

  // ---- Lines written out ----

  lemma SpellingFolds(key: string, w: string)
    requires w in ["password", "passwd", "secret", "token", "auth", "server", "endpoint"] && |key| == |w|
    requires forall i :: 0 <= i < |w| ==> key[i] == w[i] || key[i] as int == w[i] as int - 32
    ensures w in Keywords() && SecretPattern().StartsWith(key, w)
  {
    KeywordsAreWords();
    forall i | 0 <= i < |w|
      ensures FoldsTo(key[i], w[i])
    {
      assert IsLetter(w[i]);
    }
  }

  /** Behind any of the seven words, in any mixture of cases, and '=' or ':' and spaces,
      a value up to the next space, comma or quote becomes "[redacted]", wherever the
      first separator of a text belongs to such a word. */
  lemma KeywordRedacted(pre: string, w: string, key: string, sep: string, v: string, rest: string)
    requires w in ["password", "passwd", "secret", "token", "auth", "server", "endpoint"] && |key| == |w|
    requires forall i :: 0 <= i < |w| ==> key[i] == w[i] || key[i] as int == w[i] as int - 32
    requires forall i :: 0 <= i < |pre| ==> pre[i] != '=' && pre[i] != ':'
    requires sep != [] && (sep[0] == '=' || sep[0] == ':') && forall i :: 1 <= i < |sep| ==> IsSpace(sep[i])
    requires v != []
    requires forall i :: 0 <= i < |v| ==> !IsSpace(v[i]) && v[i] != ',' && v[i] != '"' && v[i] != '\''
    requires rest != [] ==> IsSpace(rest[0]) || rest[0] == ',' || rest[0] == '"' || rest[0] == '\''
    ensures RedactText(pre + (key + sep + v + rest)) == pre + (key + sep + "[redacted]" + RedactText(rest))
  {
    var p := SecretPattern();
    SecretPatternValid();
    SecretPatternStrict();
    SpellingFolds(key, w);
    p.ReplaceAt(w, key, sep, v, rest);
    var a := key + sep + v + rest;
    assert forall i :: 0 <= i < |key| ==> a[i] == key[i];
    assert a[|w|] == sep[0];
    p.FrontPasses(pre, w, a);
  }

  // The word stands at i, in any mixture of cases, with a separator behind it.
  ghost predicate SpelledAt(s: string, i: nat, w: string) {
    && i + |w| < |s| && (s[i + |w|] == '=' || s[i + |w|] == ':')
    && forall k :: 0 <= k < |w| ==> s[i + k] == w[k] || s[i + k] as int == w[k] as int - 32
  }

  ghost predicate WordAt(s: string, i: nat) {
    exists w <- ["password", "passwd", "secret", "token", "auth", "server", "endpoint"] :: SpelledAt(s, i, w)
  }

  lemma AsciiFolds(c: char, k: char)
    requires c < '\U{80}' && IsLetter(k) && FoldsTo(c, k)
    ensures c == k || c as int == k as int - 32
  {
  }

  lemma FoldedIsSpelled(s: string, i: nat, w: string)
    requires (forall k :: 0 <= k < |s| ==> s[k] < '\U{80}') && i <= |s| && Pattern.IsWord(w)
    requires SecretPattern().StartsWith(s[i..], w) && |w| < |s| - i && IsSeparator(s[i..][|w|])
    ensures SpelledAt(s, i, w)
  {
    var t := s[i..];
    assert t[|w|] == s[i + |w|];
    forall k | 0 <= k < |w|
      ensures s[i + k] == w[k] || s[i + k] as int == w[k] as int - 32
    {
      assert t[k] == s[i + k] && FoldsTo(t[k], w[k]);
      AsciiFolds(t[k], w[k]);
    }
  }

  lemma ListedWord(s: string, i: nat, w: string)
    requires w in Keywords() && SpelledAt(s, i, w)
    ensures WordAt(s, i)
  {
  }

  lemma KeyedIsWordAt(s: string, i: nat)
    requires (forall k :: 0 <= k < |s| ==> s[k] < '\U{80}') && SecretPattern().KeyedAt(s, i)
    ensures WordAt(s, i)
  {
    KeywordsAreWords();
    var w :| w in SecretPattern().words && SecretPattern().StartsWith(s[i..], w)
      && |w| < |s| - i && IsSeparator(s[i..][|w|]);
    FoldedIsSpelled(s, i, w);
    ListedWord(s, i, w);
  }

  /** An ASCII text in which none of the words has a separator behind it is left alone. */
  lemma OthersLeftAlone(s: string)
    requires (forall k :: 0 <= k < |s| ==> s[k] < '\U{80}') && forall i: nat :: !WordAt(s, i)
    ensures RedactText(s) == s
  {
    SecretPatternValid();
    forall i: nat
      ensures !SecretPattern().KeyedAt(s, i)
    {
      if SecretPattern().KeyedAt(s, i) {
        KeyedIsWordAt(s, i);
      }
    }
    SecretPattern().UnkeyedIsFixed(s);
  }

  // ---- Payloads ----

  // key.lower() is one of the sensitive words.
  predicate IsSensitive(key: string) {
    exists w <- SensitiveWords() :: LowersToWord(key, w)
  }

  function RedactPayload(j: Json): Json {
    match j
    case Obj(fields) =>
      Obj(seq(|fields|, i requires 0 <= i < |fields| =>
        Field(fields[i].key,
              if IsSensitive(fields[i].key) then Str(MaskText()) else RedactPayload(fields[i].value))))
    case Arr(items) =>
      Arr(seq(|items|, i requires 0 <= i < |items| => RedactPayload(items[i])))
    case Str(s) => Str(RedactText(s))
    case _ => j
  }

  lemma SensitiveIsNamed(key: string)
    requires IsAscii(key)
    ensures IsSensitive(key) <==> NamesSecret(key)
  {
    forall w <- SensitiveWords()
      ensures LowersToWord(key, w) <==> Cased(key, w)
    {
      CasedLowers(key, w);
    }
  }

  /** Of an object every key stays, and of its values exactly those under one of the six
      words, in any mixture of cases, become the mask as a whole. */
  lemma FieldRedacted(fields: seq<Field>, i: nat)
    requires i < |fields| && IsAscii(fields[i].key)
    ensures var r := RedactPayload(Obj(fields));
      && r.Obj? && |r.fields| == |fields| && r.fields[i].key == fields[i].key
      && r.fields[i].value ==
           if NamesSecret(fields[i].key) then Str("[redacted]") else RedactPayload(fields[i].value)
  {
    SensitiveIsNamed(fields[i].key);
  }

  // No sensitive key carries anything but the mask, and every string is masked.
  ghost predicate Clean(j: Json) {
    match j
    case Obj(fields) =>
      forall i :: 0 <= i < |fields| ==>
        if IsSensitive(fields[i].key) then fields[i].value == Str(MaskText()) else Clean(fields[i].value)
    case Arr(items) =>
      forall i :: 0 <= i < |items| ==> Clean(items[i])
    case Str(s) => SecretPattern().IsMasked(s)
    case _ => true
  }

  // Same keys in the same order, same list lengths, same other values; strings and
  // what stands under a sensitive key may differ.
  ghost predicate SameShape(j: Json, r: Json) {
    match j
    case Obj(fields) =>
      && r.Obj? && |r.fields| == |fields|
      && forall i :: 0 <= i < |fields| ==>
           && r.fields[i].key == fields[i].key
           && (IsSensitive(fields[i].key) || SameShape(fields[i].value, r.fields[i].value))
    case Arr(items) =>
      && r.Arr? && |r.items| == |items|
      && forall i :: 0 <= i < |items| ==> SameShape(items[i], r.items[i])
    case Str(s) => r.Str?
    case _ => r == j
  }

  lemma {:induction false} RedactedPayloadIsClean(j: Json)
    ensures Clean(RedactPayload(j)) && SameShape(j, RedactPayload(j))
  {
    match j
    case Obj(fields) =>
      forall i | 0 <= i < |fields|
        ensures Clean(RedactPayload(fields[i].value)) && SameShape(fields[i].value, RedactPayload(fields[i].value))
      {
        RedactedPayloadIsClean(fields[i].value);
      }
    case Arr(items) =>
      forall i | 0 <= i < |items|
        ensures Clean(RedactPayload(items[i])) && SameShape(items[i], RedactPayload(items[i]))
      {
        RedactedPayloadIsClean(items[i]);
      }
    case Str(s) => RedactedTextIsMasked(s);
    case _ =>
  }

  lemma {:induction false} CleanIsFixed(j: Json)
    requires Clean(j)
    ensures RedactPayload(j) == j
  {
    match j
    case Obj(fields) =>
      forall i | 0 <= i < |fields| && !IsSensitive(fields[i].key)
        ensures RedactPayload(fields[i].value) == fields[i].value
      {
        CleanIsFixed(fields[i].value);
      }
      assert RedactPayload(j).fields == fields;
    case Arr(items) =>
      forall i | 0 <= i < |items|
        ensures RedactPayload(items[i]) == items[i]
      {
        CleanIsFixed(items[i]);
      }
      assert RedactPayload(j).items == items;
    case Str(s) => FixedExactlyWhenMasked(s);
    case _ =>
  }

  /** Redacting a payload twice is redacting it once; payloads left alone are exactly
      the clean ones. */
  lemma RedactPayloadIdempotent(j: Json)
    ensures RedactPayload(RedactPayload(j)) == RedactPayload(j)
    ensures RedactPayload(j) == j <==> Clean(j)
  {
    RedactedPayloadIsClean(j);
    CleanIsFixed(RedactPayload(j));
    if Clean(j) {
      CleanIsFixed(j);
    }
  }
}
