/** Splitting and joining text at a separator character, and stripping its ends. */
module Strings {

  // A character more in front of the first part.
  function Prefixed(c: char, parts: seq<string>): (r: seq<string>)
    requires |parts| >= 1
    ensures |r| == |parts|
  {
    [[c] + parts[0]] + parts[1..]
  }

  lemma PrefixedConcat(c: char, xs: seq<string>, ys: seq<string>)
    requires |xs| >= 1
    ensures Prefixed(c, xs + ys) == Prefixed(c, xs) + ys
  {
    assert (xs + ys)[1..] == xs[1..] + ys;
  }

  function Split(s: string, sep: char): (parts: seq<string>)
    ensures |parts| >= 1
  {
    if s == [] then [[]]
    else if s[0] == sep then [[]] + Split(s[1..], sep)
    else Prefixed(s[0], Split(s[1..], sep))
  }

  function Join(parts: seq<string>, sep: char): string {
    if parts == [] then []
    else if |parts| == 1 then parts[0]
    else parts[0] + [sep] + Join(parts[1..], sep)
  }

  lemma JoinPrefixed(c: char, parts: seq<string>, sep: char)
    requires |parts| >= 1
    ensures Join(Prefixed(c, parts), sep) == [c] + Join(parts, sep)
  {
    assert Prefixed(c, parts)[1..] == parts[1..];
  }

  lemma {:induction false} JoinSplit(s: string, sep: char)
    ensures Join(Split(s, sep), sep) == s
  {
    if s != [] {
      var rest := Split(s[1..], sep);
      JoinSplit(s[1..], sep);
      if s[0] == sep {
        assert ([[]] + rest)[1..] == rest;
      } else {
        JoinPrefixed(s[0], rest, sep);
      }
    }
  }

  lemma SplitCons(c: char, t: string, sep: char)
    ensures Split([c] + t, sep) == if c == sep then [[]] + Split(t, sep) else Prefixed(c, Split(t, sep))
  {
    assert ([c] + t)[1..] == t;
  }

  lemma ShiftConcat(c: char, t: string, m: string, b: string)
    ensures [c] + t + m + b == [c] + (t + m + b)
  {
  }

  lemma SplitConsConcat(c: char, t: string, rest: string, b: string, sep: char)
    requires Split(rest, sep) == Split(t, sep) + Split(b, sep)
    ensures Split([c] + rest, sep) == Split([c] + t, sep) + Split(b, sep)
  {
    var xs, ys := Split(t, sep), Split(b, sep);
    SplitCons(c, t, sep);
    SplitCons(c, rest, sep);
    if c == sep {
      ShiftParts(xs, ys);
    } else {
      PrefixedConcat(c, xs, ys);
    }
  }

  lemma ShiftParts(xs: seq<string>, ys: seq<string>)
    ensures [[]] + (xs + ys) == [[]] + xs + ys
  {
  }

  lemma {:induction false} SplitConcat(a: string, b: string, sep: char)
    ensures Split(a + [sep] + b, sep) == Split(a, sep) + Split(b, sep)
  {
    if a == [] {
      assert a + [sep] + b == [sep] + b;
      SplitCons(sep, b, sep);
    } else {
      var c, t := a[0], a[1..];
      SplitConcat(t, b, sep);
      assert a == [c] + t;
      ShiftConcat(c, t, [sep], b);
      SplitConsConcat(c, t, t + [sep] + b, b, sep);
    }
  }

  lemma {:induction false} SplitAlone(a: string, sep: char)
    requires sep !in a
    ensures Split(a, sep) == [a]
  {
    if a != [] {
      assert a[0] in a && sep !in a[1..];
      SplitAlone(a[1..], sep);
      assert a == [a[0]] + a[1..];
    }
  }

  // A part without the separator splits off in front.
  lemma SplitFront(a: string, b: string, sep: char)
    requires sep !in a
    ensures Split(a + [sep] + b, sep) == [a] + Split(b, sep)
  {
    SplitConcat(a, b, sep);
    SplitAlone(a, sep);
  }

  lemma {:induction false} JoinConcat(xs: seq<string>, ys: seq<string>, sep: char)
    requires xs != [] && ys != []
    ensures Join(xs + ys, sep) == Join(xs, sep) + [sep] + Join(ys, sep)
  {
    assert (xs + ys)[1..] == xs[1..] + ys;
    if |xs| > 1 {
      JoinConcat(xs[1..], ys, sep);
    }
  }

  // ---- Stripping ----

  function StripStart(s: string, p: char -> bool): (r: string)
    ensures |r| <= |s| && r == s[|s| - |r|..]
    ensures r != [] ==> !p(r[0])
  {
    if s != [] && p(s[0]) then StripStart(s[1..], p) else s
  }

  function StripEnd(s: string, p: char -> bool): (r: string)
    ensures |r| <= |s| && r == s[..|r|]
    ensures r != [] ==> !p(r[|r| - 1])
    ensures s != [] && !p(s[0]) ==> r != []
  {
    if s != [] && p(s[|s| - 1]) then StripEnd(s[..|s| - 1], p) else s
  }

  function Strip(s: string, p: char -> bool): string {
    StripEnd(StripStart(s, p), p)
  }

  // Nothing to strip where the ends are kept.
  lemma StripFixes(s: string, p: char -> bool)
    requires s != [] ==> !p(s[0]) && !p(s[|s| - 1])
    ensures Strip(s, p) == s && StripStart(s, p) == s
  {
  }

  lemma StripAgain(s: string, p: char -> bool)
    ensures Strip(Strip(s, p), p) == Strip(s, p)
    ensures StripStart(StripStart(s, p), p) == StripStart(s, p)
  {
    var left := StripStart(s, p);
    var r := StripEnd(left, p);
    assert r != [] ==> r[0] == left[0];
  }

  lemma StripFront(s: string, p: char -> bool)
    requires s != [] ==> !p(s[0])
    ensures Strip(s, p) == StripEnd(s, p) && StripEnd(s, p) <= s
    ensures s != [] ==> StripEnd(s, p) != [] && StripEnd(s, p)[0] == s[0]
  {
  }

  lemma {:induction false} StripStartRun(run: string, s: string, p: char -> bool)
    requires (forall i :: 0 <= i < |run| ==> p(run[i])) && (s != [] ==> !p(s[0]))
    ensures StripStart(run + s, p) == s
  {
    if run == [] {
      assert run + s == s;
    } else {
      assert (run + s)[1..] == run[1..] + s;
      StripStartRun(run[1..], s, p);
    }
  }

  lemma {:induction false} StripEndRun(s: string, run: string, p: char -> bool)
    requires (forall i :: 0 <= i < |run| ==> p(run[i])) && (s != [] ==> !p(s[|s| - 1]))
    ensures StripEnd(s + run, p) == s
  {
    if run == [] {
      assert s + run == s;
    } else {
      var n := |run| - 1;
      assert (s + run)[..|s| + n] == s + run[..n];
      StripEndRun(s, run[..n], p);
    }
  }

  /** Stripping takes the runs at both ends away, and nothing else. */
  lemma StripRuns(front: string, s: string, back: string, p: char -> bool)
    requires s != [] && !p(s[0]) && !p(s[|s| - 1])
    requires (forall i :: 0 <= i < |front| ==> p(front[i])) && (forall i :: 0 <= i < |back| ==> p(back[i]))
    ensures Strip(front + s + back, p) == s
  {
    assert front + s + back == front + (s + back);
    StripStartRun(front, s + back, p);
    StripEndRun(s, back, p);
  }
}
