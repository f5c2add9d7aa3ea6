/** Leftmost, non-overlapping substitution of the value group of every match by a mask,
    for any matcher. */
module Substitution {

  // Lengths of the three groups of a match at the start of a text.
  datatype Match = NoMatch | Match(key: nat, sep: nat, value: nat)

  lemma Slices(a: string, b: string, c: string)
    ensures (a + b + c)[..|a|] == a
    ensures (a + b + c)[|a|..|a| + |b|] == b
    ensures (a + b + c)[|a| + |b|..] == c
  {
  }

  predicate Fits(m: Match, s: string) {
    m.Match? && 0 < m.value && m.key + m.sep + m.value <= |s|
  }

  function End(m: Match): nat
    requires m.Match?
  {
    m.key + m.sep + m.value
  }

  function Substitute(s: string, head: string -> Match, mask: string): string
    decreases |s|
  {
    if s == [] then []
    else
      var m := head(s);
      if Fits(m, s) then s[..m.key + m.sep] + mask + Substitute(s[End(m)..], head, mask)
      else [s[0]] + Substitute(s[1..], head, mask)
  }

  // Every leftmost match already carries the mask.
  ghost predicate Masked(s: string, head: string -> Match, mask: string)
    decreases |s|
  {
    s != [] ==>
      var m := head(s);
      if Fits(m, s) then s[m.key + m.sep..End(m)] == mask && Masked(s[End(m)..], head, mask)
      else Masked(s[1..], head, mask)
  }

  lemma PastNone(s: string, head: string -> Match, mask: string)
    requires s != [] && !Fits(head(s), s)
    ensures Masked(s, head, mask) <==> Masked(s[1..], head, mask)
    ensures Substitute(s, head, mask) == [s[0]] + Substitute(s[1..], head, mask)
    ensures [s[0]] + s[1..] == s
  {
  }

  lemma MaskedPast(s: string, head: string -> Match, mask: string, n: nat, e: nat)
    requires Fits(head(s), s) && n == head(s).key + head(s).sep && e == End(head(s))
    ensures Masked(s, head, mask) <==> s[n..e] == mask && Masked(s[e..], head, mask)
  {
  }

  lemma SubstitutedPast(s: string, head: string -> Match, mask: string, n: nat, e: nat)
    requires Fits(head(s), s) && n == head(s).key + head(s).sep && e == End(head(s))
    ensures Substitute(s, head, mask) == s[..n] + mask + Substitute(s[e..], head, mask)
  {
  }

  lemma PastMatch(s: string, head: string -> Match, mask: string, n: nat, e: nat)
    requires Fits(head(s), s) && n == head(s).key + head(s).sep && e == End(head(s))
    ensures Masked(s, head, mask) <==> s[n..e] == mask && Masked(s[e..], head, mask)
    ensures Substitute(s, head, mask) == s[..n] + mask + Substitute(s[e..], head, mask)
    ensures s[..n] + s[n..e] + s[e..] == s
  {
    MaskedPast(s, head, mask, n, e);
    SubstitutedPast(s, head, mask, n, e);
  }

  /** Masked texts are left alone. */
  lemma {:induction false} MaskedIsFixed(s: string, head: string -> Match, mask: string)
    requires Masked(s, head, mask)
    ensures Substitute(s, head, mask) == s
    decreases |s|
  {
    if s != [] {
      var m := head(s);
      if Fits(m, s) {
        PastMatch(s, head, mask, m.key + m.sep, End(m));
        MaskedIsFixed(s[End(m)..], head, mask);
      } else {
        PastNone(s, head, mask);
        MaskedIsFixed(s[1..], head, mask);
      }
    }
  }

  // The leftmost scan comes to position n without a match that runs past it.
  ghost predicate Scans(s: string, n: nat, head: string -> Match)
    decreases |s|
  {
    n == 0
    || (s != []
        && var m := head(s);
           if Fits(m, s) then End(m) <= n && Scans(s[End(m)..], n - End(m), head)
           else Scans(s[1..], n - 1, head))
  }

  // Up to position n the matcher cannot tell the two texts apart.
  ghost predicate SameHead(s: string, t: string, n: nat, head: string -> Match) {
    && n <= |s| && n <= |t| && s[..n] == t[..n]
    && (if Fits(head(s), s) then End(head(s)) <= n ==> head(t) == head(s) else !Fits(head(t), t))
  }

  lemma TailBehind(pre: string, a: string, e: nat)
    requires e <= |pre|
    ensures (pre + a)[e..] == pre[e..] + a && (pre + a)[..e] == pre[..e]
  {
  }

  lemma FrontSame(x: string, y: string, f: string)
    ensures f + x == f + y <==> x == y
  {
    assert (f + x)[|f|..] == x && (f + y)[|f|..] == y;
  }

  // How far one step of the scan goes.
  function StepLength(s: string, head: string -> Match): (e: nat)
    ensures s != [] ==> 1 <= e <= |s|
  {
    if Fits(head(s), s) then End(head(s)) else 1
  }

  lemma ScansOn(s: string, n: nat, head: string -> Match)
    requires n > 0
    ensures Scans(s, n, head) <==>
      s != [] && StepLength(s, head) <= n && Scans(s[StepLength(s, head)..], n - StepLength(s, head), head)
  {
  }

  lemma MatchInBoth(s: string, t: string, head: string -> Match, mask: string, q: nat, e: nat)
    requires Fits(head(s), s) && head(t) == head(s) && q == head(s).key + head(s).sep && e == End(head(s)) <= |t|
    requires s[..q] == t[..q]
    ensures Substitute(s, head, mask) == Substitute(t, head, mask)
       <==> Substitute(s[e..], head, mask) == Substitute(t[e..], head, mask)
  {
    PastMatch(s, head, mask, q, e);
    PastMatch(t, head, mask, q, e);
    FrontSame(Substitute(s[e..], head, mask), Substitute(t[e..], head, mask), s[..q] + mask);
  }

  lemma NoneInBoth(s: string, t: string, head: string -> Match, mask: string)
    requires s != [] && t != [] && s[0] == t[0] && !Fits(head(s), s) && !Fits(head(t), t)
    ensures Substitute(s, head, mask) == Substitute(t, head, mask)
       <==> Substitute(s[1..], head, mask) == Substitute(t[1..], head, mask)
  {
    PastNone(s, head, mask);
    PastNone(t, head, mask);
    FrontSame(Substitute(s[1..], head, mask), Substitute(t[1..], head, mask), [s[0]]);
  }

  lemma SameStep(s: string, t: string, n: nat, head: string -> Match, mask: string, e: nat)
    requires 0 < n && SameHead(s, t, n, head) && e == StepLength(s, head) <= n
    ensures StepLength(t, head) == e
    ensures Substitute(s, head, mask) == Substitute(t, head, mask)
       <==> Substitute(s[e..], head, mask) == Substitute(t[e..], head, mask)
  {
    if Fits(head(s), s) {
      var q := head(s).key + head(s).sep;
      assert s[..q] == s[..n][..q] == t[..n][..q] == t[..q];
      MatchInBoth(s, t, head, mask, q, e);
    } else {
      assert s[0] == s[..n][0] == t[..n][0] == t[0];
      NoneInBoth(s, t, head, mask);
    }
  }

  function Behind(pre: string, i: nat, a: string): string
    requires i <= |pre|
  {
    pre[i..] + a
  }

  // From position i of `pre` on the matcher cannot tell the two tails apart before they begin.
  ghost predicate Alike(pre: string, i: nat, a: string, b: string, head: string -> Match)
    requires i <= |pre|
  {
    SameHead(Behind(pre, i, a), Behind(pre, i, b), |pre| - i, head)
  }

  lemma BehindFrom(pre: string, i: nat, a: string, e: nat)
    requires i + e <= |pre|
    ensures Behind(pre, i, a)[e..] == Behind(pre, i + e, a)
  {
  }

  lemma ScansBehind(pre: string, i: nat, a: string, head: string -> Match, e: nat)
    requires i < |pre| && e == StepLength(Behind(pre, i, a), head)
    ensures Scans(Behind(pre, i, a), |pre| - i, head) <==>
      e <= |pre| - i && Scans(Behind(pre, i + e, a), |pre| - (i + e), head)
  {
    ScansOn(Behind(pre, i, a), |pre| - i, head);
    if e <= |pre| - i {
      BehindFrom(pre, i, a, e);
    }
  }

  lemma AlikeStep(pre: string, i: nat, a: string, b: string, head: string -> Match, mask: string, e: nat)
    requires i < |pre| && Alike(pre, i, a, b, head)
    requires Scans(Behind(pre, i, a), |pre| - i, head) && e == StepLength(Behind(pre, i, a), head)
    ensures 1 <= e <= |pre| - i && Scans(Behind(pre, i + e, a), |pre| - (i + e), head)
    ensures Scans(Behind(pre, i + e, b), |pre| - (i + e), head) ==> Scans(Behind(pre, i, b), |pre| - i, head)
    ensures Substitute(Behind(pre, i, a), head, mask) == Substitute(Behind(pre, i, b), head, mask)
       <==> Substitute(Behind(pre, i + e, a), head, mask) == Substitute(Behind(pre, i + e, b), head, mask)
  {
    ScansBehind(pre, i, a, head, e);
    SameStep(Behind(pre, i, a), Behind(pre, i, b), |pre| - i, head, mask, e);
    ScansBehind(pre, i, b, head, e);
    BehindFrom(pre, i, a, e);
    BehindFrom(pre, i, b, e);
  }

  /** If the scan of one of two texts comes to where they begin to differ, the other's
      does too, and what stands in front makes no difference. */
  lemma {:induction false} ScannedAlike(pre: string, i: nat, a: string, b: string, head: string -> Match, mask: string)
    requires i <= |pre| && Scans(Behind(pre, i, a), |pre| - i, head)
    requires forall j :: i <= j < |pre| ==> Alike(pre, j, a, b, head)
    ensures Scans(Behind(pre, i, b), |pre| - i, head)
    ensures Substitute(Behind(pre, i, a), head, mask) == Substitute(Behind(pre, i, b), head, mask)
       <==> Substitute(a, head, mask) == Substitute(b, head, mask)
    decreases |pre| - i
  {
    if i == |pre| {
      assert Behind(pre, i, a) == a && Behind(pre, i, b) == b;
    } else {
      var e := StepLength(Behind(pre, i, a), head);
      assert Alike(pre, i, a, b, head);
      AlikeStep(pre, i, a, b, head, mask, e);
      ScannedAlike(pre, i + e, a, b, head, mask);
    }
  }

  // Where nothing matches, nothing changes.
  lemma {:induction false} NonesPass(pre: string, i: nat, a: string, head: string -> Match, mask: string)
    requires i <= |pre|
    requires forall j :: i <= j < |pre| ==> !Fits(head(Behind(pre, j, a)), Behind(pre, j, a))
    ensures Substitute(Behind(pre, i, a), head, mask) == pre[i..] + Substitute(a, head, mask)
    decreases |pre| - i
  {
    if i == |pre| {
      assert Behind(pre, i, a) == a;
    } else {
      var s := Behind(pre, i, a);
      assert !Fits(head(s), s);
      PastNone(s, head, mask);
      BehindFrom(pre, i, a, 1);
      NonesPass(pre, i + 1, a, head, mask);
      assert pre[i..] == [s[0]] + pre[i + 1..];
    }
  }

  // Where a scan that does not come to the end of `pre` is carried past it.
  lemma {:induction false} CarriedPast(pre: string, i: nat, a: string, head: string -> Match) returns (j: nat)
    requires i <= |pre| && !Scans(pre[i..] + a, |pre| - i, head)
    ensures i <= j < |pre| && Scans(pre[i..] + a, j - i, head)
    ensures var s := pre[j..] + a; Fits(head(s), s) && End(head(s)) > |pre| - j
    decreases |pre| - i
  {
    var s, n := pre[i..] + a, |pre| - i;
    var e := StepLength(s, head);
    if e > n {
      j := i;
    } else {
      TailBehind(pre[i..], a, e);
      assert pre[i..][e..] == pre[i + e..];
      j := CarriedPast(pre, i + e, a, head);
    }
  }
}
