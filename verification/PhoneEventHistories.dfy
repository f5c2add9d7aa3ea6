/** What unlocked writers keep of an event's identity, of the order of arrival, and of
    the connections once known: each with the exact condition on the versions that the
    writes are based on. */
module PhoneEventHistories {
  import opened PhoneEvents
  import opened PhoneEventRuns
  import opened PhoneEventWriters

  // ---- What a write does to one event ----

  // The write merges its plan into event i of its base.
  predicate Merges(events: seq<Event>, w: Write, i: nat) {
    w.Observe? && i < |events| && i == MergeIndex(events, w.plan)
  }

  // The write appends a new event.
  predicate Appends(events: seq<Event>, w: Write) {
    w.Observe? && MergeIndex(events, w.plan) == |events|
  }

  lemma UntrimmedEvent(events: seq<Event>, w: Write, i: nat)
    requires i < |events|
    ensures var fs, b := Untrimmed(events, w), events[i];
      && |events| <= |fs|
      && fs[i].id == b.id && fs[i].kind == b.kind && fs[i].iface == b.iface && fs[i].driver == b.driver
      && fs[i].observed == b.observed + (if Merges(events, w, i) then 1 else 0)
      && fs[i].connection ==
           if Merges(events, w, i) && b.connection == "" then w.plan.connection else b.connection
  {
  }

  lemma UntrimmedAppended(events: seq<Event>, w: Write)
    ensures Untrimmed(events, w) ==
      if Appends(events, w) then events + [Fresh(w.plan, w.action, w.probe)] else Untrimmed(events, w)
    ensures |Untrimmed(events, w)| == |events| + if Appends(events, w) then 1 else 0
  {
  }

  /** Whatever version a write is based on, an event it keeps has its base's identity,
      one observation more if the write merged into it, and its base's connection unless
      that was unknown and the write knew it. */
  lemma WrittenEvent(events: seq<Event>, w: Write, i: nat)
    requires Dropped(events, w) <= i < |events|
    ensures var e, b := Rewrite(events, w)[i - Dropped(events, w)], events[i];
      && e.id == b.id && e.kind == b.kind && e.iface == b.iface && e.driver == b.driver
      && e.observed == b.observed + (if Merges(events, w, i) then 1 else 0)
      && e.connection ==
           if Merges(events, w, i) && b.connection == "" then w.plan.connection else b.connection
  {
    UntrimmedEvent(events, w, i);
  }

  // ---- Identity survives ----

  // Write j appended the event that e is a version of.
  ghost predicate Originates(versions: seq<seq<Event>>, writes: seq<(nat, Write)>, j: nat, e: Event)
    requires |versions| == |writes| + 1 && j < |writes|
  {
    var (r, w) := writes[j];
    && r <= j && Appends(versions[r], w) && e.kind.PhoneTether?
    && e.id == Fresh(w.plan, w.action, w.probe).id && e.iface == w.plan.iface && e.driver == w.plan.driver
  }

  ghost predicate HasOrigin(versions: seq<seq<Event>>, writes: seq<(nat, Write)>, n: nat, e: Event)
    requires |versions| == |writes| + 1 && n <= |writes|
  {
    exists j :: 0 <= j < n && Originates(versions, writes, j, e)
  }

  lemma SameOrigin(versions: seq<seq<Event>>, writes: seq<(nat, Write)>, n: nat, m: nat, e: Event, f: Event)
    requires |versions| == |writes| + 1 && n <= m <= |writes| && HasOrigin(versions, writes, n, e)
    requires f.id == e.id && f.kind == e.kind && f.iface == e.iface && f.driver == e.driver
    ensures HasOrigin(versions, writes, m, f)
  {
    var j :| 0 <= j < n && Originates(versions, writes, j, e);
    assert Originates(versions, writes, j, f);
  }

  /** However the writers interleave, every event of every version has the id, interface
      and driver that some write appended it with. */
  lemma {:induction false} EveryEventHasOrigin(versions: seq<seq<Event>>, writes: seq<(nat, Write)>, n: nat, k: nat)
    requires History(versions, writes) && n < |versions| && k < |versions[n]|
    ensures HasOrigin(versions, writes, n, versions[n][k])
  {
    if n > 0 {
      assert Written(versions, writes, n - 1);
      var (r, w) := writes[n - 1];
      var i := k + Dropped(versions[r], w);
      UntrimmedAppended(versions[r], w);
      if i < |versions[r]| {
        EveryEventHasOrigin(versions, writes, r, i);
        WrittenEvent(versions[r], w, i);
        SameOrigin(versions, writes, r, n, versions[r][i], versions[n][k]);
      } else {
        assert Originates(versions, writes, n - 1, versions[n][k]);
      }
    }
  }

  // ---- The order of arrival ----

  function Ids(events: seq<Event>): (ids: seq<string>)
    ensures |ids| == |events|
  {
    seq(|events|, i requires 0 <= i < |events| => events[i].id)
  }

  // The identifiers that a write appends.
  function NewIds(events: seq<Event>, w: Write): (ids: seq<string>)
    ensures |ids| <= 1
  {
    if Appends(events, w) then [Fresh(w.plan, w.action, w.probe).id] else []
  }

  // What a write leaves of a file when it appends n entries.
  function Kept<T>(entries: seq<T>, n: nat): seq<T>
    requires n <= LOG_LIMIT
  {
    if |entries| + n > LOG_LIMIT then entries[|entries| + n - LOG_LIMIT..] else entries
  }

  lemma TrimAppended<T>(entries: seq<T>, added: seq<T>)
    requires |added| <= LOG_LIMIT
    ensures Trim(entries + added) == Kept(entries, |added|) + added
  {
  }

  lemma TrimTrimmed<T>(entries: seq<T>, n: nat)
    requires n <= LOG_LIMIT
    ensures Kept(Trim(entries), n) == Kept(entries, n)
  {
  }

  lemma UntrimmedIds(events: seq<Event>, w: Write)
    ensures Ids(Untrimmed(events, w)) == Ids(events) + NewIds(events, w)
  {
    var fs := Untrimmed(events, w);
    UntrimmedAppended(events, w);
    forall i | 0 <= i < |fs|
      ensures Ids(fs)[i] == (Ids(events) + NewIds(events, w))[i]
    {
      if i < |events| {
        UntrimmedEvent(events, w, i);
      }
    }
  }

  lemma TrimIds(events: seq<Event>)
    ensures Ids(Trim(events)) == Trim(Ids(events))
  {
  }

  lemma RewriteIds(base: seq<Event>, w: Write)
    ensures Ids(Rewrite(base, w)) == Kept(Ids(base), |NewIds(base, w)|) + NewIds(base, w)
  {
    UntrimmedIds(base, w);
    TrimIds(Untrimmed(base, w));
    TrimAppended(Ids(base), NewIds(base, w));
  }

  lemma LatestIds(events: seq<Event>, log: seq<string>)
    ensures Latest(events, log) <==> Ids(events) == Trim(log)
  {
    if Ids(events) == Trim(log) {
      forall i | 0 <= i < |events|
        ensures events[i].id == log[|log| - |events| + i]
      {
        assert Ids(events)[i] == Trim(log)[i];
      }
    }
  }

  lemma SameEnd<T>(s: seq<T>, t: seq<T>, end: seq<T>)
    ensures s + end == t + end <==> s == t
  {
    if s + end == t + end {
      assert |s| == |t|;
      assert s == (s + end)[..|s|] && t == (t + end)[..|t|];
    }
  }

  /** While the file holds the latest events, a write leaves it so exactly when what it
      keeps of the identifiers of its base is what it would keep of those of the file. */
  lemma LatestExactlyWhen(base: seq<Event>, w: Write, file: seq<Event>, log: seq<string>)
    requires Latest(file, log)
    ensures Latest(Rewrite(base, w), log + NewIds(base, w)) <==>
      Kept(Ids(base), |NewIds(base, w)|) == Kept(Ids(file), |NewIds(base, w)|)
  {
    var added := NewIds(base, w);
    RewriteIds(base, w);
    LatestIds(file, log);
    LatestIds(Rewrite(base, w), log + added);
    TrimAppended(log, added);
    TrimTrimmed(log, |added|);
    SameEnd(Kept(Ids(base), |added|), Kept(Ids(file), |added|), added);
  }

  // The identifiers appended by the first n writes.
  function Arrivals(versions: seq<seq<Event>>, writes: seq<(nat, Write)>, n: nat): seq<string>
    requires |versions| == |writes| + 1 && n <= |writes|
  {
    if n == 0 || writes[n - 1].0 >= n then []
    else Arrivals(versions, writes, n - 1) + NewIds(versions[writes[n - 1].0], writes[n - 1].1)
  }

  ghost predicate LatestAt(versions: seq<seq<Event>>, writes: seq<(nat, Write)>, n: nat)
    requires |versions| == |writes| + 1 && n <= |writes|
  {
    Latest(versions[n], Arrivals(versions, writes, n))
  }

  // Write j keeps the same identifiers of its base as it would of the file it replaces.
  predicate SameIds(versions: seq<seq<Event>>, writes: seq<(nat, Write)>, j: nat)
    requires |versions| == |writes| + 1 && j < |writes|
  {
    var (r, w) := writes[j];
    && r <= j
    && var n := |NewIds(versions[r], w)|;
       Kept(Ids(versions[r]), n) == Kept(Ids(versions[j]), n)
  }

  lemma StepLatest(versions: seq<seq<Event>>, writes: seq<(nat, Write)>, j: nat)
    requires History(versions, writes) && j < |writes| && LatestAt(versions, writes, j)
    ensures LatestAt(versions, writes, j + 1) <==> SameIds(versions, writes, j)
  {
    assert Written(versions, writes, j);
    LatestExactlyWhen(versions[writes[j].0], writes[j].1, versions[j], Arrivals(versions, writes, j));
  }

  /** The file holds the latest events in the order of their arrival, in every version up
      to m, exactly when each write up to m keeps of its base what it would keep of the
      file that it replaces. Writes based on the latest version do. */
  lemma {:induction false} AllLatestExactlyWhen(versions: seq<seq<Event>>, writes: seq<(nat, Write)>, m: nat)
    requires History(versions, writes) && m <= |writes|
    ensures (forall n :: 0 <= n <= m ==> LatestAt(versions, writes, n)) <==>
            (forall j :: 0 <= j < m ==> SameIds(versions, writes, j))
  {
    if m == 0 {
      assert LatestAt(versions, writes, 0);
    } else {
      AllLatestExactlyWhen(versions, writes, m - 1);
      if forall n :: 0 <= n <= m - 1 ==> LatestAt(versions, writes, n) {
        StepLatest(versions, writes, m - 1);
      }
    }
  }

  lemma {:induction false} ArrivalsExtend(
      versions: seq<seq<Event>>, writes: seq<(nat, Write)>, next: seq<Event>, write: (nat, Write), n: nat)
    requires History(versions, writes) && n <= |writes|
    ensures Arrivals(versions + [next], writes + [write], n) == Arrivals(versions, writes, n)
  {
    if n > 0 {
      assert Written(versions, writes, n - 1);
      ArrivalsExtend(versions, writes, next, write, n - 1);
    }
  }

  lemma ArrivalsStep(versions: seq<seq<Event>>, writes: seq<(nat, Write)>, n: nat, r: nat, w: Write)
    requires |versions| == |writes| + 1 && n < |writes| && writes[n] == (r, w) && r <= n
    ensures Arrivals(versions, writes, n + 1) == Arrivals(versions, writes, n) + NewIds(versions[r], w)
  {
  }

  // One more write: whether the file is then still the latest.
  lemma ExtendedLatest(
      versions: seq<seq<Event>>, writes: seq<(nat, Write)>, r: nat, w: Write, next: seq<Event>,
      vs: seq<seq<Event>>, ws: seq<(nat, Write)>)
    requires History(versions, writes) && r < |versions| && next == Rewrite(versions[r], w)
    requires vs == versions + [next] && ws == writes + [(r, w)]
    ensures History(vs, ws)
    ensures LatestAt(vs, ws, |ws|) <==> Latest(next, Arrivals(versions, writes, |writes|) + NewIds(versions[r], w))
  {
    HistoryExtends(versions, writes, r, w, next);
    ArrivalsExtend(versions, writes, next, (r, w), |writes|);
    ArrivalsStep(vs, ws, |writes|, r, w);
  }

  lemma OnceFromLast(
      versions: seq<seq<Event>>, writes: seq<(nat, Write)>, last: seq<Event>, first: Write,
      vs: seq<seq<Event>>, ws: seq<(nat, Write)>)
    requires History(versions, writes) && last == versions[|writes|]
    requires vs == versions + [Rewrite(last, first)] && ws == writes + [(|writes|, first)]
    ensures vs[|writes|] == last
    ensures Arrivals(vs, ws, |ws|) == Arrivals(versions, writes, |writes|) + NewIds(last, first)
  {
    ArrivalsExtend(versions, writes, Rewrite(last, first), (|writes|, first), |writes|);
    ArrivalsStep(vs, ws, |writes|, |writes|, first);
  }

  lemma SecondLosesFirst(
      last: seq<Event>, first: Write, second: Write, log: seq<string>, added: seq<string>, two: seq<Event>)
    requires Latest(last, log) && |last| < LOG_LIMIT - 1
    requires Appends(last, first) && Appends(last, second)
    requires added == log + NewIds(last, first) && two == Rewrite(last, second)
    ensures Ids(two) == Ids(last) + NewIds(last, second)
    ensures !Latest(two, added + NewIds(last, second))
  {
    RewriteIds(last, second);
  }

  /** Any history can go on so that the condition fails: of two observations that both
      append to the last version, the second write loses the event of the first. */
  lemma StaleAppendLosesEvent(
      versions: seq<seq<Event>>, writes: seq<(nat, Write)>, first: Write, second: Write, last: seq<Event>,
      vs: seq<seq<Event>>, ws: seq<(nat, Write)>, two: seq<Event>, after: seq<seq<Event>>, done: seq<(nat, Write)>)
    requires History(versions, writes) && last == versions[|writes|]
    requires LatestAt(versions, writes, |writes|) && |last| < LOG_LIMIT - 1
    requires Appends(last, first) && Appends(last, second)
    requires vs == versions + [Rewrite(last, first)] && ws == writes + [(|writes|, first)]
    requires two == Rewrite(last, second) && after == vs + [two] && done == ws + [(|writes|, second)]
    ensures History(vs, ws) && LatestAt(vs, ws, |ws|)
    ensures History(after, done) && !LatestAt(after, done, |done|)
    ensures Ids(two) == Ids(last) + NewIds(last, second)
  {
    var log := Arrivals(versions, writes, |writes|);
    LatestExactlyWhen(last, first, last, log);
    ExtendedLatest(versions, writes, |writes|, first, Rewrite(last, first), vs, ws);
    ExtendedLatest(vs, ws, |writes|, second, two, after, done);
    OnceFromLast(versions, writes, last, first, vs, ws);
    SecondLosesFirst(last, first, second, log, Arrivals(vs, ws, |ws|), two);
  }

  // ---- Connections ----

  ghost predicate Bound(events: seq<Event>, id: string, connection: string) {
    exists i :: 0 <= i < |events| && events[i].id == id && events[i].connection == connection
  }

  // Event i of the base is bound to the connection, or unbound and the write binds it.
  predicate Binds(events: seq<Event>, w: Write, i: nat, connection: string)
    requires i < |events|
  {
    || events[i].connection == connection
    || (events[i].connection == "" && Merges(events, w, i) && w.plan.connection == connection)
  }

  // The write takes the connection over from its base, fills it in, or appends an event with it.
  ghost predicate TakesOver(events: seq<Event>, w: Write, id: string, connection: string) {
    || (exists i :: Dropped(events, w) <= i < |events| && events[i].id == id && Binds(events, w, i, connection))
    || (Appends(events, w) && Fresh(w.plan, w.action, w.probe).id == id && w.plan.connection == connection)
  }

  lemma BoundBy(events: seq<Event>, i: nat)
    requires i < |events|
    ensures Bound(events, events[i].id, events[i].connection)
  {
  }

  lemma TakenBy(events: seq<Event>, w: Write, i: nat, connection: string)
    requires Dropped(events, w) <= i < |events| && Binds(events, w, i, connection)
    ensures TakesOver(events, w, events[i].id, connection)
  {
  }

  lemma BoundTaken(events: seq<Event>, w: Write, k: nat)
    requires k < |Rewrite(events, w)| && Rewrite(events, w)[k].connection != ""
    ensures TakesOver(events, w, Rewrite(events, w)[k].id, Rewrite(events, w)[k].connection)
  {
    var i := k + Dropped(events, w);
    UntrimmedAppended(events, w);
    if i < |events| {
      WrittenEvent(events, w, i);
      TakenBy(events, w, i, Rewrite(events, w)[k].connection);
    }
  }

  lemma TakenBound(events: seq<Event>, w: Write, i: nat, connection: string)
    requires Dropped(events, w) <= i < |events| && Binds(events, w, i, connection) && connection != ""
    ensures Bound(Rewrite(events, w), events[i].id, connection)
  {
    WrittenEvent(events, w, i);
    BoundBy(Rewrite(events, w), i - Dropped(events, w));
  }

  lemma AppendedBound(events: seq<Event>, w: Write)
    requires Appends(events, w)
    ensures Bound(Rewrite(events, w), Fresh(w.plan, w.action, w.probe).id, w.plan.connection)
  {
    UntrimmedAppended(events, w);
    var f, fs := Fresh(w.plan, w.action, w.probe), Rewrite(events, w);
    assert fs[|fs| - 1] == f;
    BoundBy(fs, |fs| - 1);
  }

  lemma RewriteBound(events: seq<Event>, w: Write, id: string, connection: string)
    requires connection != ""
    ensures Bound(Rewrite(events, w), id, connection) <==> TakesOver(events, w, id, connection)
  {
    if Bound(Rewrite(events, w), id, connection) {
      var fs := Rewrite(events, w);
      var k :| 0 <= k < |fs| && fs[k].id == id && fs[k].connection == connection;
      BoundTaken(events, w, k);
    }
    if TakesOver(events, w, id, connection) {
      if i :| Dropped(events, w) <= i < |events| && events[i].id == id && Binds(events, w, i, connection) {
        TakenBound(events, w, i, connection);
      } else {
        AppendedBound(events, w);
      }
    }
  }

  /** A version of the file holds a known connection of an event exactly when its write
      took it over from the version it was based on, filled it in where that version did
      not know it, or appended the event with it. */
  lemma BoundExactlyWhen(
      versions: seq<seq<Event>>, writes: seq<(nat, Write)>, j: nat, id: string, connection: string)
    requires History(versions, writes) && j < |writes| && connection != ""
    ensures writes[j].0 <= j
    ensures Bound(versions[j + 1], id, connection) <==>
      TakesOver(versions[writes[j].0], writes[j].1, id, connection)
  {
    assert Written(versions, writes, j);
    RewriteBound(versions[writes[j].0], writes[j].1, id, connection);
  }

  ghost function BoundIn(versions: seq<seq<Event>>, id: string, connection: string): (held: seq<bool>)
    ensures |held| == |versions|
    ensures forall k :: 0 <= k < |held| ==> (held[k] <==> Bound(versions[k], id, connection))
  {
    seq(|versions|, k requires 0 <= k < |versions| => Bound(versions[k], id, connection))
  }

  lemma RetainedTaken(events: seq<Event>, w: Write, id: string, connection: string)
    requires Bound(events, id, connection) && Retains(events, w, id)
    ensures TakesOver(events, w, id, connection)
  {
    var i :| 0 <= i < |events| && events[i].id == id && events[i].connection == connection;
    assert i >= Dropped(events, w);
    TakenBy(events, w, i, connection);
  }

  lemma BoundOnce(
      versions: seq<seq<Event>>, writes: seq<(nat, Write)>, j: nat, n: nat, id: string, connection: string,
      held: seq<bool>, base: seq<nat>)
    requires History(versions, writes) && j < |writes| && connection != "" && Keeps(versions, writes, j, n, id)
    requires held == BoundIn(versions, id, connection) && base == Bases(writes)
    ensures n <= base[j] <= j && (held[base[j]] ==> held[j + 1])
  {
    if Bound(versions[writes[j].0], id, connection) {
      RetainedTaken(versions[writes[j].0], writes[j].1, id, connection);
      BoundExactlyWhen(versions, writes, j, id, connection);
    }
  }

  /** As long as no write drops its event, a connection that version n knows is in every
      version from n on whose writes, from n on, read version n or a later one. */
  lemma ConnectionStays(
      versions: seq<seq<Event>>, writes: seq<(nat, Write)>, n: nat, m: nat, id: string, connection: string)
    requires History(versions, writes) && n <= m < |versions|
    requires connection != "" && Bound(versions[n], id, connection)
    requires forall j :: n <= j < m ==> Keeps(versions, writes, j, n, id)
    ensures Bound(versions[m], id, connection)
  {
    var held, base := BoundIn(versions, id, connection), Bases(writes);
    forall j | n <= j < m
      ensures n <= base[j] <= j && (held[base[j]] ==> held[j + 1])
    {
      assert Keeps(versions, writes, j, n, id);
      BoundOnce(versions, writes, j, n, id, connection, held, base);
    }
    Persists(held, base, n, m);
  }

  /** Any history whose last version holds a prompt of unknown connection can go on so that
      the condition fails: two observations based on it bind it to one connection and then
      to another. */
  lemma StaleWriteRebinds(
      versions: seq<seq<Event>>, writes: seq<(nat, Write)>, first: Write, second: Write,
      last: seq<Event>, i: nat)
    requires History(versions, writes) && last == versions[|writes|]
    requires Merges(last, first, i) && Merges(last, second, i) && last[i].connection == ""
    requires first.plan.connection != "" && second.plan.connection != ""
    requires first.plan.connection != second.plan.connection
    ensures var one, two := Rewrite(last, first), Rewrite(last, second);
            && History(versions + [one] + [two], writes + [(|writes|, first)] + [(|writes|, second)])
            && |one| == |two| == |last|
            && one[i].id == two[i].id == last[i].id
            && one[i].connection == first.plan.connection
            && two[i].connection == second.plan.connection
  {
    EveryVersionDistinguished(versions, writes, |writes|);
    var one, two := Rewrite(last, first), Rewrite(last, second);
    HistoryExtends(versions, writes, |writes|, first, one);
    HistoryExtends(versions + [one], writes + [(|writes|, first)], |writes|, second, two);
    UntrimmedAppended(last, first);
    UntrimmedAppended(last, second);
    WrittenEvent(last, first, i);
    WrittenEvent(last, second, i);
  }
}
