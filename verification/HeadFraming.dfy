/** Reading a request head from a stream that arrives in chunks. Bytes are
    characters below 256, as ISO-8859-1 decodes them. */
module HeadFraming {

  type Bytes = string

  const HEADER_LIMIT := 65536
  const RECV_SIZE := 4096

  // The end of the first blank line.
  datatype End = NoEnd | EndsAt(index: nat)

  predicate BlankLine(s: Bytes) {
    |s| >= 4 && s[0] == '\r' && s[1] == '\n' && s[2] == '\r' && s[3] == '\n'
  }

  function FindEnd(s: Bytes): (r: End)
    ensures r.EndsAt? ==> 4 <= r.index <= |s| && BlankLine(s[r.index - 4..])
  {
    if s == [] then NoEnd
    else if BlankLine(s) then EndsAt(4)
    else
      var r := FindEnd(s[1..]);
      if r.NoEnd? then NoEnd else EndsAt(r.index + 1)
  }

  // raw.partition(b"\r\n\r\n"): head and body.
  function Partition(raw: Bytes): (Bytes, Bytes) {
    match FindEnd(raw)
    case NoEnd => (raw, [])
    case EndsAt(e) => (raw[..e - 4], raw[e..])
  }

  function Concat(chunks: seq<Bytes>): Bytes {
    if chunks == [] then [] else chunks[0] + Concat(chunks[1..])
  }

  // What recv(RECV_SIZE) can deliver before the end of the stream.
  predicate Receivable(chunks: seq<Bytes>) {
    forall c <- chunks :: 1 <= |c| <= RECV_SIZE
  }

  datatype Received = TooLarge | Got(data: Bytes)

  function Recv(data: Bytes, chunks: seq<Bytes>, limit: nat): Received
    decreases |chunks|
  {
    if FindEnd(data).EndsAt? || chunks == [] then Got(data)
    else
      var d := data + chunks[0];
      if |d| > limit then TooLarge else Recv(d, chunks[1..], limit)
  }

  method RecvHeaders(chunks: seq<Bytes>, limit: nat) returns (r: Received)
    ensures r == Recv([], chunks, limit)
  {
    var data: Bytes := [];
    var i := 0;
    while FindEnd(data).NoEnd?
      invariant 0 <= i <= |chunks|
      invariant Recv(data, chunks[i..], limit) == Recv([], chunks, limit)
      decreases |chunks| - i
    {
      if i == |chunks| {
        break;
      }
      assert chunks[i..][0] == chunks[i] && chunks[i..][1..] == chunks[i + 1..];
      data := data + chunks[i];
      i := i + 1;
      if |data| > limit {
        return TooLarge;
      }
    }
    return Got(data);
  }

  // ---- Prefixes of the stream ----

  // A prefix shows the blank line exactly when it is long enough to hold it.
  lemma BlankInFront(s: Bytes, t: Bytes)
    requires |s| >= 4
    ensures BlankLine(s + t) <==> BlankLine(s)
  {
  }

  lemma {:induction false} FindEndPrefix(s: Bytes, t: Bytes)
    ensures FindEnd(s) ==
      if FindEnd(s + t).EndsAt? && FindEnd(s + t).index <= |s| then FindEnd(s + t) else NoEnd
  {
    if s != [] {
      assert (s + t)[1..] == s[1..] + t;
      FindEndPrefix(s[1..], t);
      if |s| >= 4 {
        BlankInFront(s, t);
      } else {
        assert !BlankLine(s);
      }
    }
  }

  lemma ConcatStep(data: Bytes, chunks: seq<Bytes>)
    requires chunks != []
    ensures data + Concat(chunks) == (data + chunks[0]) + Concat(chunks[1..])
  {
  }

  lemma {:induction false} RecvPrefix(data: Bytes, chunks: seq<Bytes>, limit: nat)
    requires Recv(data, chunks, limit).Got?
    ensures var d := Recv(data, chunks, limit).data;
            d <= data + Concat(chunks)
            && FindEnd(d) == FindEnd(data + Concat(chunks))
            && (FindEnd(d).NoEnd? ==> d == data + Concat(chunks))
    decreases |chunks|
  {
    FindEndPrefix(data, Concat(chunks));
    if FindEnd(data).NoEnd? && chunks != [] {
      ConcatStep(data, chunks);
      RecvPrefix(data + chunks[0], chunks[1..], limit);
    } else if chunks == [] {
      assert data + Concat(chunks) == data;
    }
  }

  // "\r\n\r\n" begins at i.
  predicate BlankAt(s: Bytes, i: int) {
    0 <= i && i + 4 <= |s| && s[i] == '\r' && s[i + 1] == '\n' && s[i + 2] == '\r' && s[i + 3] == '\n'
  }

  ghost predicate HoldsBlank(s: Bytes) {
    exists i :: BlankAt(s, i)
  }

  lemma {:induction false} FirstBlank(s: Bytes)
    ensures FindEnd(s).NoEnd? ==> forall i :: !BlankAt(s, i)
    ensures FindEnd(s).EndsAt? ==>
      BlankAt(s, FindEnd(s).index - 4) && forall i :: i < FindEnd(s).index - 4 ==> !BlankAt(s, i)
  {
    if s != [] {
      FirstBlank(s[1..]);
      forall i | i > 0
        ensures BlankAt(s, i) <==> BlankAt(s[1..], i - 1)
      {
      }
      assert BlankLine(s) <==> BlankAt(s, 0);
    }
  }

  /** The end that is found is that of the first blank line. */
  lemma FindEndExactly(s: Bytes, i: nat)
    ensures FindEnd(s) == EndsAt(i + 4) <==> BlankAt(s, i) && forall j :: j < i ==> !BlankAt(s, j)
    ensures FindEnd(s).NoEnd? <==> !HoldsBlank(s)
  {
    FirstBlank(s);
  }

  // The first k chunks hold a blank line, or are all there are; no fewer do.
  ghost predicate Needed(chunks: seq<Bytes>, k: nat) {
    && k <= |chunks|
    && (k < |chunks| ==> HoldsBlank(Concat(chunks[..k])))
    && forall j :: 0 <= j < k ==> !HoldsBlank(Concat(chunks[..j]))
  }

  lemma {:induction false} NeededExists(chunks: seq<Bytes>, from: nat) returns (k: nat)
    requires from <= |chunks| && forall j :: 0 <= j < from ==> !HoldsBlank(Concat(chunks[..j]))
    ensures Needed(chunks, k)
    decreases |chunks| - from
  {
    if from == |chunks| || HoldsBlank(Concat(chunks[..from])) {
      k := from;
    } else {
      k := NeededExists(chunks, from + 1);
    }
  }

  lemma ConcatLast(chunks: seq<Bytes>, i: nat)
    requires i < |chunks|
    ensures Concat(chunks[..i + 1]) == Concat(chunks[..i]) + chunks[i]
  {
    assert chunks[..i + 1] == chunks[..i] + [chunks[i]];
    ConcatAppend(chunks[..i], [chunks[i]]);
    assert Concat([chunks[i]]) == chunks[i] + Concat([]);
  }

  lemma {:induction false} ReadsFrom(chunks: seq<Bytes>, limit: nat, i: nat, k: nat)
    requires Needed(chunks, k) && i <= k && |Concat(chunks[..i])| <= limit
    ensures Recv(Concat(chunks[..i]), chunks[i..], limit) ==
      if |Concat(chunks[..k])| <= limit then Got(Concat(chunks[..k])) else TooLarge
    decreases k - i
  {
    FindEndExactly(Concat(chunks[..i]), 0);
    if i < k {
      ConcatLast(chunks, i);
      assert chunks[i..][0] == chunks[i] && chunks[i..][1..] == chunks[i + 1..];
      if |Concat(chunks[..i + 1])| <= limit {
        ReadsFrom(chunks, limit, i + 1, k);
      } else {
        assert chunks[..k] == chunks[..i + 1] + chunks[i + 1..k];
        ConcatAppend(chunks[..i + 1], chunks[i + 1..k]);
      }
    }
  }

  /** The receive loop returns all it has read when the first blank line is complete or
      the stream ends, if that is within the limit; nothing of it is lost. */
  lemma ReadsExactly(chunks: seq<Bytes>, limit: nat, k: nat)
    requires Needed(chunks, k)
    ensures Recv([], chunks, limit) ==
      if |Concat(chunks[..k])| <= limit then Got(Concat(chunks[..k])) else TooLarge
  {
    ReadsFrom(chunks, limit, 0, k);
    assert chunks[..0] == [] && chunks[0..] == chunks;
  }

  lemma PartitionOfPrefix(raw: Bytes, stream: Bytes)
    requires raw <= stream && FindEnd(raw) == FindEnd(stream) && (FindEnd(raw).NoEnd? ==> raw == stream)
    ensures Partition(raw).0 == Partition(stream).0 && Partition(raw).1 <= Partition(stream).1
  {
    assert stream[..|raw|] == raw;
  }

  /** Whatever the chunking, an accepted head is the head of the stream. */
  lemma AcceptedHead(chunks: seq<Bytes>, limit: nat)
    requires Recv([], chunks, limit).Got?
    ensures var raw, stream := Recv([], chunks, limit).data, Concat(chunks);
            && Partition(raw).0 == Partition(stream).0
            && Partition(raw).1 <= Partition(stream).1
            && (FindEnd(raw).EndsAt? <==> FindEnd(stream).EndsAt?)
  {
    RecvPrefix([], chunks, limit);
    assert [] + Concat(chunks) == Concat(chunks);
    PartitionOfPrefix(Recv([], chunks, limit).data, Concat(chunks));
  }

  lemma {:induction false} AcceptsShort(data: Bytes, chunks: seq<Bytes>, limit: nat, e: nat)
    requires Receivable(chunks) && FindEnd(data + Concat(chunks)) == EndsAt(e) && e + RECV_SIZE - 1 <= limit
    ensures Recv(data, chunks, limit).Got?
    decreases |chunks|
  {
    FindEndPrefix(data, Concat(chunks));
    if FindEnd(data).NoEnd? && chunks != [] {
      var d, rest := data + chunks[0], chunks[1..];
      ConcatStep(data, chunks);
      assert chunks[0] in chunks && Receivable(rest);
      assert |d| <= limit;
      AcceptsShort(d, rest, limit, e);
    }
  }

  lemma {:induction false} RejectsLong(data: Bytes, chunks: seq<Bytes>, limit: nat, e: nat)
    requires |data| <= limit < e && FindEnd(data + Concat(chunks)) == EndsAt(e)
    ensures Recv(data, chunks, limit).TooLarge?
    decreases |chunks|
  {
    FindEndPrefix(data, Concat(chunks));
    assert data + Concat([]) == data;
    if chunks == [] {
      assert false;
    } else {
      ConcatStep(data, chunks);
      if |data + chunks[0]| <= limit {
        RejectsLong(data + chunks[0], chunks[1..], limit, e);
      }
    }
  }

  lemma {:induction false} UnterminatedByLength(data: Bytes, chunks: seq<Bytes>, limit: nat)
    requires |data| <= limit && FindEnd(data + Concat(chunks)).NoEnd?
    ensures Recv(data, chunks, limit).Got? <==> |data + Concat(chunks)| <= limit
    decreases |chunks|
  {
    FindEndPrefix(data, Concat(chunks));
    if chunks != [] {
      ConcatStep(data, chunks);
      if |data + chunks[0]| <= limit {
        UnterminatedByLength(data + chunks[0], chunks[1..], limit);
      }
    }
  }

  /** Which streams are read whatever their chunking: a blank line that ends by
      HEADER_LIMIT - 4095 is always accepted, one that ends after HEADER_LIMIT never,
      and a stream without one exactly when it is no longer than HEADER_LIMIT. */
  lemma DecidedByStream(chunks: seq<Bytes>)
    requires Receivable(chunks)
    ensures var e, accepted := FindEnd(Concat(chunks)), Recv([], chunks, HEADER_LIMIT).Got?;
      && (e.EndsAt? && e.index <= 61441 ==> accepted)
      && (e.EndsAt? && e.index > 65536 ==> !accepted)
      && (e.NoEnd? ==> (accepted <==> |Concat(chunks)| <= 65536))
  {
    var stream := Concat(chunks);
    assert [] + stream == stream;
    match FindEnd(stream)
    case NoEnd => UnterminatedByLength([], chunks, HEADER_LIMIT);
    case EndsAt(e) =>
      if e <= HEADER_LIMIT - (RECV_SIZE - 1) {
        AcceptsShort([], chunks, HEADER_LIMIT, e);
      } else if e > HEADER_LIMIT {
        RejectsLong([], chunks, HEADER_LIMIT, e);
      }
  }

  // ---- Between the bounds the chunking decides ----

  function Chop(s: Bytes): (chunks: seq<Bytes>)
    ensures Receivable(chunks)
    ensures Concat(chunks) == s
  {
    if s == [] then []
    else if |s| <= RECV_SIZE then
      assert Concat([s]) == s + Concat([]) == s;
      [s]
    else
      var chunks := Chop(s[RECV_SIZE..]);
      assert Concat([s[..RECV_SIZE]] + chunks) == s[..RECV_SIZE] + Concat(chunks) == s;
      [s[..RECV_SIZE]] + chunks
  }

  lemma {:induction false} ConcatAppend(xs: seq<Bytes>, ys: seq<Bytes>)
    ensures Concat(xs + ys) == Concat(xs) + Concat(ys)
  {
    if xs == [] {
      assert xs + ys == ys;
    } else {
      assert (xs + ys)[1..] == xs[1..] + ys;
      ConcatAppend(xs[1..], ys);
    }
  }

  lemma BeforeEnd(data: Bytes, more: Bytes, s: Bytes)
    requires data + more == s && FindEnd(s) == EndsAt(|s|)
    ensures if |data| == |s| then data == s else FindEnd(data).NoEnd? && more != []
  {
    FindEndPrefix(data, more);
  }

  // The blank line closes the text s.
  lemma {:induction false} StopsAtEnd(data: Bytes, xs: seq<Bytes>, ys: seq<Bytes>, limit: nat, s: Bytes)
    requires data + Concat(xs) == s && FindEnd(s) == EndsAt(|s|) && |s| <= limit
    ensures Recv(data, xs + ys, limit) == Got(s)
    decreases |xs|
  {
    BeforeEnd(data, Concat(xs), s);
    if |data| < |s| {
      ConcatStep(data, xs);
      assert (xs + ys)[0] == xs[0] && (xs + ys)[1..] == xs[1..] + ys;
      StopsAtEnd(data + xs[0], xs[1..], ys, limit, s);
    }
  }

  lemma {:induction false} OverrunsAtChunk(data: Bytes, xs: seq<Bytes>, c: Bytes, ys: seq<Bytes>, limit: nat)
    requires FindEnd(data + Concat(xs)).NoEnd? && |data + Concat(xs)| + |c| > limit
    ensures Recv(data, xs + ([c] + ys), limit).TooLarge?
    decreases |xs|
  {
    FindEndPrefix(data, Concat(xs));
    var all := xs + ([c] + ys);
    if xs == [] {
      assert all[0] == c;
    } else {
      ConcatStep(data, xs);
      assert all[0] == xs[0] && all[1..] == xs[1..] + ([c] + ys);
      OverrunsAtChunk(data + xs[0], xs[1..], c, ys, limit);
    }
  }

  lemma AcceptingChunking(stream: Bytes, e: nat) returns (chunks: seq<Bytes>)
    requires FindEnd(stream) == EndsAt(e) && e <= HEADER_LIMIT
    ensures Receivable(chunks) && Concat(chunks) == stream && Recv([], chunks, HEADER_LIMIT).Got?
  {
    var head, rest := stream[..e], stream[e..];
    assert head + rest == stream;
    FindEndPrefix(head, rest);
    assert [] + head == head;
    ConcatAppend(Chop(head), Chop(rest));
    StopsAtEnd([], Chop(head), Chop(rest), HEADER_LIMIT, head);
    chunks := Chop(head) + Chop(rest);
  }

  lemma RejectingChunking(stream: Bytes, e: nat) returns (chunks: seq<Bytes>)
    requires FindEnd(stream) == EndsAt(e)
    requires HEADER_LIMIT - (RECV_SIZE - 1) < e <= HEADER_LIMIT < |stream|
    ensures Receivable(chunks) && Concat(chunks) == stream && Recv([], chunks, HEADER_LIMIT).TooLarge?
  {
    var before, c, after := stream[..e - 1], stream[e - 1..HEADER_LIMIT + 1], stream[HEADER_LIMIT + 1..];
    assert before + (c + after) == stream;
    FindEndPrefix(before, c + after);
    assert [] + before == before;
    ConcatAppend(Chop(before), [c] + Chop(after));
    OverrunsAtChunk([], Chop(before), c, Chop(after), HEADER_LIMIT);
    chunks := Chop(before) + ([c] + Chop(after));
  }

  lemma {:induction false} AcceptsWithin(data: Bytes, chunks: seq<Bytes>, limit: nat)
    requires |data + Concat(chunks)| <= limit
    ensures Recv(data, chunks, limit).Got?
    decreases |chunks|
  {
    if FindEnd(data).NoEnd? && chunks != [] {
      ConcatStep(data, chunks);
      AcceptsWithin(data + chunks[0], chunks[1..], limit);
    }
  }

  ghost predicate Chunking(chunks: seq<Bytes>, stream: Bytes) {
    Receivable(chunks) && Concat(chunks) == stream
  }

  ghost predicate Accepted(chunks: seq<Bytes>) {
    Recv([], chunks, HEADER_LIMIT).Got?
  }

  /** Every chunking of a stream is accepted exactly when the stream itself is within
      the limit or its blank line ends a full receive before it. */
  lemma AlwaysAcceptedExactlyWhen(stream: Bytes)
    ensures (forall chunks :: Chunking(chunks, stream) ==> Accepted(chunks)) <==>
      || |stream| <= 65536
      || (FindEnd(stream).EndsAt? && FindEnd(stream).index <= 61441)
  {
    var end := FindEnd(stream);
    if |stream| <= HEADER_LIMIT || (end.EndsAt? && end.index <= HEADER_LIMIT - (RECV_SIZE - 1)) {
      forall chunks | Chunking(chunks, stream)
        ensures Accepted(chunks)
      {
        if |stream| <= HEADER_LIMIT {
          assert [] + stream == stream;
          AcceptsWithin([], chunks, HEADER_LIMIT);
        } else {
          DecidedByStream(chunks);
        }
      }
    } else if end.EndsAt? && end.index <= HEADER_LIMIT {
      var bad := RejectingChunking(stream, end.index);
      assert Chunking(bad, stream) && !Accepted(bad);
    } else {
      DecidedByStream(Chop(stream));
      assert Chunking(Chop(stream), stream) && !Accepted(Chop(stream));
    }
  }

  /** Some chunking of a stream is accepted exactly when the stream or its blank line is
      within the limit. So for the blank lines that end in the last receive before the
      limit, with bytes beyond it, the chunking decides. */
  lemma EverAcceptedExactlyWhen(stream: Bytes)
    ensures (exists chunks :: Chunking(chunks, stream) && Accepted(chunks)) <==>
      || |stream| <= 65536
      || (FindEnd(stream).EndsAt? && FindEnd(stream).index <= 65536)
  {
    var end := FindEnd(stream);
    if end.EndsAt? && end.index <= HEADER_LIMIT {
      var good := AcceptingChunking(stream, end.index);
      assert Chunking(good, stream) && Accepted(good);
    } else if |stream| <= HEADER_LIMIT {
      AlwaysAcceptedExactlyWhen(stream);
      assert Chunking(Chop(stream), stream);
    } else {
      forall chunks | Chunking(chunks, stream)
        ensures !Accepted(chunks)
      {
        DecidedByStream(chunks);
      }
    }
  }
}
