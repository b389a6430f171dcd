/**
 Pushes of several writers at the grain of their Redis commands: INCR draws a ts, and
 a later pipeline adds the event under that ts and trims the set.  Between the two the
 push is in flight.  GetLongPollServer may draw a ts without any event at any time.
 A poll is three commands: the read of the oldest entry, the range read, and the read of
 the counter.
 Payloads are pairwise distinct in this file.
 */
module InterleavedPushes {
  import opened Wrappers
  import opened EventLog
  import opened EventDelivery

  /**
   issued[i] is the payload whose writer drew ts i + 1, none for a bare INCR; `inflight`
   are the ts whose pipeline has not run yet.
   */
  datatype Fine = Fine(issued: History, inflight: set<nat>, entries: ZSet)

  const FRESH := Fine([], {}, [])

  function Counter(s: Fine): nat {
    |s.issued|
  }

  datatype FineStep =
    | Draw(e: Event)  // INCR of a writer
    | Bump            // INCR of GetLongPollServer, which had read no counter before
    | Land(ts: nat)   // ZADD and ZREMRANGEBYRANK of the writer that drew ts

  predicate Drawn(s: Fine, ts: nat) {
    1 <= ts <= |s.issued| && s.issued[ts - 1].Some?
  }

  predicate Enabled(s: Fine, st: FineStep) {
    st.Land? ==> st.ts in s.inflight && Drawn(s, st.ts)
  }

  function FineNext(s: Fine, st: FineStep): Fine
    requires Enabled(s, st)
  {
    match st
    case Draw(e) => s.(issued := s.issued + [Some(e)], inflight := s.inflight + {|s.issued| + 1})
    case Bump => s.(issued := s.issued + [None])
    case Land(ts) =>
      s.(inflight := s.inflight - {ts},
         entries := TrimTo(ZAdd(s.entries, s.issued[ts - 1].value, ts), LOG_CAP))
  }

  /** The runs: steps that are not enabled do not happen. */
  function FineRun(steps: seq<FineStep>): Fine {
    if steps == [] then FRESH
    else
      var s := FineRun(steps[..|steps| - 1]);
      var st := steps[|steps| - 1];
      if Enabled(s, st) then FineNext(s, st) else s
  }

  /** What ts n contributes to the log: nothing while in flight, nothing for a bare INCR. */
  function Slot(issued: History, inflight: set<nat>, n: nat): ZSet
    requires 1 <= n <= |issued|
  {
    if n in inflight || issued[n - 1].None? then [] else [Entry(issued[n - 1].value, n)]
  }

  /** The events among the first n drawn whose pipeline has run, by ts. */
  function Landed(issued: History, inflight: set<nat>, n: nat): ZSet
    requires n <= |issued|
  {
    if n == 0 then [] else Landed(issued, inflight, n - 1) + Slot(issued, inflight, n)
  }

  lemma {:induction false} LandedSpec(issued: History, inflight: set<nat>, n: nat)
    requires n <= |issued|
    ensures Ordered(Landed(issued, inflight, n))
    ensures forall x :: x in Landed(issued, inflight, n) <==>
              1 <= x.score <= n && x.score !in inflight && issued[x.score - 1] == Some(x.member)
  {
    if n > 0 {
      LandedSpec(issued, inflight, n - 1);
      OrderedConcat(Landed(issued, inflight, n - 1), Slot(issued, inflight, n), n - 1);
    }
  }

  lemma LandedHas(issued: History, inflight: set<nat>, n: nat, x: Entry)
    requires n <= |issued|
    ensures x in Landed(issued, inflight, n) <==>
            1 <= x.score <= n && x.score !in inflight && issued[x.score - 1] == Some(x.member)
  {
    LandedSpec(issued, inflight, n);
  }

  lemma LandedOrdered(issued: History, inflight: set<nat>, n: nat)
    requires n <= |issued|
    ensures Ordered(Landed(issued, inflight, n))
  {
    LandedSpec(issued, inflight, n);
  }

  lemma {:induction false} LandedBelow(issued: History, inflight: set<nat>, n: nat)
    requires n <= |issued|
    ensures forall y :: y in Landed(issued, inflight, n) ==> y.score <= n
  {
    if n > 0 {
      LandedBelow(issued, inflight, n - 1);
    }
  }

  /** Later draws do not change what has landed below them. */
  lemma {:induction false} LandedGrows(issued: History, v: Option<Event>, inflight: set<nat>, others: set<nat>, n: nat)
    requires n <= |issued|
    requires forall t :: 1 <= t <= n ==> (t in inflight <==> t in others)
    ensures Landed(issued + [v], others, n) == Landed(issued, inflight, n)
  {
    if n > 0 {
      LandedGrows(issued, v, inflight, others, n - 1);
    }
  }

  lemma LandedWithout(issued: History, inflight: set<nat>, ts: nat, x: Entry)
    requires 1 <= ts <= |issued| && ts in inflight && issued[ts - 1].Some?
    ensures x in Landed(issued, inflight - {ts}, |issued|) <==>
            x in Landed(issued, inflight, |issued|) || x == Entry(issued[ts - 1].value, ts)
  {
    LandedHas(issued, inflight, |issued|, x);
    LandedHas(issued, inflight - {ts}, |issued|, x);
  }

  /** Landing puts the event at its place among those landed before. */
  lemma LandedInsert(issued: History, inflight: set<nat>, ts: nat)
    requires 1 <= ts <= |issued| && ts in inflight && issued[ts - 1].Some?
    ensures Landed(issued, inflight - {ts}, |issued|)
            == Insert(Landed(issued, inflight, |issued|), Entry(issued[ts - 1].value, ts))
  {
    var z, x := Landed(issued, inflight, |issued|), Entry(issued[ts - 1].value, ts);
    var next := Landed(issued, inflight - {ts}, |issued|);
    LandedOrdered(issued, inflight, |issued|);
    LandedOrdered(issued, inflight - {ts}, |issued|);
    forall y | y in z ensures y.score != x.score {
      LandedHas(issued, inflight, |issued|, y);
    }
    InsertMembers(z, x);
    InsertOrdered(z, x);
    forall y ensures y in next <==> y in Insert(z, x) {
      LandedWithout(issued, inflight, ts, y);
    }
    OrderedUnique(next, Insert(z, x));
  }

  lemma {:induction false} InsertIntoRight(a: ZSet, b: ZSet, x: Entry)
    requires forall y :: y in a ==> y.score <= x.score
    ensures Insert(a + b, x) == a + Insert(b, x)
  {
    if a == [] {
      assert a + b == b;
    } else {
      assert a[0] in a;
      assert (a + b)[1..] == a[1..] + b;
      InsertIntoRight(a[1..], b, x);
    }
  }

  lemma {:induction false} InsertIntoLeft(a: ZSet, b: ZSet, x: Entry)
    requires b != [] ==> x.score < b[0].score
    ensures Insert(a + b, x) == Insert(a, x) + b
  {
    if a == [] {
      assert a + b == b;
    } else {
      assert (a + b)[1..] == a[1..] + b;
      InsertIntoLeft(a[1..], b, x);
    }
  }

  lemma FrontBelow(a: ZSet, b: ZSet)
    requires Ordered(a + b) && b != []
    ensures forall y :: y in a ==> y.score < b[0].score
  {
    forall y | y in a ensures y.score < b[0].score {
      var i :| 0 <= i < |a| && a[i] == y;
      assert (a + b)[i] == y && (a + b)[|a|] == b[0];
    }
  }

  lemma TrimInsertRight(a: ZSet, b: ZSet, x: Entry)
    requires Ordered(a + b) && b != [] && b[0].score < x.score
    ensures TrimTo(Insert(b, x), |b|) == TrimTo(Insert(a + b, x), |b|)
  {
    FrontBelow(a, b);
    InsertMembers(b, x);
    InsertIntoRight(a, b, x);
    assert (a + Insert(b, x))[|a| + 1..] == Insert(b, x)[1..];
  }

  lemma TrimInsertLeft(a: ZSet, b: ZSet, x: Entry)
    requires b != [] ==> x.score < b[0].score
    ensures TrimTo(Insert(b, x), |b|) == TrimTo(Insert(a + b, x), |b|)
  {
    InsertMembers(a, x);
    InsertIntoLeft(a, b, x);
    assert (Insert(a, x) + b)[|a| + 1..] == b == ([x] + b)[1..];
  }

  /** Inserting into the newest n and trimming equals trimming the full insertion. */
  lemma TrimThenInsert(z: ZSet, x: Entry, n: nat)
    requires Ordered(z)
    requires forall y :: y in z ==> y.score != x.score
    ensures TrimTo(Insert(TrimTo(z, n), x), n) == TrimTo(Insert(z, x), n)
  {
    if |z| > n {
      var a, b := z[..|z| - n], z[|z| - n..];
      assert z == a + b;
      assert b != [] ==> b[0] in z;
      if b != [] && b[0].score < x.score {
        TrimInsertRight(a, b, x);
      } else {
        TrimInsertLeft(a, b, x);
      }
    }
  }

  // ---------------------------------------------------------------------------
  // What every run keeps

  ghost predicate FineOk(s: Fine) {
    && (forall t :: t in s.inflight ==> Drawn(s, t))
    && s.entries == TrimTo(Landed(s.issued, s.inflight, |s.issued|), LOG_CAP)
  }

  lemma DrawKeeps(s: Fine, e: Event)
    requires FineOk(s)
    ensures FineOk(FineNext(s, Draw(e)))
  {
    LandedGrows(s.issued, Some(e), s.inflight, s.inflight + {|s.issued| + 1}, |s.issued|);
  }

  lemma BumpKeeps(s: Fine)
    requires FineOk(s)
    ensures FineOk(FineNext(s, Bump))
  {
    LandedGrows(s.issued, None, s.inflight, s.inflight, |s.issued|);
  }

  /** The event of a push in flight is neither stored nor landed under its payload or ts. */
  lemma NotStoredYet(s: Fine, ts: nat)
    requires FineOk(s) && Enabled(s, Land(ts)) && DistinctPayloads(s.issued)
    ensures ZRem(s.entries, s.issued[ts - 1].value) == s.entries
    ensures Ordered(Landed(s.issued, s.inflight, |s.issued|))
    ensures forall y :: y in Landed(s.issued, s.inflight, |s.issued|) ==> y.score != ts
  {
    var z := Landed(s.issued, s.inflight, |s.issued|);
    LandedSpec(s.issued, s.inflight, |s.issued|);
    forall y | y in s.entries ensures y.member != s.issued[ts - 1].value {
      assert y in z;
    }
    ZRemAbsent(s.entries, s.issued[ts - 1].value);
  }

  lemma LandedEntries(s: Fine, ts: nat)
    requires FineOk(s) && Enabled(s, Land(ts)) && DistinctPayloads(s.issued)
    ensures TrimTo(ZAdd(s.entries, s.issued[ts - 1].value, ts), LOG_CAP)
            == TrimTo(Landed(s.issued, s.inflight - {ts}, |s.issued|), LOG_CAP)
  {
    var x := Entry(s.issued[ts - 1].value, ts);
    var z := Landed(s.issued, s.inflight, |s.issued|);
    NotStoredYet(s, ts);
    calc {
      TrimTo(ZAdd(s.entries, x.member, ts), LOG_CAP);
      TrimTo(Insert(TrimTo(z, LOG_CAP), x), LOG_CAP);
      { TrimThenInsert(z, x, LOG_CAP); }
      TrimTo(Insert(z, x), LOG_CAP);
      { LandedInsert(s.issued, s.inflight, ts); }
      TrimTo(Landed(s.issued, s.inflight - {ts}, |s.issued|), LOG_CAP);
    }
  }

  lemma LandKeeps(s: Fine, ts: nat)
    requires FineOk(s) && Enabled(s, Land(ts)) && DistinctPayloads(s.issued)
    ensures FineOk(FineNext(s, Land(ts)))
  {
    LandedEntries(s, ts);
  }

  lemma {:induction false} FineRunKeeps(steps: seq<FineStep>)
    requires DistinctPayloads(FineRun(steps).issued)
    ensures FineOk(FineRun(steps))
  {
    if steps != [] {
      var front := steps[..|steps| - 1];
      var s, st := FineRun(front), steps[|steps| - 1];
      DistinctPrefix(s.issued, FineRun(steps).issued);
      FineRunKeeps(front);
      if Enabled(s, st) {
        match st
        case Draw(e) => DrawKeeps(s, e);
        case Bump => BumpKeeps(s);
        case Land(ts) => LandKeeps(s, ts);
      }
    }
  }

  lemma DistinctPrefix(front: History, h: History)
    requires front <= h && DistinctPayloads(h)
    ensures DistinctPayloads(front)
  {
    forall i, j | 0 <= i < j < |front| && front[i].Some? ensures front[i] != front[j] {
      assert h[i] == front[i] && h[j] == front[j];
    }
  }

  // ---------------------------------------------------------------------------
  // When nothing is in flight

  /** With distinct payloads every event is at its latest slot. */
  lemma LatestIsLanded(issued: History)
    requires DistinctPayloads(issued)
    ensures Latest(issued) == Landed(issued, {}, |issued|)
  {
    LatestMembers(issued);
    LatestOrdered(issued);
    LandedSpec(issued, {}, |issued|);
    OrderedUnique(Latest(issued), Landed(issued, {}, |issued|));
  }

  /** An entry's rank from the end is the number of events pushed after it. */
  lemma {:induction false} RankByPushes(h: History, j: nat)
    requires DistinctPayloads(h) && j < |Latest(h)|
    ensures PushedAfter(h, Latest(h)[j].score) == |Latest(h)| - 1 - j
  {
    var n := |h| - 1;
    var front := h[..n];
    DistinctPrefix(front, h);
    LatestMembers(h);
    assert Latest(h)[j] in Latest(h);
    assert IsLatest(h, Latest(h)[j].member, Latest(h)[j].score);
    LatestSnoc(h);
    if j < |Latest(front)| {
      LatestMembers(front);
      assert Latest(front)[j] in Latest(front);
      assert IsLatest(front, Latest(front)[j].member, Latest(front)[j].score);
      RankByPushes(front, j);
    }
  }

  lemma LatestSnoc(h: History)
    requires DistinctPayloads(h) && h != []
    ensures var front := h[..|h| - 1];
            Latest(h) == Latest(front) + (if h[|h| - 1].Some? then [Entry(h[|h| - 1].value, |h|)] else [])
  {
    var front := h[..|h| - 1];
    LatestMembers(front);
    if h[|h| - 1].Some? {
      forall x | x in Latest(front) ensures x.member != h[|h| - 1].value {
        assert IsLatest(front, x.member, x.score);
        assert h[x.score - 1] == front[x.score - 1];
      }
      ZRemAbsent(Latest(front), h[|h| - 1].value);
    }
  }

  /** With nothing in flight the log stands to the history as after atomic pushes. */
  lemma QuiescentAgrees(steps: seq<FineStep>)
    requires DistinctPayloads(FineRun(steps).issued)
    requires FineRun(steps).inflight == {}
    ensures Agrees(Log(Counter(FineRun(steps)), FineRun(steps).entries), FineRun(steps).issued)
  {
    FineRunKeeps(steps);
    LatestIsLanded(FineRun(steps).issued);
  }

  /**
   Main result, command grain: in whatever order the pipelines run, once no push is in
   flight the log holds, by ts, exactly the events with fewer than 200 pushed after them.
   */
  lemma QuiescentLogIsNewest(steps: seq<FineStep>)
    requires DistinctPayloads(FineRun(steps).issued)
    requires FineRun(steps).inflight == {}
    ensures var s := FineRun(steps);
            && Ordered(s.entries)
            && forall x :: x in s.entries <==>
                 && 1 <= x.score <= |s.issued| && s.issued[x.score - 1] == Some(x.member)
                 && PushedAfter(s.issued, x.score) < 200
  {
    var s := FineRun(steps);
    QuiescentAgrees(steps);
    TrimmedOrdered(Log(Counter(s), s.entries), s.issued);
    forall x
      ensures x in s.entries <==>
                && 1 <= x.score <= |s.issued| && s.issued[x.score - 1] == Some(x.member)
                && PushedAfter(s.issued, x.score) < 200
    {
      NewestByRank(s.issued, s.entries, x);
    }
  }

  lemma NewestByRank(h: History, entries: ZSet, x: Entry)
    requires DistinctPayloads(h) && entries == TrimTo(Latest(h), LOG_CAP)
    ensures x in entries <==>
              && 1 <= x.score <= |h| && h[x.score - 1] == Some(x.member)
              && PushedAfter(h, x.score) < LOG_CAP
  {
    var z := Latest(h);
    DistinctLatest(h, z, x);
    if x in z {
      var j :| 0 <= j < |z| && z[j] == x;
      RankByPushes(h, j);
      LatestOrdered(h);
      TrimByRank(z, LOG_CAP, j);
    }
  }

  lemma DistinctOnce(h: History, i: nat)
    requires DistinctPayloads(h) && i < |h| && h[i].Some?
    ensures IsLatest(h, h[i].value, i + 1)
  {
    forall j | i + 1 <= j < |h| ensures h[j] != h[i] {
    }
  }

  lemma DistinctLatest(h: History, z: ZSet, x: Entry)
    requires DistinctPayloads(h) && z == Latest(h)
    ensures x in z <==> 1 <= x.score <= |h| && h[x.score - 1] == Some(x.member)
  {
    LatestHas(h, x);
    if 1 <= x.score <= |h| && h[x.score - 1] == Some(x.member) {
      DistinctOnce(h, x.score - 1);
    }
  }

  lemma TrimByRank(z: ZSet, n: nat, j: nat)
    requires j < |z|
    ensures |z| - 1 - j < n ==> z[j] in TrimTo(z, n)
    ensures Ordered(z) && z[j] in TrimTo(z, n) ==> |z| - 1 - j < n
  {
    if |z| > n {
      var kept := TrimTo(z, n);
      if |z| - 1 - j < n {
        assert kept[j - (|z| - n)] == z[j];
      }
    }
  }

  /** The same draws, each done in one step: a push for an event, a bare INCR for none. */
  function OneByOne(issued: History): Log {
    if issued == [] then Log(0, [])
    else
      var l := OneByOne(issued[..|issued| - 1]);
      match issued[|issued| - 1]
      case Some(e) => Push(l, e)
      case None => l.(ts := l.ts + 1)
  }

  lemma {:induction false} OneByOneAgrees(issued: History)
    ensures Agrees(OneByOne(issued), issued)
  {
    if issued != [] {
      var n := |issued| - 1;
      OneByOneAgrees(issued[..n]);
      assert issued == issued[..n] + [issued[n]];
      if issued[n].Some? {
        PushAgrees(OneByOne(issued[..n]), issued[..n], issued[n].value);
      }
    }
  }

  /** Quiescent runs end in the same log as the same draws done one at a time. */
  lemma QuiescentEqualsAtomic(steps: seq<FineStep>)
    requires DistinctPayloads(FineRun(steps).issued)
    requires FineRun(steps).inflight == {}
    ensures Log(Counter(FineRun(steps)), FineRun(steps).entries) == OneByOne(FineRun(steps).issued)
  {
    QuiescentAgrees(steps);
    OneByOneAgrees(FineRun(steps).issued);
  }

  /** If the only bare INCR came first, one by one is what a run of atomic steps does. */
  lemma {:induction false} OneByOneIsRun(issued: History)
    requires GapOnlyFirst(issued)
    ensures OneByOne(issued) == Run(NO_SESSION, Pushes(issued)).log
  {
    if issued != [] {
      var n := |issued| - 1;
      OneByOneIsRun(issued[..n]);
      OneByOneAgrees(issued[..n]);
      assert Pushes(issued)[..n] == Pushes(issued[..n]);
    }
  }

  function Pushes(issued: History): seq<Step> {
    seq(|issued|, i requires 0 <= i < |issued| => if issued[i].Some? then PushStep(issued[i].value) else OpenStep)
  }

  // ---------------------------------------------------------------------------
  // Reading between a writer's INCR and its ZADD

  function FinePoll(s: Fine, cursor: nat): PollResult {
    SplitPoll(s, s, s, cursor)
  }

  predicate DrawnKnown(s: Fine, ts: nat) {
    Drawn(s, ts) && Known(s.issued[ts - 1].value)
  }

  predicate Returned(s: Fine, cursor: nat, ts: nat)
    requires DrawnKnown(s, ts)
  {
    Entry(s.issued[ts - 1].value, ts) in Delivered(Log(Counter(s), s.entries), cursor)
  }

  /** Every decodable event drawn above the cursor is among the events of a reply. */
  ghost predicate Complete(events: seq<Event>, s: Fine, cursor: nat) {
    forall t: nat :: DrawnKnown(s, t) && t > cursor ==> s.issued[t - 1].value in events
  }

  /**
   With its reads in one step, an accepted poll is complete exactly when no decodable push
   above its cursor is in flight.  Its reply moves the client to the counter either way.
   */
  lemma OneStepPollCompleteExactly(steps: seq<FineStep>, cursor: nat)
    requires DistinctPayloads(FineRun(steps).issued)
    requires FinePoll(FineRun(steps), cursor).Updates?
    ensures var s := FineRun(steps);
            && FinePoll(s, cursor).ts == Max(cursor, |s.issued|)
            && (Complete(FinePoll(s, cursor).events, s, cursor) <==>
                forall t :: t in s.inflight && t > cursor ==> !DrawnKnown(s, t))
  {
    var s := FineRun(steps);
    FineRunKeeps(steps);
    PollTs(s, cursor);
    forall t: nat | DrawnKnown(s, t) && t > cursor
      ensures s.issued[t - 1].value in FinePoll(s, cursor).events <==> t !in s.inflight
    {
      ReturnedExactly(s, cursor, t);
      AnsweredIfDelivered(s, s, cursor, t);
    }
  }

  /** With distinct payloads a poll answers with a payload exactly when it fetched its ts. */
  lemma AnsweredIfDelivered(s1: Fine, s2: Fine, cursor: nat, t: nat)
    requires FineOk(s1) && s1.issued <= s2.issued && DistinctPayloads(s2.issued)
    requires DrawnKnown(s2, t)
    ensures var got := Delivered(Log(Counter(s1), s1.entries), cursor);
            s2.issued[t - 1].value in Members(got) <==> Entry(s2.issued[t - 1].value, t) in got
  {
    var got := Delivered(Log(Counter(s1), s1.entries), cursor);
    var v := s2.issued[t - 1].value;
    if v in Members(got) {
      var i :| 0 <= i < |got| && Members(got)[i] == v;
      FetchedIsDrawn(s1, cursor, got[i]);
      SameSlot(s2.issued, t - 1, got[i].score - 1);
    }
    if Entry(v, t) in got {
      MembersHas(got, Entry(v, t));
    }
  }

  lemma FetchedIsDrawn(s: Fine, cursor: nat, x: Entry)
    requires FineOk(s) && x in Delivered(Log(Counter(s), s.entries), cursor)
    ensures 1 <= x.score <= |s.issued| && s.issued[x.score - 1] == Some(x.member)
  {
    DeliveredSpec(Log(Counter(s), s.entries), cursor);
    LandedHas(s.issued, s.inflight, |s.issued|, x);
  }

  lemma SameSlot(h: History, i: nat, j: nat)
    requires DistinctPayloads(h) && i < |h| && j < |h|
    requires h[i].Some? && h[i] == h[j]
    ensures i == j
  {
  }

  lemma PollTs(s: Fine, cursor: nat)
    requires FineOk(s) && FinePoll(s, cursor).Updates?
    ensures FinePoll(s, cursor).ts == Max(cursor, |s.issued|)
  {
    var l := Log(Counter(s), s.entries);
    LandedBelow(s.issued, s.inflight, |s.issued|);
    DeliveredSpec(l, cursor);
    HighestScoreSpec(Delivered(l, cursor));
  }

  lemma ReturnedExactly(s: Fine, cursor: nat, ts: nat)
    requires FineOk(s) && FinePoll(s, cursor).Updates?
    requires DrawnKnown(s, ts) && ts > cursor
    ensures Returned(s, cursor, ts) <==> ts !in s.inflight
  {
    var x := Entry(s.issued[ts - 1].value, ts);
    HeldExactly(s, cursor, ts);
    DeliveredSpec(Log(Counter(s), s.entries), cursor);
    assert Known(x.member) && x.score > cursor;
  }

  lemma HeldExactly(s: Fine, cursor: nat, ts: nat)
    requires FineOk(s) && !IsTooOld(Log(Counter(s), s.entries), cursor)
    requires cursor < ts && Drawn(s, ts)
    ensures Entry(s.issued[ts - 1].value, ts) in s.entries <==> ts !in s.inflight
  {
    var x := Entry(s.issued[ts - 1].value, ts);
    LandedHas(s.issued, s.inflight, |s.issued|, x);
    LandedKept(s, x, cursor);
  }

  lemma LandedKept(s: Fine, x: Entry, cursor: nat)
    requires FineOk(s) && !IsTooOld(Log(Counter(s), s.entries), cursor) && x.score > cursor
    ensures x in s.entries <==> x in Landed(s.issued, s.inflight, |s.issued|)
  {
    LandedOrdered(s.issued, s.inflight, |s.issued|);
    KeptAbove(Landed(s.issued, s.inflight, |s.issued|), s.entries, x, cursor);
  }

  /** Trimming drops nothing above a cursor that is still accepted. */
  lemma KeptAbove(z: ZSet, entries: ZSet, x: Entry, cursor: nat)
    requires Ordered(z) && x.score > cursor
    requires entries == TrimTo(z, LOG_CAP) && (entries == [] || cursor + 1 >= entries[0].score)
    ensures x in entries <==> x in z
  {
    if x in z {
      DroppedIsOlder(z, LOG_CAP, x);
    }
  }

  lemma {:induction false} IssuedGrows(steps: seq<FineStep>, more: seq<FineStep>)
    ensures FineRun(steps).issued <= FineRun(steps + more).issued
  {
    if more == [] {
      assert steps + more == steps;
    } else {
      var n := |more| - 1;
      IssuedGrows(steps, more[..n]);
      assert (steps + more)[..|steps| + n] == steps + more[..n];
    }
  }

  // ---------------------------------------------------------------------------
  // The three reads of a poll

  /** The oldest entry is read in s0, the range in s1, the counter in s2. */
  function SplitPoll(s0: Fine, s1: Fine, s2: Fine, cursor: nat): PollResult {
    if IsTooOld(Log(Counter(s0), s0.entries), cursor) then TooOld(Counter(s2))
    else
      var got := Delivered(Log(Counter(s1), s1.entries), cursor);
      Updates(Members(got), Max(cursor, Max(Counter(s2), HighestScore(got))))
  }

  /** How many events with a higher ts than t have landed. */
  function LandedAfter(s: Fine, t: nat): nat {
    |RangeAbove(Landed(s.issued, s.inflight, |s.issued|), t)|
  }

  /** At s the event of ts t has landed, and fewer than 200 later ones have. */
  predicate StillThere(s: Fine, t: nat) {
    t <= |s.issued| && t !in s.inflight && LandedAfter(s, t) < 200
  }

  lemma {:induction false} AboveCount(z: ZSet, j: nat)
    requires Ordered(z) && j < |z|
    ensures |RangeAbove(z, z[j].score)| == |z| - 1 - j
  {
    OrderedTail(z);
    if j == 0 {
      AllAbove(z[1..], z[0].score);
    } else {
      assert z[1..][j - 1] == z[j];
      AboveCount(z[1..], j - 1);
    }
  }

  lemma {:induction false} AllAbove(z: ZSet, n: nat)
    requires forall x :: x in z ==> x.score > n
    ensures RangeAbove(z, n) == z
  {
    if z != [] {
      assert z[0] in z;
      AllAbove(z[1..], n);
    }
  }

  lemma HeldByRank(s: Fine, t: nat)
    requires FineOk(s) && Drawn(s, t)
    ensures Entry(s.issued[t - 1].value, t) in s.entries <==> StillThere(s, t)
  {
    var x := Entry(s.issued[t - 1].value, t);
    LandedHas(s.issued, s.inflight, |s.issued|, x);
    RankHeld(Landed(s.issued, s.inflight, |s.issued|), s.entries, x, s);
  }

  lemma RankHeld(z: ZSet, entries: ZSet, x: Entry, s: Fine)
    requires z == Landed(s.issued, s.inflight, |s.issued|) && entries == TrimTo(z, LOG_CAP)
    ensures x in entries <==> x in z && LandedAfter(s, x.score) < LOG_CAP
  {
    LandedOrdered(s.issued, s.inflight, |s.issued|);
    if x in z {
      var j :| 0 <= j < |z| && z[j] == x;
      AboveCount(z, j);
      TrimByRank(z, LOG_CAP, j);
    }
  }

  /** Nothing with a ts beyond the draws of s1 is in s1's log. */
  lemma NotDrawnYet(s: Fine, x: Entry)
    requires FineOk(s) && x.score > |s.issued|
    ensures x !in s.entries
  {
    LandedHas(s.issued, s.inflight, |s.issued|, x);
  }

  lemma SplitTs(s1: Fine, s2: Fine, cursor: nat)
    requires FineOk(s1) && s1.issued <= s2.issued
    ensures HighestScore(Delivered(Log(Counter(s1), s1.entries), cursor)) <= Counter(s2)
  {
    var got := Delivered(Log(Counter(s1), s1.entries), cursor);
    LandedBelow(s1.issued, s1.inflight, |s1.issued|);
    DeliveredSpec(Log(Counter(s1), s1.entries), cursor);
    HighestScoreSpec(got);
  }

  lemma SplitReturned(s1: Fine, s2: Fine, cursor: nat, t: nat)
    requires FineOk(s1) && s1.issued <= s2.issued && DrawnKnown(s2, t) && t > cursor
    ensures Entry(s2.issued[t - 1].value, t) in Delivered(Log(Counter(s1), s1.entries), cursor)
            <==> StillThere(s1, t)
  {
    DeliveredSpec(Log(Counter(s1), s1.entries), cursor);
    var x := Entry(s2.issued[t - 1].value, t);
    assert x.score == t && Known(x.member);
    if t <= |s1.issued| {
      assert s1.issued[t - 1] == s2.issued[t - 1];
      HeldByRank(s1, t);
    } else {
      NotDrawnYet(s1, x);
    }
  }

  /** The decodable events among the first n drawn, above the cursor, that the log of s still holds, by ts. */
  function StillAbove(s: Fine, cursor: nat, n: nat): ZSet
    requires n <= |s.issued|
  {
    if n == 0 then []
    else
      StillAbove(s, cursor, n - 1)
      + (if n > cursor && DrawnKnown(s, n) && StillThere(s, n) then [Entry(s.issued[n - 1].value, n)] else [])
  }

  lemma {:induction false} StillAboveHas(s: Fine, cursor: nat, n: nat, x: Entry)
    requires n <= |s.issued|
    ensures x in StillAbove(s, cursor, n) <==>
              && cursor < x.score <= n && DrawnKnown(s, x.score) && StillThere(s, x.score)
              && s.issued[x.score - 1] == Some(x.member)
  {
    if n > 0 {
      StillAboveHas(s, cursor, n - 1, x);
    }
  }

  lemma {:induction false} StillAboveBelow(s: Fine, cursor: nat, n: nat)
    requires n <= |s.issued|
    ensures forall x :: x in StillAbove(s, cursor, n) ==> x.score <= n
  {
    if n > 0 {
      StillAboveBelow(s, cursor, n - 1);
    }
  }

  lemma OrderedSnoc(z: ZSet, x: Entry)
    requires Ordered(z)
    requires forall y :: y in z ==> y.score < x.score
    ensures Ordered(z + [x])
  {
    forall i | 0 <= i < |z| ensures z[i].score < x.score {
      assert z[i] in z;
    }
  }

  lemma {:induction false} StillAboveOrdered(s: Fine, cursor: nat, n: nat, z: ZSet)
    requires n <= |s.issued| && z == StillAbove(s, cursor, n)
    ensures Ordered(z)
  {
    if n > 0 {
      var front := StillAbove(s, cursor, n - 1);
      StillAboveOrdered(s, cursor, n - 1, front);
      if z != front {
        StillAboveBelow(s, cursor, n - 1);
        OrderedSnoc(front, Entry(s.issued[n - 1].value, n));
      }
    }
  }

  lemma HeldIsStillThere(s: Fine, x: Entry)
    requires FineOk(s)
    ensures x in s.entries <==>
            Drawn(s, x.score) && StillThere(s, x.score) && s.issued[x.score - 1].value == x.member
  {
    if x in s.entries {
      LandedHas(s.issued, s.inflight, |s.issued|, x);
    }
    if Drawn(s, x.score) {
      HeldByRank(s, x.score);
    }
  }

  lemma FetchedHas(l: Log, cursor: nat, x: Entry)
    ensures x in Delivered(l, cursor) <==> x in l.entries && x.score > cursor && Known(x.member)
  {
    DeliveredSpec(l, cursor);
  }

  lemma FetchedExactly(s: Fine, cursor: nat, x: Entry)
    requires FineOk(s)
    ensures x in Delivered(Log(Counter(s), s.entries), cursor) <==> x in StillAbove(s, cursor, |s.issued|)
  {
    FetchedHas(Log(Counter(s), s.entries), cursor, x);
    StillAboveHas(s, cursor, |s.issued|, x);
    HeldIsStillThere(s, x);
  }

  lemma EntriesOrdered(s: Fine)
    requires FineOk(s)
    ensures Ordered(s.entries)
  {
    LandedOrdered(s.issued, s.inflight, |s.issued|);
  }

  lemma DeliveredIsStillAbove(s: Fine, cursor: nat)
    requires FineOk(s)
    ensures Delivered(Log(Counter(s), s.entries), cursor) == StillAbove(s, cursor, |s.issued|)
  {
    var got := Delivered(Log(Counter(s), s.entries), cursor);
    EntriesOrdered(s);
    DeliveredSpec(Log(Counter(s), s.entries), cursor);
    StillAboveOrdered(s, cursor, |s.issued|, StillAbove(s, cursor, |s.issued|));
    forall x ensures x in got <==> x in StillAbove(s, cursor, |s.issued|) {
      FetchedExactly(s, cursor, x);
    }
    OrderedUnique(got, StillAbove(s, cursor, |s.issued|));
  }

  /** What a poll answers: the decodable events above its cursor still there at its range read, in ts order. */
  lemma PollAnswersExactly(before: seq<FineStep>, between: seq<FineStep>, after: seq<FineStep>, cursor: nat)
    requires DistinctPayloads(FineRun(before + between + after).issued)
    requires SplitPoll(FineRun(before), FineRun(before + between), FineRun(before + between + after), cursor).Updates?
    ensures var s1, s2 := FineRun(before + between), FineRun(before + between + after);
            SplitPoll(FineRun(before), s1, s2, cursor)
            == Updates(Members(StillAbove(s1, cursor, |s1.issued|)), Max(cursor, |s2.issued|))
  {
    var s1, s2 := FineRun(before + between), FineRun(before + between + after);
    IssuedGrows(before + between, after);
    DistinctPrefix(s1.issued, s2.issued);
    FineRunKeeps(before + between);
    SplitTs(s1, s2, cursor);
    DeliveredIsStillAbove(s1, cursor);
  }

  /**
   Exactly when: of the decodable events above its cursor that were drawn by its counter
   read, a poll that was not refused answers with those that had landed by its range read
   with fewer than 200 later ones, so it is complete if and only if all of them had.  The
   client moves to the counter either way.
   */
  lemma PollCompleteExactly(before: seq<FineStep>, between: seq<FineStep>, after: seq<FineStep>, cursor: nat)
    requires DistinctPayloads(FineRun(before + between + after).issued)
    requires SplitPoll(FineRun(before), FineRun(before + between), FineRun(before + between + after), cursor).Updates?
    ensures var s1, s2 := FineRun(before + between), FineRun(before + between + after);
            var reply := SplitPoll(FineRun(before), s1, s2, cursor);
            && reply.ts == Max(cursor, |s2.issued|)
            && (forall t: nat :: DrawnKnown(s2, t) && t > cursor ==>
                  (s2.issued[t - 1].value in reply.events <==> StillThere(s1, t)))
            && (Complete(reply.events, s2, cursor) <==>
                forall t: nat :: DrawnKnown(s2, t) && t > cursor ==> StillThere(s1, t))
  {
    var s1, s2 := FineRun(before + between), FineRun(before + between + after);
    IssuedGrows(before + between, after);
    DistinctPrefix(s1.issued, s2.issued);
    FineRunKeeps(before + between);
    SplitTs(s1, s2, cursor);
    forall t: nat | DrawnKnown(s2, t) && t > cursor
      ensures s2.issued[t - 1].value in Members(Delivered(Log(Counter(s1), s1.entries), cursor))
              <==> StillThere(s1, t)
    {
      SplitReturned(s1, s2, cursor, t);
      AnsweredIfDelivered(s1, s2, cursor, t);
    }
  }

  lemma OldestIsFirst(z: ZSet, n: nat)
    requires Ordered(z)
    ensures z != [] && n < z[0].score <==> z != [] && forall x :: x in z ==> x.score > n
  {
    assert z != [] ==> z[0] in z;
  }

  /**
   Exactly when: a poll is refused if and only if its first read found events of the
   newest 200 that had landed, all of them beyond the ts right behind its cursor.
   */
  lemma PollRefusedExactly(before: seq<FineStep>, between: seq<FineStep>, after: seq<FineStep>, cursor: nat)
    requires DistinctPayloads(FineRun(before + between + after).issued)
    ensures var s0, s1, s2 := FineRun(before), FineRun(before + between), FineRun(before + between + after);
            && (SplitPoll(s0, s1, s2, cursor).TooOld? <==>
                && (exists t: nat :: Drawn(s0, t) && StillThere(s0, t))
                && (forall t: nat :: Drawn(s0, t) && StillThere(s0, t) ==> t > cursor + 1))
            && (SplitPoll(s0, s1, s2, cursor).TooOld? ==> SplitPoll(s0, s1, s2, cursor).ts == |s2.issued|)
  {
    assert before + between + after == before + (between + after);
    IssuedGrows(before, between + after);
    DistinctPrefix(FineRun(before).issued, FineRun(before + between + after).issued);
    FineRunKeeps(before);
    StaleExactly(FineRun(before), cursor);
  }

  lemma StaleExactly(s: Fine, cursor: nat)
    requires FineOk(s)
    ensures IsTooOld(Log(Counter(s), s.entries), cursor) <==>
              && (exists t: nat :: Drawn(s, t) && StillThere(s, t))
              && (forall t: nat :: Drawn(s, t) && StillThere(s, t) ==> t > cursor + 1)
  {
    EntriesOrdered(s);
    OldestIsFirst(s.entries, cursor + 1);
    forall t: nat | Drawn(s, t) && StillThere(s, t) ensures Entry(s.issued[t - 1].value, t) in s.entries {
      HeldByRank(s, t);
    }
    forall x | x in s.entries ensures Drawn(s, x.score) && StillThere(s, x.score) {
      HeldIsStillThere(s, x);
    }
    assert s.entries != [] ==> s.entries[0] in s.entries;
  }

  /** A whole push between the range read and the counter read is passed over, with nothing ever in flight at a read. */
  lemma PushBetweenReads(e: Event)
    requires Known(e)
    ensures var s1, s2 := FineRun([]), FineRun([] + [] + [Draw(e), Land(1)]);
            && s1.inflight == {} && s2.inflight == {}
            && SplitPoll(s1, s1, s2, 0) == Updates([], 1)
            && !Complete([], s2, 0)
  {
    var steps := [Draw(e), Land(1)];
    OneDraw(e);
    assert [] + [] + steps == steps;
    assert steps[..|steps| - 1] == [Draw(e)];
    var s := FineRun([Draw(e)]);
    assert FineRun(steps) == FineNext(s, Land(1));
    assert Delivered(Log(0, []), 0) == [];
    assert DrawnKnown(FineRun(steps), 1);
  }

  lemma OneDraw(e: Event)
    ensures FineRun([Draw(e)]) == Fine([Some(e)], {1}, [])
  {
    assert [Draw(e)][..|[Draw(e)]| - 1] == [];
    assert FineRun([]) == FRESH && Enabled(FRESH, Draw(e));
    assert FineNext(FRESH, Draw(e)).issued == [Some(e)];
    assert FineNext(FRESH, Draw(e)).inflight == {1};
  }

  // ---------------------------------------------------------------------------
  // What a poll passes over is gone

  /**
   Once a client's cursor has reached the ts of an event, the event is lost to it unless it
   was delivered before: whatever happens later, no poll from there on answers with it.  Every
   reply moves the client to its counter read or beyond.
   */
  lemma NeverDelivered(
    steps: seq<FineStep>, more: seq<FineStep>, after: seq<FineStep>, s0: Fine, later: nat, t: nat)
    requires DistinctPayloads(FineRun(steps + more + after).issued)
    requires DrawnKnown(FineRun(steps), t) && later >= t
    ensures var reply := SplitPoll(s0, FineRun(steps + more), FineRun(steps + more + after), later);
            reply.Updates? ==> FineRun(steps).issued[t - 1].value !in reply.events
  {
    var s, w, last := FineRun(steps), FineRun(steps + more), FineRun(steps + more + after);
    IssuedGrows(steps, more);
    IssuedGrows(steps + more, after);
    DistinctPrefix(w.issued, last.issued);
    FineRunKeeps(steps + more);
    AnsweredIfDelivered(w, w, later, t);
    DeliveredSpec(Log(Counter(w), w.entries), later);
  }

  /** One INCR is enough: the poll that comes before the ZADD is empty and moves past the event. */
  lemma PollPassesOver(e: Event)
    requires Known(e)
    ensures var s := FineRun([Draw(e)]);
            s.inflight == {1} && FinePoll(s, 0) == Updates([], 1) && !Complete([], s, 0)
  {
    var s := FineRun([Draw(e)]);
    OneDraw(e);
    assert Delivered(Log(1, []), 0) == [];
    assert DrawnKnown(s, 1);
  }
}
