/**
 What a chain of polls delivers when every push and every poll is one step.

 The reference is the plain history of the counter: slot i holds the event that was
 pushed at ts i + 1 (none for the slot GetLongPollServer consumes to start a counter).
 A payload that is pushed again moves, so the log can only hold each payload at its
 latest slot.
 */
module EventDelivery {
  import opened Wrappers
  import opened EventLog

  type History = seq<Option<Event>>

  /** ts is the last slot that holds payload e. */
  ghost predicate IsLatest(h: History, e: Event, ts: nat) {
    && 1 <= ts <= |h|
    && h[ts - 1] == Some(e)
    && forall j :: ts <= j < |h| ==> h[j] != Some(e)
  }

  /** Every payload of the history at its latest slot, oldest first. */
  function Latest(h: History): ZSet {
    if h == [] then []
    else
      match h[|h| - 1]
      case None => Latest(h[..|h| - 1])
      case Some(e) => ZRem(Latest(h[..|h| - 1]), e) + [Entry(e, |h|)]
  }

  lemma IsLatestStep(h: History, m: Event, ts: nat)
    requires h != []
    ensures IsLatest(h, m, ts) <==>
            if h[|h| - 1] == Some(m) then ts == |h| else IsLatest(h[..|h| - 1], m, ts)
  {
    var front := h[..|h| - 1];
    if h[|h| - 1] != Some(m) && IsLatest(front, m, ts) {
      assert h[ts - 1] == front[ts - 1];
      forall j | ts <= j < |h| ensures h[j] != Some(m) {
        assert j < |front| ==> h[j] == front[j];
      }
    }
    if h[|h| - 1] != Some(m) && IsLatest(h, m, ts) {
      forall j | ts <= j < |front| ensures front[j] != Some(m) {
        assert h[j] == front[j];
      }
    }
  }

  lemma {:induction false} LatestMembers(h: History)
    ensures forall x :: x in Latest(h) <==> IsLatest(h, x.member, x.score)
  {
    if h != [] {
      var front := h[..|h| - 1];
      LatestMembers(front);
      forall x ensures x in Latest(h) <==> IsLatest(h, x.member, x.score) {
        IsLatestStep(h, x.member, x.score);
        match h[|h| - 1]
        case None =>
        case Some(e) =>
          ZRemMembers(Latest(front), e);
      }
    }
  }

  lemma {:induction false} LatestOrdered(h: History)
    ensures Ordered(Latest(h))
  {
    if h != [] {
      var front := h[..|h| - 1];
      LatestOrdered(front);
      LatestMembers(front);
      if h[|h| - 1].Some? {
        var e := h[|h| - 1].value;
        ZRemOrdered(Latest(front), e);
        ZRemMembers(Latest(front), e);
        var z := ZRem(Latest(front), e);
        forall y | y in z ensures y.score < |h| {
          assert IsLatest(front, y.member, y.score);
        }
      }
    }
  }

  lemma LatestDistinct(h: History)
    ensures DistinctMembers(Latest(h))
  {
    LatestMembers(h);
    LatestOrdered(h);
    var z := Latest(h);
    forall i, j | 0 <= i < j < |z| ensures z[i].member != z[j].member {
      assert z[i] in z && z[j] in z;
      assert IsLatest(h, z[i].member, z[i].score) && IsLatest(h, z[j].member, z[j].score);
    }
  }

  // ---------------------------------------------------------------------------
  // The log is the newest part of the history

  ghost predicate Agrees(l: Log, h: History) {
    l.ts == |h| && l.entries == TrimTo(Latest(h), LOG_CAP)
  }

  lemma {:induction false} ZRemConcat(a: ZSet, b: ZSet, m: Event)
    ensures ZRem(a + b, m) == ZRem(a, m) + ZRem(b, m)
  {
    if a == [] {
      assert a + b == b;
    } else {
      assert (a + b)[1..] == a[1..] + b;
      ZRemConcat(a[1..], b, m);
    }
  }

  lemma {:induction false} ZRemDropsAtMostOne(z: ZSet, m: Event)
    requires DistinctMembers(z)
    ensures |ZRem(z, m)| >= |z| - 1
  {
    if z != [] {
      if z[0].member == m {
        forall x | x in z[1..] ensures x.member != m {
          var i :| 1 <= i < |z| && z[i] == x;
        }
        ZRemAbsent(z[1..], m);
      } else {
        ZRemDropsAtMostOne(z[1..], m);
      }
    }
  }

  /** Trimming first does not change what is left after a push and its own trim. */
  lemma TrimThenPush(z: ZSet, m: Event, x: Entry, n: nat)
    requires DistinctMembers(z) && n > 0
    ensures TrimTo(ZRem(TrimTo(z, n), m) + [x], n) == TrimTo(ZRem(z, m) + [x], n)
  {
    if |z| > n {
      var a, b := z[..|z| - n], z[|z| - n..];
      assert z == a + b;
      ZRemConcat(a, b, m);
      ZRemDropsAtMostOne(b, m);
      assert ZRem(z, m) + [x] == ZRem(a, m) + (ZRem(b, m) + [x]);
    }
  }

  lemma PushAgrees(l: Log, h: History, e: Event)
    requires Agrees(l, h)
    ensures Agrees(Push(l, e), h + [Some(e)])
  {
    var x := Entry(e, l.ts + 1);
    var kept := ZRem(l.entries, e);
    ZRemMembers(l.entries, e);
    LatestMembers(h);
    forall y | y in kept ensures y.score < x.score {
      assert y in Latest(h);
      assert IsLatest(h, y.member, y.score);
    }
    InsertNewest(kept, x);
    LatestDistinct(h);
    TrimThenPush(Latest(h), e, x, LOG_CAP);
    assert (h + [Some(e)])[..|h|] == h;
  }

  /** In the atomic setting a poll never has to write the counter back. */
  lemma PollIsReadOnly(l: Log, h: History, cursor: nat)
    requires Agrees(l, h)
    ensures AfterPoll(l, cursor) == l
  {
    var got := Delivered(l, cursor);
    DeliveredSpec(l, cursor);
    HighestScoreSpec(got);
    LatestMembers(h);
    if got != [] {
      var x :| x in got && x.score == HighestScore(got);
      assert x in Latest(h);
      assert IsLatest(h, x.member, x.score);
    }
  }

  /**
   Delivery by one poll: unless the cursor is refused, every decodable event pushed
   after the cursor is returned, at its latest position, and the returned ts leaves
   nothing of the history behind.
   */
  lemma PollDelivers(l: Log, h: History, cursor: nat)
    requires Agrees(l, h)
    requires Poll(l, cursor).Updates?
    ensures Poll(l, cursor).ts == Max(cursor, |h|)
    ensures Covers(h, cursor, |h|, Delivered(l, cursor))
    ensures forall x :: x in Delivered(l, cursor) ==> IsLatest(h, x.member, x.score) && x.score > cursor
  {
    DeliveredSpec(l, cursor);
    LatestMembers(h);
    PollIsReadOnly(l, h, cursor);
    forall i, e | cursor <= i < |h| && h[i] == Some(e) && Known(e)
      ensures exists x :: x in Delivered(l, cursor) && x.member == e && x.score > i
    {
      var t := LatestSlot(h, e, i);
      LatestRetained(l, h, cursor, Entry(e, t));
      assert Entry(e, t) in Delivered(l, cursor);
    }
    forall x | x in Delivered(l, cursor) ensures IsLatest(h, x.member, x.score) {
      assert x in Latest(h);
    }
  }

  lemma PollCovers(l: Log, h: History, cursor: nat)
    requires Agrees(l, h)
    requires Poll(l, cursor).Updates?
    ensures Poll(l, cursor).ts == Max(cursor, |h|)
    ensures Covers(h, cursor, |h|, Delivered(l, cursor))
  {
    PollDelivers(l, h, cursor);
  }

  /** A payload has a latest slot, at or after any slot that holds it. */
  lemma {:induction false} LatestSlot(h: History, e: Event, i: nat) returns (t: nat)
    requires i < |h| && h[i] == Some(e)
    ensures IsLatest(h, e, t) && t > i
    decreases |h| - i
  {
    if j :| i < j < |h| && h[j] == Some(e) {
      t := LatestSlot(h, e, j);
    } else {
      t := i + 1;
    }
  }

  /** What trimming dropped is older than everything it kept. */
  lemma DroppedIsOlder(z: ZSet, n: nat, x: Entry)
    requires Ordered(z) && n > 0
    requires x in z
    ensures x in TrimTo(z, n) || (|z| > n && x.score < TrimTo(z, n)[0].score)
  {
    var k :| 0 <= k < |z| && z[k] == x;
    if |z| > n && k >= |z| - n {
      assert TrimTo(z, n)[k - (|z| - n)] == x;
    }
  }

  /** So a cursor that is still accepted has not lost anything above it. */
  lemma LatestRetained(l: Log, h: History, cursor: nat, x: Entry)
    requires Agrees(l, h)
    requires !IsTooOld(l, cursor)
    requires x in Latest(h) && x.score > cursor
    ensures x in l.entries
  {
    LatestOrdered(h);
    DroppedIsOlder(Latest(h), LOG_CAP, x);
  }

  // ---------------------------------------------------------------------------
  // What a client at a cursor is owed

  /** The decodable payloads whose latest slot lies above the cursor, in slot order. */
  function Owed(h: History, cursor: nat): ZSet {
    KnownOnly(RangeAbove(Latest(h), cursor))
  }

  lemma OwedSpec(h: History, cursor: nat)
    ensures Ordered(Owed(h, cursor))
    ensures forall x :: x in Owed(h, cursor) <==> IsLatest(h, x.member, x.score) && x.score > cursor && Known(x.member)
  {
    LatestOrdered(h);
    LatestMembers(h);
    RangeAboveSpec(Latest(h), cursor);
    RangeAboveOrdered(Latest(h), cursor);
    KnownOnlySpec(RangeAbove(Latest(h), cursor));
    KnownOnlyOrdered(RangeAbove(Latest(h), cursor));
  }

  lemma KeptIsOwed(l: Log, h: History, cursor: nat, x: Entry)
    requires Agrees(l, h) && !IsTooOld(l, cursor)
    ensures x in Delivered(l, cursor) <==> x in Owed(h, cursor)
  {
    DeliveredSpec(l, cursor);
    OwedSpec(h, cursor);
    LatestHas(h, x);
    if x in Latest(h) && x.score > cursor {
      LatestRetained(l, h, cursor, x);
    }
  }

  /** An accepted poll answers with exactly what is owed, trimming or not. */
  lemma PollPaysOwed(l: Log, h: History, cursor: nat)
    requires Agrees(l, h) && !IsTooOld(l, cursor)
    ensures Delivered(l, cursor) == Owed(h, cursor)
    ensures Poll(l, cursor) == Updates(Members(Owed(h, cursor)), Max(cursor, |h|))
  {
    TrimmedOrdered(l, h);
    DeliveredSpec(l, cursor);
    OwedSpec(h, cursor);
    forall x ensures x in Delivered(l, cursor) <==> x in Owed(h, cursor) {
      KeptIsOwed(l, h, cursor, x);
    }
    OrderedUnique(Delivered(l, cursor), Owed(h, cursor));
    PollDelivers(l, h, cursor);
  }

  // ---------------------------------------------------------------------------
  // A client that chains its polls, among any other activity on the same log

  /**
   `base` is the cursor the client was last given afresh, `got` the positions its
   polls have returned since then, `all` those they have returned ever.
   */
  datatype Session = Session(log: Log, hist: History, base: nat, cursor: nat, got: ZSet, all: ZSet)

  const NO_SESSION := Session(Log(0, []), [], 0, 0, [], [])

  datatype Step =
    | PushStep(e: Event)
    | OpenStep            // GetLongPollServer called for another client
    | OtherPoll(at: nat)  // another client polls the same log
    | Connect             // GetLongPollServer called for this client
    | PollStep            // this client polls with its cursor

  function Next(s: Session, st: Step): Session {
    match st
    case PushStep(e) => s.(log := Push(s.log, e), hist := s.hist + [Some(e)])
    case OpenStep => Opened(s)
    case OtherPoll(at) => s.(log := AfterPoll(s.log, at))
    case Connect =>
      var o := Opened(s);
      o.(base := o.log.ts, cursor := o.log.ts, got := [])
    case PollStep =>
      match Poll(s.log, s.cursor)
      case TooOld(ts) => s.(base := ts, cursor := ts, got := [])
      case Updates(events, ts) =>
        var batch := Delivered(s.log, s.cursor);
        s.(log := AfterPoll(s.log, s.cursor), cursor := ts, got := s.got + batch, all := s.all + batch)
  }

  function Opened(s: Session): Session {
    s.(log := OpenServer(s.log), hist := if s.log.ts == 0 then s.hist + [None] else s.hist)
  }

  function Run(s: Session, steps: seq<Step>): Session {
    if steps == [] then s else Next(Run(s, steps[..|steps| - 1]), steps[|steps| - 1])
  }

  /** Every decodable event of slots lo..hi is in `got`, at its slot or a later one. */
  ghost predicate Covers(h: History, lo: nat, hi: nat, got: ZSet) {
    forall i, e :: lo <= i < hi && i < |h| && h[i] == Some(e) && Known(e) ==>
      exists x :: x in got && x.member == e && x.score > i
  }

  /** Strictly rising positions within (lo, hi]: no position is returned twice. */
  ghost predicate Rising(lo: nat, hi: nat, got: ZSet) {
    Ordered(got) && forall x :: x in got ==> lo < x.score <= hi
  }

  ghost predicate Truthful(h: History, got: ZSet) {
    forall x :: x in got ==> 1 <= x.score <= |h| && h[x.score - 1] == Some(x.member)
  }

  /** `got` is a faithful account of the slots between the two cursors. */
  ghost predicate Accounts(h: History, lo: nat, hi: nat, got: ZSet) {
    Covers(h, lo, hi, got) && Rising(lo, hi, got) && Truthful(h, got)
  }

  ghost predicate SessionOk(s: Session) {
    && Agrees(s.log, s.hist)
    && s.base <= s.cursor <= |s.hist|
    && Accounts(s.hist, s.base, s.cursor, s.got)
    && Rising(0, s.cursor, s.all)
    && Truthful(s.hist, s.all)
  }

  lemma OpenAgrees(s: Session)
    requires Agrees(s.log, s.hist)
    ensures Agrees(Opened(s).log, Opened(s).hist)
  {
    if s.log.ts == 0 {
      assert (s.hist + [None])[..|s.hist|] == s.hist;
    }
  }

  lemma TrimmedOrdered(l: Log, h: History)
    requires Agrees(l, h)
    ensures Ordered(l.entries)
  {
    LatestOrdered(h);
  }

  lemma OrderedConcat(a: ZSet, b: ZSet, mid: nat)
    requires Ordered(a) && Ordered(b)
    requires forall x :: x in a ==> x.score <= mid
    requires forall x :: x in b ==> x.score > mid
    ensures Ordered(a + b)
  {
    forall i, j | 0 <= i < j < |a + b| ensures (a + b)[i].score < (a + b)[j].score {
      if i < |a| <= j {
        assert a[i] in a && b[j - |a|] in b;
      }
    }
  }

  lemma CoversConcat(h: History, lo: nat, mid: nat, hi: nat, a: ZSet, b: ZSet)
    requires Covers(h, lo, mid, a) && Covers(h, mid, hi, b)
    ensures Covers(h, lo, hi, a + b)
  {
    forall i, e | lo <= i < hi && i < |h| && h[i] == Some(e) && Known(e)
      ensures exists x :: x in a + b && x.member == e && x.score > i
    {
      if i < mid {
        var x :| x in a && x.member == e && x.score > i;
        assert x in a + b;
      } else {
        var x :| x in b && x.member == e && x.score > i;
        assert x in a + b;
      }
    }
  }

  lemma AccountsConcat(h: History, lo: nat, mid: nat, hi: nat, a: ZSet, b: ZSet)
    requires lo <= mid <= hi
    requires Accounts(h, lo, mid, a) && Accounts(h, mid, hi, b)
    ensures Accounts(h, lo, hi, a + b)
  {
    CoversConcat(h, lo, mid, hi, a, b);
    OrderedConcat(a, b, mid);
  }

  lemma AccountsGrow(h: History, v: Option<Event>, lo: nat, hi: nat, got: ZSet)
    requires hi <= |h| && Accounts(h, lo, hi, got)
    ensures Accounts(h + [v], lo, hi, got)
  {
  }

  lemma DeliveredAccounts(l: Log, h: History, cursor: nat)
    requires Agrees(l, h) && Poll(l, cursor).Updates?
    ensures Accounts(h, cursor, |h|, Delivered(l, cursor))
  {
    PollDelivers(l, h, cursor);
    DeliveredSpec(l, cursor);
    TrimmedOrdered(l, h);
    forall x | x in Delivered(l, cursor)
      ensures cursor < x.score <= |h| && h[x.score - 1] == Some(x.member)
    {
      assert IsLatest(h, x.member, x.score);
    }
  }

  /** What is owed at a cursor accounts for every slot since, in any longer history too. */
  lemma OwedAccounts(h: History, later: History, cursor: nat)
    requires h <= later && cursor <= |h|
    ensures Accounts(later, cursor, |h|, Owed(h, cursor))
  {
    OwedSpec(h, cursor);
    forall i, e | cursor <= i < |h| && i < |later| && later[i] == Some(e) && Known(e)
      ensures exists x :: x in Owed(h, cursor) && x.member == e && x.score > i
    {
      var t := LatestSlot(h, e, i);
      assert Entry(e, t) in Owed(h, cursor);
    }
    forall x | x in Owed(h, cursor)
      ensures cursor < x.score <= |h| && later[x.score - 1] == Some(x.member)
    {
      assert IsLatest(h, x.member, x.score);
    }
  }

  lemma PollKeepsSession(s: Session)
    requires SessionOk(s)
    ensures SessionOk(Next(s, PollStep))
  {
    if Poll(s.log, s.cursor).Updates? {
      PollIsReadOnly(s.log, s.hist, s.cursor);
      PollDelivers(s.log, s.hist, s.cursor);
      DeliveredAccounts(s.log, s.hist, s.cursor);
      AccountsConcat(s.hist, s.base, s.cursor, |s.hist|, s.got, Delivered(s.log, s.cursor));
      OrderedConcat(s.all, Delivered(s.log, s.cursor), s.cursor);
    }
  }

  /** The history grows by a slot and the log with it; the client's account stays right. */
  lemma GrowKeepsSession(s: Session, l: Log, v: Option<Event>)
    requires SessionOk(s) && Agrees(l, s.hist + [v])
    ensures SessionOk(s.(log := l, hist := s.hist + [v]))
  {
    AccountsGrow(s.hist, v, s.base, s.cursor, s.got);
  }

  lemma OpenKeepsSession(s: Session)
    requires SessionOk(s)
    ensures SessionOk(Opened(s))
  {
    OpenAgrees(s);
    if s.log.ts == 0 {
      GrowKeepsSession(s, OpenServer(s.log), None);
    }
  }

  /** Starting over at the end of the history leaves nothing to account for. */
  lemma RestartKeepsSession(s: Session)
    requires SessionOk(s)
    ensures SessionOk(s.(base := |s.hist|, cursor := |s.hist|, got := []))
  {
  }

  lemma StepKeepsSession(s: Session, st: Step)
    requires SessionOk(s)
    ensures SessionOk(Next(s, st))
  {
    match st
    case PushStep(e) =>
      PushAgrees(s.log, s.hist, e);
      GrowKeepsSession(s, Push(s.log, e), Some(e));
    case OpenStep =>
      OpenKeepsSession(s);
    case OtherPoll(at) =>
      PollIsReadOnly(s.log, s.hist, at);
    case Connect =>
      OpenKeepsSession(s);
      RestartKeepsSession(Opened(s));
    case PollStep =>
      PollKeepsSession(s);
  }

  /**
   Main result, atomic grain: whatever else happens to the log, a client that chains
   the returned ts never skips a decodable event between fresh cursors, and never in the
   whole run receives a position twice.
   */
  lemma {:induction false} ChainedPollsLoseNothing(steps: seq<Step>)
    ensures SessionOk(Run(NO_SESSION, steps))
  {
    if steps != [] {
      ChainedPollsLoseNothing(steps[..|steps| - 1]);
      StepKeepsSession(Run(NO_SESSION, steps[..|steps| - 1]), steps[|steps| - 1]);
    }
  }

  // ---------------------------------------------------------------------------
  // When a cursor is refused

  ghost predicate DistinctPayloads(h: History) {
    forall i, j :: 0 <= i < j < |h| && h[i].Some? ==> h[i] != h[j]
  }

  ghost predicate GapOnlyFirst(h: History) {
    forall i :: 0 < i < |h| ==> h[i].Some?
  }

  /** How many events were pushed at a ts above c. */
  function PushedAfter(h: History, c: nat): nat {
    if |h| <= c then 0
    else PushedAfter(h[..|h| - 1], c) + (if h[|h| - 1].Some? then 1 else 0)
  }

  function FirstSlot(h: History): nat {
    if h != [] && h[0].None? then 1 else 0
  }

  lemma {:induction false} LatestOfDistinct(h: History)
    requires DistinctPayloads(h) && GapOnlyFirst(h)
    ensures |Latest(h)| == |h| - FirstSlot(h)
    ensures forall i :: 0 <= i < |Latest(h)| ==> Latest(h)[i].score == FirstSlot(h) + i + 1
  {
    if h != [] {
      var front := h[..|h| - 1];
      LatestOfDistinct(front);
      if h[|h| - 1].Some? {
        var e := h[|h| - 1].value;
        LatestMembers(front);
        forall x | x in Latest(front) ensures x.member != e {
          assert IsLatest(front, x.member, x.score);
          assert h[x.score - 1] == front[x.score - 1];
        }
        ZRemAbsent(Latest(front), e);
      }
    }
  }

  lemma {:induction false} PushedAfterCount(h: History, c: nat)
    requires GapOnlyFirst(h)
    ensures PushedAfter(h, c) == if c >= |h| then 0 else |h| - Max(c, FirstSlot(h))
  {
    if |h| > c {
      PushedAfterCount(h[..|h| - 1], c);
    }
  }

  lemma GapStep(s: Session, st: Step)
    requires s.log.ts == |s.hist| && GapOnlyFirst(s.hist)
    ensures GapOnlyFirst(Next(s, st).hist)
  {
  }

  lemma {:induction false} RunGapOnlyFirst(steps: seq<Step>)
    ensures GapOnlyFirst(Run(NO_SESSION, steps).hist)
  {
    if steps != [] {
      var front := steps[..|steps| - 1];
      RunGapOnlyFirst(front);
      ChainedPollsLoseNothing(front);
      GapStep(Run(NO_SESSION, front), steps[|steps| - 1]);
    }
  }

  /** The different payloads of a stretch of history. */
  function Payloads(h: History): set<Event> {
    set i | 0 <= i < |h| && h[i].Some? :: h[i].value
  }

  function MembersOf(z: ZSet): set<Event> {
    set x | x in z :: x.member
  }

  /** The position in an ordered list of the first entry scored above n. */
  function FirstAbove(z: ZSet, n: nat): (k: nat)
    ensures k <= |z|
    ensures forall i :: 0 <= i < k ==> z[i].score <= n
    ensures k < |z| ==> z[k].score > n
  {
    if z == [] || z[0].score > n then 0 else 1 + FirstAbove(z[1..], n)
  }

  lemma {:induction false} MembersCount(z: ZSet)
    requires DistinctMembers(z)
    ensures |MembersOf(z)| == |z|
  {
    if z != [] {
      var front, last := z[..|z| - 1], z[|z| - 1];
      MembersCount(front);
      assert z == front + [last];
      assert MembersOf(z) == MembersOf(front) + {last.member};
    }
  }

  lemma AboveIn(z: ZSet, n: nat, j: nat)
    requires j < |z| && z[j].score > n
    ensures z[j] in z[FirstAbove(z, n)..]
  {
    assert z[FirstAbove(z, n)..][j - FirstAbove(z, n)] == z[j];
  }

  lemma AbovePast(z: ZSet, n: nat, j: nat)
    requires Ordered(z) && FirstAbove(z, n) <= j < |z|
    ensures z[j].score > n
  {
    assert j > FirstAbove(z, n) ==> z[FirstAbove(z, n)].score < z[j].score;
  }

  lemma AboveHas(z: ZSet, n: nat, x: Entry)
    requires Ordered(z)
    ensures x in z[FirstAbove(z, n)..] <==> x in z && x.score > n
  {
    var k := FirstAbove(z, n);
    if x in z && x.score > n {
      var j :| 0 <= j < |z| && z[j] == x;
      AboveIn(z, n, j);
    }
    if x in z[k..] {
      var j :| 0 <= j < |z| - k && z[k..][j] == x;
      AbovePast(z, n, k + j);
    }
  }

  /** A payload occurs from slot n on exactly when its latest slot lies there. */
  lemma PayloadsAbove(h: History, n: nat)
    requires n <= |h|
    ensures var z := Latest(h);
            MembersOf(z[FirstAbove(z, n)..]) == Payloads(h[n..])
  {
    var z := Latest(h);
    var above := z[FirstAbove(z, n)..];
    LatestOrdered(h);
    forall e | e in Payloads(h[n..]) ensures e in MembersOf(above) {
      var i :| 0 <= i < |h[n..]| && h[n..][i] == Some(e);
      var t := LatestSlot(h, e, n + i);
      LatestHas(h, Entry(e, t));
      AboveHas(z, n, Entry(e, t));
      assert Entry(e, t) in above;
    }
    forall x | x in above ensures x.member in Payloads(h[n..]) {
      AboveHas(z, n, x);
      LatestHas(h, x);
      assert h[n..][x.score - 1 - n] == Some(x.member);
    }
  }

  lemma LatestHas(h: History, x: Entry)
    ensures x in Latest(h) <==> IsLatest(h, x.member, x.score)
  {
    LatestMembers(h);
  }

  lemma PayloadsAboveCount(h: History, n: nat)
    requires n <= |h|
    ensures |Payloads(h[n..])| == |Latest(h)| - FirstAbove(Latest(h), n)
  {
    var z := Latest(h);
    LatestDistinct(h);
    PayloadsAbove(h, n);
    MembersCount(z[FirstAbove(z, n)..]);
  }

  lemma PayloadsCount(h: History)
    ensures |Payloads(h)| == |Latest(h)|
  {
    PayloadsAboveCount(h, 0);
    LatestMembers(h);
    assert h[0..] == h;
    var z := Latest(h);
    assert z != [] ==> z[0] in z && IsLatest(h, z[0].member, z[0].score);
  }

  /** The slots pushed after the one right behind cursor c: those above ts c + 1. */
  function Beyond(h: History, c: nat): History {
    if c + 1 <= |h| then h[c + 1..] else []
  }

  lemma OldestKept(l: Log, h: History)
    requires Agrees(l, h)
    ensures var z := Latest(h);
            && (l.entries == [] <==> z == [])
            && (z != [] ==> l.entries[0] == z[|z| - Min(|z|, LOG_CAP)])
  {
  }

  lemma AboveByPosition(z: ZSet, n: nat, j: nat)
    requires Ordered(z) && j < |z|
    ensures z[j].score > n <==> FirstAbove(z, n) <= j
  {
    var k := FirstAbove(z, n);
    assert k < j ==> z[k].score < z[j].score;
  }

  lemma BeyondCount(h: History, c: nat, j: nat)
    requires j < |Latest(h)|
    ensures Latest(h)[j].score > c + 1 <==> |Payloads(Beyond(h, c))| >= |Latest(h)| - j
  {
    LatestOrdered(h);
    if c + 1 <= |h| {
      AboveByPosition(Latest(h), c + 1, j);
      PayloadsAboveCount(h, c + 1);
    } else {
      ScoresInside(h, j);
      assert Payloads([]) == {};
    }
  }

  lemma ScoresInside(h: History, j: nat)
    requires j < |Latest(h)|
    ensures 1 <= Latest(h)[j].score <= |h|
  {
    LatestHas(h, Latest(h)[j]);
  }

  lemma RefusedByPayloads(l: Log, h: History, c: nat)
    requires Agrees(l, h)
    ensures IsTooOld(l, c) <==>
            |Payloads(h)| > 0 && |Payloads(Beyond(h, c))| >= Min(|Payloads(h)|, LOG_CAP)
  {
    var z := Latest(h);
    PayloadsCount(h);
    OldestKept(l, h);
    if z != [] {
      BeyondCount(h, c, |z| - Min(|z|, LOG_CAP));
    }
  }

  /**
   Exactly when, for every run and every cursor: a cursor is refused if and only if the
   events pushed beyond the slot right behind it repeat every payload there is, or carry
   at least 200 different ones.
   */
  lemma RefusedExactly(steps: seq<Step>, c: nat)
    ensures var s := Run(NO_SESSION, steps);
            IsTooOld(s.log, c) <==>
            |Payloads(s.hist)| > 0 && |Payloads(Beyond(s.hist, c))| >= Min(|Payloads(s.hist)|, 200)
  {
    ChainedPollsLoseNothing(steps);
    RefusedByPayloads(Run(NO_SESSION, steps).log, Run(NO_SESSION, steps).hist, c);
  }

  /**
   In every run whose payloads are pairwise distinct, a cursor is refused exactly when
   more than 200 events were pushed after it.  Cursor 0, which the server never hands
   out, is refused as well when slot 1 was spent on starting the counter.
   */
  lemma DistinctRefusedExactly(steps: seq<Step>, c: nat)
    requires DistinctPayloads(Run(NO_SESSION, steps).hist)
    ensures var s := Run(NO_SESSION, steps);
            IsTooOld(s.log, c) <==>
            (PushedAfter(s.hist, c) > 200 || (c == 0 && |s.hist| > 1 && s.hist[0].None?))
  {
    var s := Run(NO_SESSION, steps);
    ChainedPollsLoseNothing(steps);
    RunGapOnlyFirst(steps);
    LatestOfDistinct(s.hist);
    PushedAfterCount(s.hist, c);
    var z := Latest(s.hist);
    if |z| > LOG_CAP {
      assert s.log.entries[0] == z[|z| - LOG_CAP];
    }
  }

  /** A fresh cursor is the end of the history: on connecting, and after a refusal. */
  lemma FreshCursorIsCurrent(steps: seq<Step>, st: Step)
    requires st == Connect ||
             (st == PollStep && Poll(Run(NO_SESSION, steps).log, Run(NO_SESSION, steps).cursor).TooOld?)
    ensures var s := Run(NO_SESSION, steps + [st]);
            s.base == s.cursor == |s.hist| && s.got == []
  {
    ChainedPollsLoseNothing(steps);
    ChainedPollsLoseNothing(steps + [st]);
    assert (steps + [st])[..|steps|] == steps;
  }

  /** Cursors handed out by GetLongPollServer, and those chained from them, start at 1. */
  lemma {:induction false} HandedOutCursors(steps: seq<Step>)
    requires Connect in steps
    ensures Run(NO_SESSION, steps).cursor >= 1
  {
    var front, last := steps[..|steps| - 1], steps[|steps| - 1];
    assert steps == front + [last];
    ChainedPollsLoseNothing(front);
    if Connect in front {
      HandedOutCursors(front);
    }
    CursorStaysAbove(Run(NO_SESSION, front), last);
  }

  lemma CursorStaysAbove(s: Session, st: Step)
    requires SessionOk(s)
    requires s.cursor >= 1 || st == Connect
    ensures Next(s, st).cursor >= 1
  {
  }

  /**
   Distinct payloads matter: with the same payload pushed twice around another one, a
   client that was handed cursor 1 and missed three events is told that history is outdated.
   */
  lemma RepeatedPayloadRefusesEarly(a: Event, b: Event)
    requires a != b
    ensures var steps := [Connect, PushStep(a), PushStep(b), PushStep(a)];
            var s := Run(NO_SESSION, steps);
            s.cursor == 1 && IsTooOld(s.log, s.cursor) && PushedAfter(s.hist, s.cursor) == 3
  {
    var steps, h := [Connect, PushStep(a), PushStep(b), PushStep(a)], [None, Some(a), Some(b), Some(a)];
    ConnectThenPushes(a, b, a);
    PushedAfterCount(h, 1);
    RefusedExactly(steps, 1);
    assert Beyond(h, 1) == [Some(b), Some(a)];
    assert Payloads(h) == {a, b} by {
      assert h[1] == Some(a) && h[2] == Some(b);
    }
    assert Payloads([Some(b), Some(a)]) == {a, b} by {
      assert [Some(b), Some(a)][0] == Some(b) && [Some(b), Some(a)][1] == Some(a);
    }
  }

  lemma ConnectThenPushes(a: Event, b: Event, c: Event)
    ensures var s := Run(NO_SESSION, [Connect, PushStep(a), PushStep(b), PushStep(c)]);
            s.hist == [None, Some(a), Some(b), Some(c)] && s.cursor == 1
  {
    RunPush([Connect], a);
    RunPush([Connect] + [PushStep(a)], b);
    RunPush([Connect] + [PushStep(a)] + [PushStep(b)], c);
    assert [Connect][..0] == [];
    assert [Connect, PushStep(a), PushStep(b), PushStep(c)]
           == [Connect] + [PushStep(a)] + [PushStep(b)] + [PushStep(c)];
  }

  lemma RunPush(steps: seq<Step>, e: Event)
    ensures Run(NO_SESSION, steps + [PushStep(e)]).hist == Run(NO_SESSION, steps).hist + [Some(e)]
    ensures Run(NO_SESSION, steps + [PushStep(e)]).cursor == Run(NO_SESSION, steps).cursor
  {
    assert (steps + [PushStep(e)])[..|steps|] == steps;
  }

  /** A payload held right after the cursor and again later leaves a hole there. */
  lemma RepeatLeavesHole(l: Log, h: History, cursor: nat, e: Event)
    requires Agrees(l, h)
    requires cursor + 2 < |h| && h[cursor] == h[|h| - 1] == Some(e)
    requires cursor == 0 || (cursor == 1 && h[0] == None)
    ensures IsTooOld(l, cursor)
  {
    LatestMembers(h);
    assert IsLatest(h, e, |h|);
    assert Entry(e, |h|) in Latest(h);
    forall x | x in l.entries ensures x.score > cursor + 1 {
      assert x in Latest(h);
      LatestAboveHole(h, cursor, e, x);
    }
  }

  lemma LatestAboveHole(h: History, cursor: nat, e: Event, x: Entry)
    requires IsLatest(h, x.member, x.score)
    requires cursor + 2 < |h| && h[cursor] == h[|h| - 1] == Some(e)
    requires cursor == 0 || (cursor == 1 && h[0] == None)
    ensures x.score > cursor + 1
  {
    assert h[x.score - 1] == Some(x.member);
    var last := |h| - 1;
    assert last < x.score || h[last] != Some(x.member);
  }
}
