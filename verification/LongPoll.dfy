/**
 The long-poll handler and its wake-up (src/transport/longpoll/longpoll.go), as a state
 machine over any number of requests of one user and any number of pushers.

 A pusher logs its event, then runs Notify: it walks the subscriber list under the read
 lock and fills one channel at a time.  Subscribing and unsubscribing take the write
 lock, so they wait for walks to end.  A request subscribes, reads the log, and then
 waits for its channel, its timer, or the client hanging up.
 Requests and their channels share one numbering.
 */
module LongPoll {
  import opened Wrappers
  import opened EventLog
  import opened EventDelivery
  import opened Broadcaster

  datatype Reply =
    | Failed(ts: nat)                      // history outdated
    | Batch(events: seq<Event>, ts: nat)
    | Idle(ts: nat)                        // the timer ran out
    | Dropped                              // the client went away

  datatype Phase =
    | Arrived               // before Subscribe
    | Listening             // subscribed, log not read yet
    | Waiting               // in the select
    | Woken                 // took the token, log not read again yet
    | Expired               // took the timer branch, counter not read yet
    | Leaving(reply: Reply) // replied, deferred Unsubscribe still to run
    | Gone(reply: Reply)

  datatype Request = Request(cursor: nat, phase: Phase)

  datatype Pusher = Logged | Walking(rest: seq<nat>) | Finished

  datatype Sys = Sys(
    log: Log, hist: History,
    subs: seq<nat>, tokens: set<nat>,
    requests: map<nat, Request>, pushers: map<nat, Pusher>)

  const QUIET := Sys(Log(0, []), [], [], {}, map[], map[])

  datatype Action =
    | OpenCounter
    | LogEvent(p: nat, e: Event)
    | StartWalk(p: nat)
    | FillNext(p: nat)
    | EndWalk(p: nat)
    | Arrive(h: nat, cursor: nat)
    | Subscribe(h: nat)
    | FirstRead(h: nat)
    | Receive(h: nat)
    | SecondRead(h: nat)
    | TimerFires(h: nat)
    | ReadCounter(h: nat)
    | HangUp(h: nat)
    | Unsubscribe(h: nat)

  ghost predicate Unlocked(s: Sys) {
    forall p :: p in s.pushers ==> !s.pushers[p].Walking?
  }

  predicate At(s: Sys, h: nat, ph: Phase) {
    h in s.requests && s.requests[h].phase == ph
  }

  predicate PusherAt(s: Sys, p: nat, ps: Pusher) {
    p in s.pushers && s.pushers[p] == ps
  }

  ghost predicate Can(s: Sys, a: Action) {
    match a
    case OpenCounter => s.log.ts == 0
    case LogEvent(p, e) => p !in s.pushers
    case StartWalk(p) => PusherAt(s, p, Logged)
    case FillNext(p) => p in s.pushers && s.pushers[p].Walking? && s.pushers[p].rest != []
    case EndWalk(p) => PusherAt(s, p, Walking([]))
    case Arrive(h, cursor) => h !in s.requests
    case Subscribe(h) => At(s, h, Arrived) && Unlocked(s)
    case FirstRead(h) => At(s, h, Listening)
    case Receive(h) => At(s, h, Waiting) && h in s.tokens
    case SecondRead(h) => At(s, h, Woken)
    case TimerFires(h) => At(s, h, Waiting)
    case ReadCounter(h) => At(s, h, Expired)
    case HangUp(h) => At(s, h, Waiting)
    case Unsubscribe(h) => h in s.requests && s.requests[h].phase.Leaving? && Unlocked(s)
  }

  function Goto(s: Sys, h: nat, ph: Phase): Sys
    requires h in s.requests
  {
    s.(requests := s.requests[h := s.requests[h].(phase := ph)])
  }

  function AfterFirstRead(l: Log, cursor: nat): Phase {
    match Poll(l, cursor)
    case TooOld(ts) => Leaving(Failed(ts))
    case Updates(events, ts) => if events != [] then Leaving(Batch(events, ts)) else Waiting
  }

  /** The second read ignores the error: an outdated cursor yields an empty batch. */
  function SecondReply(l: Log, cursor: nat): Reply {
    match Poll(l, cursor)
    case TooOld(ts) => Batch([], ts)
    case Updates(events, ts) => Batch(events, ts)
  }

  function Act(s: Sys, a: Action): Sys
    requires Can(s, a)
  {
    match a
    case OpenCounter => s.(log := OpenServer(s.log), hist := s.hist + [None])
    case LogEvent(p, e) =>
      s.(log := Push(s.log, e), hist := s.hist + [Some(e)], pushers := s.pushers[p := Logged])
    case StartWalk(p) => s.(pushers := s.pushers[p := Walking(s.subs)])
    case FillNext(p) =>
      var rest := s.pushers[p].rest;
      s.(tokens := s.tokens + {rest[0]}, pushers := s.pushers[p := Walking(rest[1..])])
    case EndWalk(p) => s.(pushers := s.pushers[p := Finished])
    case Arrive(h, cursor) => s.(requests := s.requests[h := Request(cursor, Arrived)])
    case Subscribe(h) => Goto(s, h, Listening).(subs := s.subs + [h])
    case FirstRead(h) =>
      var c := s.requests[h].cursor;
      Goto(s, h, AfterFirstRead(s.log, c)).(log := AfterPoll(s.log, c))
    case Receive(h) => Goto(s, h, Woken).(tokens := s.tokens - {h})
    case SecondRead(h) =>
      var c := s.requests[h].cursor;
      Goto(s, h, Leaving(SecondReply(s.log, c))).(log := AfterPoll(s.log, c))
    case TimerFires(h) => Goto(s, h, Expired)
    case ReadCounter(h) =>
      Goto(s, h, Leaving(Idle(if s.log.ts == 0 then s.requests[h].cursor else s.log.ts)))
    case HangUp(h) => Goto(s, h, Leaving(Dropped))
    case Unsubscribe(h) =>
      Goto(s, h, Gone(s.requests[h].phase.reply)).(subs := RemoveFirst(s.subs, h))
  }

  /** The runs: actions that are not possible do not happen. */
  ghost function Exec(acts: seq<Action>): Sys {
    if acts == [] then QUIET
    else
      var s := Exec(acts[..|acts| - 1]);
      var a := acts[|acts| - 1];
      if Can(s, a) then Act(s, a) else s
  }

  // ---------------------------------------------------------------------------
  // What every interleaving keeps

  /** A decodable event was pushed above the cursor. */
  ghost predicate Missing(h: History, cursor: nat) {
    exists i, e :: cursor <= i < |h| && h[i] == Some(e) && Known(e)
  }

  predicate Subscribed(ph: Phase) {
    ph.Listening? || ph.Waiting? || ph.Woken? || ph.Expired? || ph.Leaving?
  }

  /** Some push is still going to fill h's channel. */
  ghost predicate WillFill(s: Sys, h: nat) {
    exists p :: p in s.pushers && (s.pushers[p].Logged? || (s.pushers[p].Walking? && h in s.pushers[p].rest))
  }

  ghost predicate SubscribersOk(s: Sys) {
    ListOk(s) && TokensOk(s)
  }

  /** The list holds every subscribed request once. */
  ghost predicate ListOk(s: Sys) {
    && Distinct(s.subs)
    && (forall h :: h in s.subs <==> h in s.requests && Subscribed(s.requests[h].phase))
  }

  /** Tokens only go to requests that have subscribed. */
  ghost predicate TokensOk(s: Sys) {
    && (forall h :: h in s.tokens ==> h in s.requests && !s.requests[h].phase.Arrived?)
    && (forall p, h :: p in s.pushers && s.pushers[p].Walking? && h in s.pushers[p].rest ==>
          h in s.requests && !s.requests[h].phase.Arrived?)
  }

  /** No lost wake-up: a request that waits while an event lies above its cursor has a token coming. */
  ghost predicate NoLostWakeup(s: Sys) {
    forall h: nat :: NeedsWaking(s, h) ==> h in s.tokens || WillFill(s, h)
  }

  ghost predicate SysOk(s: Sys) {
    Agrees(s.log, s.hist) && SubscribersOk(s) && NoLostWakeup(s)
  }

  /** An accepted poll that returns nothing has nothing above its cursor to return. */
  lemma EmptyPollMissesNothing(l: Log, h: History, cursor: nat)
    requires Agrees(l, h)
    requires Poll(l, cursor).Updates? && Poll(l, cursor).events == []
    ensures !Missing(h, cursor)
  {
    PollCovers(l, h, cursor);
    assert |Members(Delivered(l, cursor))| == |Delivered(l, cursor)|;
    CoveredByNothing(h, cursor, Delivered(l, cursor));
  }

  lemma CoveredByNothing(h: History, cursor: nat, got: ZSet)
    requires Covers(h, cursor, |h|, got) && got == []
    ensures !Missing(h, cursor)
  {
  }

  lemma AgreesStep(s: Sys, a: Action)
    requires SysOk(s) && Can(s, a)
    ensures Agrees(Act(s, a).log, Act(s, a).hist)
  {
    match a
    case OpenCounter =>
      assert (s.hist + [None])[..|s.hist|] == s.hist;
    case LogEvent(p, e) => PushAgrees(s.log, s.hist, e);
    case FirstRead(h) => PollIsReadOnly(s.log, s.hist, s.requests[h].cursor);
    case SecondRead(h) => PollIsReadOnly(s.log, s.hist, s.requests[h].cursor);
    case _ =>
  }

  lemma ListStep(s: Sys, a: Action)
    requires ListOk(s) && Can(s, a)
    ensures ListOk(Act(s, a))
  {
    match a
    case Unsubscribe(h) => RemoveFirstDistinct(s.subs, h);
    case _ =>
  }

  /** A request that has subscribed once never goes back. */
  lemma StaysSubscribed(s: Sys, a: Action, h: nat)
    requires Can(s, a) && h in s.requests && !s.requests[h].phase.Arrived?
    ensures h in Act(s, a).requests && !Act(s, a).requests[h].phase.Arrived?
  {
  }

  lemma TokensStep(s: Sys, a: Action)
    requires SubscribersOk(s) && Can(s, a)
    ensures TokensOk(Act(s, a))
  {
    var next := Act(s, a);
    forall h | h in next.tokens
      ensures h in next.requests && !next.requests[h].phase.Arrived?
    {
      assert h in s.tokens || (a.FillNext? && h in s.pushers[a.p].rest);
      StaysSubscribed(s, a, h);
    }
    forall p, h | p in next.pushers && next.pushers[p].Walking? && h in next.pushers[p].rest
      ensures h in next.requests && !next.requests[h].phase.Arrived?
    {
      assert h in s.subs || (p in s.pushers && s.pushers[p].Walking? && h in s.pushers[p].rest);
      StaysSubscribed(s, a, h);
    }
  }

  ghost predicate NeedsWaking(s: Sys, h: nat) {
    && h in s.requests
    && (s.requests[h].phase.Waiting? || s.requests[h].phase.Expired?)
    && Missing(s.hist, s.requests[h].cursor)
  }

  /** A request that needs waking after the action needed it before, unless the action brought the event. */
  lemma NeededBefore(s: Sys, a: Action, h: nat)
    requires SysOk(s) && Can(s, a) && !a.LogEvent?
    requires NeedsWaking(Act(s, a), h)
    ensures NeedsWaking(s, h)
  {
    if
      && a == FirstRead(h)
      && Poll(s.log, s.requests[h].cursor).Updates?
      && Poll(s.log, s.requests[h].cursor).events == []
    {
      EmptyPollMissesNothing(s.log, s.hist, s.requests[h].cursor);
    }
  }

  /** A token on its way stays on its way until it arrives. */
  lemma StillComing(s: Sys, a: Action, h: nat)
    requires SysOk(s) && Can(s, a) && !a.LogEvent?
    requires h in s.subs
    requires h in s.tokens || WillFill(s, h)
    requires a != Receive(h)
    ensures h in Act(s, a).tokens || WillFill(Act(s, a), h)
  {
    if h !in s.tokens {
      var q :| q in s.pushers && (s.pushers[q].Logged? || (s.pushers[q].Walking? && h in s.pushers[q].rest));
      assert q in Act(s, a).pushers;
      if a.FillNext? {
        assert s.pushers[a.p].rest == [s.pushers[a.p].rest[0]] + s.pushers[a.p].rest[1..];
      }
    }
  }

  lemma WakeupStep(s: Sys, a: Action, h: nat)
    requires SysOk(s) && Can(s, a)
    requires NeedsWaking(Act(s, a), h)
    ensures h in Act(s, a).tokens || WillFill(Act(s, a), h)
  {
    if a.LogEvent? {
      assert Act(s, a).pushers[a.p].Logged?;
    } else {
      NeededBefore(s, a, h);
      StillComing(s, a, h);
    }
  }

  lemma StepOk(s: Sys, a: Action)
    requires SysOk(s) && Can(s, a)
    ensures SysOk(Act(s, a))
  {
    AgreesStep(s, a);
    ListStep(s, a);
    TokensStep(s, a);
    var s' := Act(s, a);
    forall h: nat | NeedsWaking(s', h)
      ensures h in s'.tokens || WillFill(s', h)
    {
      WakeupStep(s, a, h);
    }
  }

  /** Main result: in every interleaving, no request sleeps through an event. */
  lemma {:induction false} NoWakeupIsLost(acts: seq<Action>)
    ensures SysOk(Exec(acts))
  {
    if acts != [] {
      var s, a := Exec(acts[..|acts| - 1]), acts[|acts| - 1];
      NoWakeupIsLost(acts[..|acts| - 1]);
      if Can(s, a) {
        StepOk(s, a);
      }
    }
  }

  // ---------------------------------------------------------------------------
  // What the replies are worth

  ghost predicate NoPushInFlight(s: Sys) {
    forall p :: p in s.pushers ==> s.pushers[p].Finished?
  }

  /** Once the pushes are over, a request with something to read can take its token. */
  lemma QuietWaiterCanReceive(acts: seq<Action>, h: nat)
    requires At(Exec(acts), h, Waiting) && NoPushInFlight(Exec(acts))
    requires Missing(Exec(acts).hist, Exec(acts).requests[h].cursor)
    ensures Can(Exec(acts), Receive(h))
  {
    NoWakeupIsLost(acts);
    assert NeedsWaking(Exec(acts), h);
  }

  /** The reply leaves out a decodable event that was pushed above the cursor. */
  ghost predicate Skips(h: History, cursor: nat, events: seq<Event>) {
    exists i, e :: cursor <= i < |h| && h[i] == Some(e) && Known(e) && e !in events
  }

  /** The phase after a first read at this history: the batch is what the cursor is owed. */
  lemma FirstReadExactly(acts: seq<Action>, h: nat)
    requires At(Exec(acts), h, Listening)
    ensures var s := Exec(acts);
            var c := s.requests[h].cursor;
            AfterFirstRead(s.log, c) ==
              if IsTooOld(s.log, c) then Leaving(Failed(|s.hist|))
              else if Owed(s.hist, c) == [] then Waiting
              else Leaving(Batch(Members(Owed(s.hist, c)), Max(c, |s.hist|)))
  {
    var s := Exec(acts);
    NoWakeupIsLost(acts);
    if !IsTooOld(s.log, s.requests[h].cursor) {
      PollPaysOwed(s.log, s.hist, s.requests[h].cursor);
      assert |Members(Owed(s.hist, s.requests[h].cursor))| == |Owed(s.hist, s.requests[h].cursor)|;
    }
  }

  /** A batch from the first read leaves nothing out, and moves the client to the end of the history. */
  lemma FirstBatchSkipsNothing(acts: seq<Action>, h: nat)
    requires At(Exec(acts), h, Listening)
    requires AfterFirstRead(Exec(acts).log, Exec(acts).requests[h].cursor).Leaving?
    ensures var s := Exec(acts);
            var c := s.requests[h].cursor;
            match AfterFirstRead(s.log, c).reply
            case Batch(events, ts) =>
              !Skips(s.hist, c, events) && events == Members(Owed(s.hist, c)) && ts == Max(c, |s.hist|)
            case Failed(ts) => IsTooOld(s.log, c) && ts == |s.hist|
            case _ => false
  {
    var s := Exec(acts);
    FirstReadExactly(acts, h);
    OwedIsNotSkipped(s.hist, s.requests[h].cursor);
  }

  lemma OwedIsNotSkipped(h: History, cursor: nat)
    ensures !Skips(h, cursor, Members(Owed(h, cursor)))
  {
    OwedSpec(h, cursor);
    forall i, e | cursor <= i < |h| && h[i] == Some(e) && Known(e) ensures e in Members(Owed(h, cursor)) {
      var t := LatestSlot(h, e, i);
      MembersHas(Owed(h, cursor), Entry(e, t));
    }
  }

  /**
   After a wake-up the reply leaves events out exactly when the cursor had become too
   old in the meantime: that read drops the error, so the client is moved to the
   current ts with an empty batch and is not told that history is outdated.
   */
  lemma WokenReplySkipsExactly(acts: seq<Action>, h: nat)
    requires At(Exec(acts), h, Woken)
    ensures var s := Exec(acts);
            var c := s.requests[h].cursor;
            var reply := Act(s, SecondRead(h)).requests[h].phase.reply;
            && reply == (if IsTooOld(s.log, c) then Batch([], |s.hist|)
                         else Batch(Members(Owed(s.hist, c)), Max(c, |s.hist|)))
            && (Skips(s.hist, c, reply.events) <==> IsTooOld(s.log, c) && Missing(s.hist, c))
  {
    var s := Exec(acts);
    var c := s.requests[h].cursor;
    NoWakeupIsLost(acts);
    if !IsTooOld(s.log, c) {
      PollPaysOwed(s.log, s.hist, c);
      OwedIsNotSkipped(s.hist, c);
    } else if Missing(s.hist, c) {
      var i, e :| c <= i < |s.hist| && s.hist[i] == Some(e) && Known(e);
      assert e !in SecondReply(s.log, c).events;
    }
  }

  /** A timer reply made with an empty channel and no push in flight skips nothing. */
  lemma QuietTimeoutSkipsNothing(acts: seq<Action>, h: nat)
    requires At(Exec(acts), h, Expired) && h !in Exec(acts).tokens && NoPushInFlight(Exec(acts))
    ensures var s := Exec(acts);
            var reply := Act(s, ReadCounter(h)).requests[h].phase.reply;
            && reply.Idle?
            && reply.ts == (if |s.hist| == 0 then s.requests[h].cursor else |s.hist|)
            && !Skips(s.hist, s.requests[h].cursor, [])
  {
    var s := Exec(acts);
    NoWakeupIsLost(acts);
    assert !NeedsWaking(s, h);
    assert Skips(s.hist, s.requests[h].cursor, []) ==> Missing(s.hist, s.requests[h].cursor);
  }

  /** How long the history was when request h first read the log. */
  ghost function ReadLength(acts: seq<Action>, h: nat): nat {
    if acts == [] then 0
    else
      var s, a := Exec(acts[..|acts| - 1]), acts[|acts| - 1];
      if a == FirstRead(h) && Can(s, a) then |s.hist| else ReadLength(acts[..|acts| - 1], h)
  }

  /** h is in the select, or has just left it through its channel or its timer. */
  predicate InSelect(s: Sys, h: nat) {
    && h in s.requests
    && (s.requests[h].phase.Waiting? || s.requests[h].phase.Woken? || s.requests[h].phase.Expired?)
  }

  lemma SelectStep(s: Sys, a: Action, h: nat)
    requires Can(s, a) && a != FirstRead(h) && InSelect(Act(s, a), h)
    ensures InSelect(s, h) && s.requests[h].cursor == Act(s, a).requests[h].cursor
    ensures s.hist <= Act(s, a).hist
  {
  }

  /** The first read saw everything decodable between the cursor and the history's end. */
  lemma {:induction false} ReadMissedNothing(acts: seq<Action>, h: nat)
    requires InSelect(Exec(acts), h)
    ensures ReadLength(acts, h) <= |Exec(acts).hist|
    ensures !Missing(Exec(acts).hist[..ReadLength(acts, h)], Exec(acts).requests[h].cursor)
  {
    var front, a := acts[..|acts| - 1], acts[|acts| - 1];
    var s := Exec(front);
    NoWakeupIsLost(front);
    if a == FirstRead(h) && Can(s, a) {
      EmptyPollMissesNothing(s.log, s.hist, s.requests[h].cursor);
      assert Exec(acts).hist[..|s.hist|] == s.hist;
    } else {
      if Can(s, a) {
        SelectStep(s, a, h);
      }
      ReadMissedNothing(front, h);
      var n := ReadLength(front, h);
      assert Exec(acts).hist[..n] == s.hist[..n];
    }
  }

  /**
   Exactly when: a timer reply skips an event if and only if a decodable one was pushed
   above the cursor after the request's first read of the log.
   */
  lemma TimeoutSkipsExactly(acts: seq<Action>, h: nat)
    requires At(Exec(acts), h, Expired)
    ensures var s := Exec(acts);
            var c := s.requests[h].cursor;
            var reply := Act(s, ReadCounter(h)).requests[h].phase.reply;
            && reply.Idle?
            && reply.ts == (if |s.hist| == 0 then c else |s.hist|)
            && (Skips(s.hist, c, []) <==> Missing(s.hist, Max(c, ReadLength(acts, h))))
  {
    var s := Exec(acts);
    IdleReply(acts, h);
    ReadMissedNothing(acts, h);
    SkipsFrom(s.hist, s.requests[h].cursor, ReadLength(acts, h));
  }

  lemma IdleReply(acts: seq<Action>, h: nat)
    requires At(Exec(acts), h, Expired)
    ensures var s := Exec(acts);
            Act(s, ReadCounter(h)).requests[h].phase
            == Leaving(Idle(if |s.hist| == 0 then s.requests[h].cursor else |s.hist|))
  {
    CounterIsLength(acts);
    IdleAt(Exec(acts), h);
  }

  lemma CounterIsLength(acts: seq<Action>)
    ensures Exec(acts).log.ts == |Exec(acts).hist|
  {
    NoWakeupIsLost(acts);
  }

  lemma IdleAt(s: Sys, h: nat)
    requires At(s, h, Expired)
    ensures Act(s, ReadCounter(h)).requests[h].phase
            == Leaving(Idle(if s.log.ts == 0 then s.requests[h].cursor else s.log.ts))
  {
  }

  lemma SkipsFrom(h: History, cursor: nat, n: nat)
    requires n <= |h| && !Missing(h[..n], cursor)
    ensures Skips(h, cursor, []) <==> Missing(h, Max(cursor, n))
  {
    forall i, e | cursor <= i < n && h[i] == Some(e) ensures !Known(e) {
      assert h[..n][i] == Some(e);
    }
    assert forall e: Event :: e !in [];
  }

  // ---------------------------------------------------------------------------
  // A client that chains its requests

  predicate HasReply(s: Sys, h: nat) {
    h in s.requests && (s.requests[h].phase.Leaving? || s.requests[h].phase.Gone?)
  }

  function ReplyTo(s: Sys, h: nat): Reply
    requires HasReply(s, h)
  {
    s.requests[h].phase.reply
  }

  /** The state in which h's reply was made. */
  ghost function ReplyState(acts: seq<Action>, h: nat): Sys {
    if acts == [] then QUIET
    else
      var front := acts[..|acts| - 1];
      if HasReply(Exec(acts), h) && !HasReply(Exec(front), h) then Exec(front) else ReplyState(front, h)
  }

  lemma ReplyStays(s: Sys, a: Action, h: nat)
    requires Can(s, a) && HasReply(s, h)
    ensures HasReply(Act(s, a), h) && ReplyTo(Act(s, a), h) == ReplyTo(s, h)
    ensures Act(s, a).requests[h].cursor == s.requests[h].cursor
  {
  }

  lemma HistGrows(s: Sys, a: Action)
    requires Can(s, a)
    ensures s.hist <= Act(s, a).hist
  {
  }

  /** What a reply made in state s says. */
  ghost predicate Fits(s: Sys, h: nat, reply: Reply)
    requires h in s.requests
  {
    var c := s.requests[h].cursor;
    match reply
    case Failed(ts) => s.requests[h].phase.Listening? && IsTooOld(s.log, c) && ts == |s.hist|
    case Batch(events, ts) =>
      if IsTooOld(s.log, c) then s.requests[h].phase.Woken? && events == [] && ts == |s.hist|
      else events == Members(Owed(s.hist, c)) && ts == Max(c, |s.hist|)
    case Idle(ts) => s.requests[h].phase.Expired? && ts == if |s.hist| == 0 then c else |s.hist|
    case Dropped => s.requests[h].phase.Waiting?
  }

  lemma NewReplyFits(acts: seq<Action>, a: Action, h: nat)
    requires Can(Exec(acts), a) && !HasReply(Exec(acts), h) && HasReply(Act(Exec(acts), a), h)
    ensures h in Exec(acts).requests
    ensures Act(Exec(acts), a).requests[h].cursor == Exec(acts).requests[h].cursor
    ensures Fits(Exec(acts), h, ReplyTo(Act(Exec(acts), a), h))
  {
    NoWakeupIsLost(acts);
    match a
    case FirstRead(g) => FirstReadExactly(acts, h);
    case SecondRead(g) => WokenReplySkipsExactly(acts, h);
    case ReadCounter(g) => IdleReply(acts, h);
    case _ =>
  }

  /** Every reply ever given, in terms of the history of the moment it was made. */
  lemma {:induction false} EveryReply(acts: seq<Action>, h: nat)
    requires HasReply(Exec(acts), h)
    ensures var s := ReplyState(acts, h);
            && s.hist <= Exec(acts).hist
            && h in s.requests && s.requests[h].cursor == Exec(acts).requests[h].cursor
            && Agrees(s.log, s.hist)
            && Fits(s, h, ReplyTo(Exec(acts), h))
  {
    var front, a := acts[..|acts| - 1], acts[|acts| - 1];
    var s := Exec(front);
    if HasReply(s, h) {
      EveryReply(front, h);
      if Can(s, a) {
        ReplyStays(s, a, h);
        HistGrows(s, a);
      }
    } else {
      NoWakeupIsLost(front);
      NewReplyFits(front, a, h);
      HistGrows(s, a);
    }
  }

  /** A state of the run in which g has its reply and h has not arrived. */
  ghost predicate ArrivedAfter(acts: seq<Action>, h: nat, g: nat) {
    exists k :: 0 <= k <= |acts| && HasReply(Exec(acts[..k]), g) && h !in Exec(acts[..k]).requests
  }

  /** A reply made after a moment knows the history of that moment. */
  lemma {:induction false} RepliedSince(acts: seq<Action>, k: nat, h: nat)
    requires k <= |acts| && HasReply(Exec(acts), h) && !HasReply(Exec(acts[..k]), h)
    ensures Exec(acts[..k]).hist <= ReplyState(acts, h).hist
  {
    assert acts[..|acts|] == acts;
    var front := acts[..|acts| - 1];
    assert front[..k] == acts[..k];
    if HasReply(Exec(front), h) {
      RepliedSince(front, k, h);
    } else {
      HistKept(front, k);
    }
  }

  lemma {:induction false} HistKept(acts: seq<Action>, k: nat)
    requires k <= |acts|
    ensures Exec(acts[..k]).hist <= Exec(acts).hist
  {
    if k == |acts| {
      assert acts[..k] == acts;
    } else {
      var front, a := acts[..|acts| - 1], acts[|acts| - 1];
      assert front[..k] == acts[..k];
      HistKept(front, k);
      if Can(Exec(front), a) {
        HistGrows(Exec(front), a);
      }
    }
  }

  lemma {:induction false} ReplyStateKept(acts: seq<Action>, k: nat, g: nat)
    requires k <= |acts| && HasReply(Exec(acts[..k]), g)
    ensures HasReply(Exec(acts), g) && ReplyState(acts, g) == ReplyState(acts[..k], g)
  {
    if k == |acts| {
      assert acts[..k] == acts;
    } else {
      var front, a := acts[..|acts| - 1], acts[|acts| - 1];
      assert front[..k] == acts[..k];
      ReplyStateKept(front, k, g);
      if Can(Exec(front), a) {
        ReplyStays(Exec(front), a, g);
      }
    }
  }

  lemma LaterReplyKnowsMore(acts: seq<Action>, h: nat, g: nat)
    requires HasReply(Exec(acts), h) && ArrivedAfter(acts, h, g)
    ensures HasReply(Exec(acts), g)
    ensures |ReplyState(acts, g).hist| <= |ReplyState(acts, h).hist|
  {
    var k :| 0 <= k <= |acts| && HasReply(Exec(acts[..k]), g) && h !in Exec(acts[..k]).requests;
    ReplyStateKept(acts, k, g);
    EveryReply(acts[..k], g);
    RepliedSince(acts, k, h);
  }

  /** h was answered with a batch or idly, and nothing was left out above its cursor. */
  ghost predicate Whole(acts: seq<Action>, h: nat) {
    && HasReply(Exec(acts), h)
    && (ReplyTo(Exec(acts), h).Batch? || ReplyTo(Exec(acts), h).Idle?)
    && h in ReplyState(acts, h).requests
    && !Skips(ReplyState(acts, h).hist, ReplyState(acts, h).requests[h].cursor, ReplyEvents(Exec(acts), h))
  }

  function ReplyTs(s: Sys, h: nat): nat {
    if HasReply(s, h) && !ReplyTo(s, h).Dropped? then ReplyTo(s, h).ts else 0
  }

  function ReplyEvents(s: Sys, h: nat): seq<Event> {
    if HasReply(s, h) && ReplyTo(s, h).Batch? then ReplyTo(s, h).events else []
  }

  /** Requests one after the other, each arriving with the ts of the reply before it. */
  ghost predicate Chained(acts: seq<Action>, hs: seq<nat>) {
    && (forall i :: 0 <= i < |hs| ==> Whole(acts, hs[i]))
    && (forall i :: 1 <= i < |hs| ==>
          && ArrivedAfter(acts, hs[i], hs[i - 1])
          && Exec(acts).requests[hs[i]].cursor == ReplyTs(Exec(acts), hs[i - 1]))
    && (hs != [] ==> Exec(acts).requests[hs[0]].cursor <= |ReplyState(acts, hs[0]).hist|)
  }

  /** The slots behind the replies, request by request. */
  ghost function PaidSlots(acts: seq<Action>, hs: seq<nat>): ZSet {
    if hs == [] then []
    else
      var s, h := ReplyState(acts, hs[|hs| - 1]), hs[|hs| - 1];
      PaidSlots(acts, hs[..|hs| - 1]) + (if h in s.requests then Owed(s.hist, s.requests[h].cursor) else [])
  }

  ghost function Received(acts: seq<Action>, hs: seq<nat>): seq<Event> {
    if hs == [] then [] else Received(acts, hs[..|hs| - 1]) + ReplyEvents(Exec(acts), hs[|hs| - 1])
  }

  lemma NothingOwed(h: History, cursor: nat)
    ensures Owed(h, cursor) != [] ==> Skips(h, cursor, [])
  {
    OwedSpec(h, cursor);
    if Owed(h, cursor) != [] {
      var x := Owed(h, cursor)[0];
      assert x in Owed(h, cursor);
      assert IsLatest(h, x.member, x.score) && h[x.score - 1] == Some(x.member);
      assert x.member !in [];
    }
  }

  /** One link of the chain: the reply pays what is owed, and its ts is the history it was paid from. */
  lemma WholeReplyPays(acts: seq<Action>, h: nat)
    requires Whole(acts, h)
    ensures var s := ReplyState(acts, h);
            && s.hist <= Exec(acts).hist
            && s.requests[h].cursor == Exec(acts).requests[h].cursor
            && ReplyEvents(Exec(acts), h) == Members(Owed(s.hist, s.requests[h].cursor))
            && (s.requests[h].cursor <= |s.hist| ==> ReplyTs(Exec(acts), h) == |s.hist|)
  {
    EveryReply(acts, h);
    NothingOwed(ReplyState(acts, h).hist, ReplyState(acts, h).requests[h].cursor);
  }

  lemma MembersConcat(a: ZSet, b: ZSet)
    ensures Members(a + b) == Members(a) + Members(b)
  {
  }

  lemma ChainFront(acts: seq<Action>, hs: seq<nat>)
    requires hs != [] && Chained(acts, hs)
    ensures Chained(acts, hs[..|hs| - 1])
  {
    var front := hs[..|hs| - 1];
    forall i | 1 <= i < |front|
      ensures ArrivedAfter(acts, front[i], front[i - 1])
      ensures Exec(acts).requests[front[i]].cursor == ReplyTs(Exec(acts), front[i - 1])
    {
      assert front[i] == hs[i] && front[i - 1] == hs[i - 1];
    }
  }

  /** Adding what one reply paid to what the replies before it did. */
  lemma ChainLink(h: History, later: History, lo: nat, cursor: nat, got: ZSet)
    requires h <= later && lo <= cursor <= |h|
    requires Accounts(later, lo, cursor, got)
    ensures Accounts(later, lo, |h|, got + Owed(h, cursor))
    ensures Members(got + Owed(h, cursor)) == Members(got) + Members(Owed(h, cursor))
  {
    OwedAccounts(h, later, cursor);
    AccountsConcat(later, lo, cursor, |h|, got, Owed(h, cursor));
    MembersConcat(got, Owed(h, cursor));
  }

  ghost predicate ChainPays(acts: seq<Action>, hs: seq<nat>, lo: nat, ts: nat, got: ZSet) {
    && lo <= ts <= |Exec(acts).hist|
    && Received(acts, hs) == Members(got)
    && Accounts(Exec(acts).hist, lo, ts, got)
  }

  lemma ChainSnoc(acts: seq<Action>, hs: seq<nat>, h: nat, lo: nat, got: ZSet)
    requires Whole(acts, h)
    requires var s := ReplyState(acts, h);
             h in s.requests && s.requests[h].cursor <= |s.hist| && ChainPays(acts, hs, lo, s.requests[h].cursor, got)
    ensures var s := ReplyState(acts, h);
            && ReplyTs(Exec(acts), h) == |s.hist|
            && ChainPays(acts, hs + [h], lo, |s.hist|, got + Owed(s.hist, s.requests[h].cursor))
  {
    var s := ReplyState(acts, h);
    WholeReplyPays(acts, h);
    ChainLink(s.hist, Exec(acts).hist, lo, s.requests[h].cursor, got);
    assert (hs + [h])[..|hs|] == hs;
  }

  lemma NothingPaidYet(acts: seq<Action>, lo: nat)
    requires lo <= |Exec(acts).hist|
    ensures ChainPays(acts, [], lo, lo, [])
  {
  }

  lemma PaidSnoc(acts: seq<Action>, hs: seq<nat>, h: nat)
    requires h in ReplyState(acts, h).requests
    ensures var s := ReplyState(acts, h);
            PaidSlots(acts, hs + [h]) == PaidSlots(acts, hs) + Owed(s.hist, s.requests[h].cursor)
  {
    assert (hs + [h])[..|hs|] == hs;
  }

  /**
   Main result, the handler in every interleaving: the batches of a client that sends each
   reply's ts with its next request account for every decodable event between its first
   cursor and its last ts, none left out and no slot twice, as long as no reply on the way
   skips one.  The first read never does (FirstBatchSkipsNothing); when the two other replies
   do is said exactly by WokenReplySkipsExactly and TimeoutSkipsExactly.
   */
  lemma {:induction false} ChainedRequestsLoseNothing(acts: seq<Action>, hs: seq<nat>)
    requires hs != [] && Chained(acts, hs)
    ensures var s, last := Exec(acts), hs[|hs| - 1];
            && ReplyTs(s, last) == |ReplyState(acts, last).hist|
            && s.requests[hs[0]].cursor <= ReplyTs(s, last) <= |s.hist|
            && Received(acts, hs) == Members(PaidSlots(acts, hs))
            && Accounts(s.hist, s.requests[hs[0]].cursor, ReplyTs(s, last), PaidSlots(acts, hs))
  {
    var n := |hs| - 1;
    var h, front := hs[n], hs[..n];
    var lo := Exec(acts).requests[hs[0]].cursor;
    assert hs == front + [h];
    WholeReplyPays(acts, h);
    if n == 0 {
      NothingPaidYet(acts, lo);
    } else {
      ChainFront(acts, hs);
      ChainedRequestsLoseNothing(acts, front);
      LaterReplyKnowsMore(acts, h, front[n - 1]);
    }
    ChainSnoc(acts, front, h, lo, PaidSlots(acts, front));
    PaidSnoc(acts, front, h);
  }

  lemma ExecSnoc(acts: seq<Action>, s: Sys, a: Action)
    requires Exec(acts) == s && Can(s, a)
    ensures Exec(acts + [a]) == Act(s, a)
  {
    assert (acts + [a])[..|acts|] == acts;
  }

  /** One request that waits on a log with this counter and history, and no entries. */
  function OneWaiter(ts: nat, hist: History, cursor: nat): Sys {
    Sys(Log(ts, []), hist, [0], {}, map[0 := Request(cursor, Waiting)], map[])
  }

  lemma WaitsOnEmptyLog(before: seq<Action>, ts: nat, hist: History)
    requires Exec(before) == Sys(Log(ts, []), hist, [], {}, map[], map[])
    ensures Exec(before + [Arrive(0, ts)] + [Subscribe(0)] + [FirstRead(0)]) == OneWaiter(ts, hist, ts)
  {
    var s := Exec(before);
    ExecSnoc(before, s, Arrive(0, ts));
    var s1 := Act(s, Arrive(0, ts));
    ExecSnoc(before + [Arrive(0, ts)], s1, Subscribe(0));
    var s2 := Act(s1, Subscribe(0));
    ExecSnoc(before + [Arrive(0, ts)] + [Subscribe(0)], s2, FirstRead(0));
    assert Delivered(Log(ts, []), ts) == [];
    assert Act(s2, FirstRead(0)) == OneWaiter(ts, hist, ts);
  }

  lemma LatePush(e: Event) returns (acts: seq<Action>, s: Sys)
    ensures Exec(acts) == s && At(s, 0, Expired) && s.requests[0].cursor == 0
    ensures s.log.ts == 1 && s.hist == [Some(e)]
  {
    WaitsOnEmptyLog([], 0, []);
    var before := [] + [Arrive(0, 0)] + [Subscribe(0)] + [FirstRead(0)];
    var waiting := OneWaiter(0, [], 0);
    var expired := Act(waiting, TimerFires(0));
    ExecSnoc(before, waiting, TimerFires(0));
    ExecSnoc(before + [TimerFires(0)], expired, LogEvent(0, e));
    acts, s := before + [TimerFires(0)] + [LogEvent(0, e)], Act(expired, LogEvent(0, e));
  }

  /** Without those two conditions it can: a push may fall between the timer and the counter read. */
  lemma TimeoutMaySkip(e: Event) returns (acts: seq<Action>)
    requires Known(e)
    ensures At(Exec(acts), 0, Leaving(Idle(1))) && Exec(acts).requests[0].cursor == 0
    ensures Skips(Exec(acts).hist, 0, [])
  {
    var before, s := LatePush(e);
    ExecSnoc(before, s, ReadCounter(0));
    acts := before + [ReadCounter(0)];
    assert Exec(acts).hist[0] == Some(e);
  }

  /**
   The stale second read happens after three pushes, not two hundred: a payload that is
   logged again leaves a hole right after the client's cursor.
   */
  lemma WokenReplyMaySkip(a: Event, b: Event) returns (acts: seq<Action>)
    requires a != b && Known(a) && Known(b)
    ensures At(Exec(acts), 0, Leaving(Batch([], 4))) && Exec(acts).requests[0].cursor == 1
    ensures Skips(Exec(acts).hist, 1, [])
  {
    ExecSnoc([], QUIET, OpenCounter);
    WaitsOnEmptyLog([OpenCounter], 1, [None]);
    var before := [OpenCounter] + [Arrive(0, 1)] + [Subscribe(0)] + [FirstRead(0)];
    var pushed, s := PushThree(before, a, b);
    HoleAfterRepeat(pushed, a, b);
    acts := WakeAndRead(pushed, s);
    assert s.hist[1] == Some(a);
  }

  lemma HoleAfterRepeat(acts: seq<Action>, a: Event, b: Event)
    requires Exec(acts).hist == [None, Some(a), Some(b), Some(a)]
    ensures IsTooOld(Exec(acts).log, 1)
  {
    NoWakeupIsLost(acts);
    RepeatLeavesHole(Exec(acts).log, Exec(acts).hist, 1, a);
  }

  lemma PushThree(acts: seq<Action>, a: Event, b: Event) returns (more: seq<Action>, s: Sys)
    requires Exec(acts) == OneWaiter(1, [None], 1)
    ensures Exec(more) == s && s.log.ts == 4 && s.hist == [None, Some(a), Some(b), Some(a)]
    ensures s.subs == [0] && At(s, 0, Waiting) && PusherAt(s, 0, Logged) && s.requests[0].cursor == 1
  {
    s := OneWaiter(1, [None], 1);
    ExecSnoc(acts, s, LogEvent(0, a));
    s := Act(s, LogEvent(0, a));
    more := acts + [LogEvent(0, a)];
    ExecSnoc(more, s, LogEvent(1, b));
    s := Act(s, LogEvent(1, b));
    more := more + [LogEvent(1, b)];
    ExecSnoc(more, s, LogEvent(2, a));
    s := Act(s, LogEvent(2, a));
    more := more + [LogEvent(2, a)];
    assert s.hist == [None] + [Some(a)] + [Some(b)] + [Some(a)] == [None, Some(a), Some(b), Some(a)];
  }

  lemma WakeAndRead(acts: seq<Action>, s: Sys) returns (more: seq<Action>)
    requires Exec(acts) == s
    requires s.subs == [0] && At(s, 0, Waiting) && PusherAt(s, 0, Logged)
    ensures Exec(more).hist == s.hist
    ensures At(Exec(more), 0, Leaving(SecondReply(s.log, s.requests[0].cursor)))
    ensures Exec(more).requests[0].cursor == s.requests[0].cursor
  {
    ExecSnoc(acts, s, StartWalk(0));
    var s1 := Act(s, StartWalk(0));
    ExecSnoc(acts + [StartWalk(0)], s1, FillNext(0));
    var s2 := Act(s1, FillNext(0));
    ExecSnoc(acts + [StartWalk(0)] + [FillNext(0)], s2, Receive(0));
    var s3 := Act(s2, Receive(0));
    ExecSnoc(acts + [StartWalk(0)] + [FillNext(0)] + [Receive(0)], s3, SecondRead(0));
    more := acts + [StartWalk(0)] + [FillNext(0)] + [Receive(0)] + [SecondRead(0)];
  }
}
