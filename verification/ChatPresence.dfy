/**
 Presence: the period rows against the plain history of who was in the chat when.
 */
module ChatPresence {
  import opened Wrappers
  import opened ChatModel
  import opened ChatHistory

  // ---------------------------------------------------------------------------
  // Reference: being in the chat, read off the history

  /** Was u in the chat right after the events of `tr`? */
  predicate In(initial: set<int>, tr: seq<Event>, u: int) {
    if tr == [] then u in initial
    else
      match tr[|tr| - 1]
      case Joined(user, _, _) => user == u || In(initial, tr[..|tr| - 1], u)
      case Removed(user, _) => user != u && In(initial, tr[..|tr| - 1], u)
      case _ => In(initial, tr[..|tr| - 1], u)
  }

  /** Was u in the chat as message n was posted, before or after it took effect? */
  predicate PresentAt(initial: set<int>, tr: seq<Event>, u: int, n: nat)
    requires 1 <= n <= |tr|
  {
    In(initial, tr[..n - 1], u) || In(initial, tr[..n], u)
  }

  predicate Grants(e: Event, u: int) {
    e.Joined? && e.user == u && e.history
  }

  /** Did u join with the history granted, at message n or later? */
  ghost predicate Granted(tr: seq<Event>, u: int, n: nat) {
    exists i :: n <= i + 1 <= |tr| && 0 <= i && Grants(tr[i], u)
  }

  /** What the presence test should say; numbers beyond the history are for messages to come. */
  ghost predicate Ought(initial: set<int>, tr: seq<Event>, u: int, n: nat)
    requires n >= 1
  {
    if n <= |tr| then PresentAt(initial, tr, u, n) || Granted(tr, u, n) else In(initial, tr, u)
  }

  lemma GrantedSnoc(tr: seq<Event>, e: Event, u: int, n: nat)
    ensures Granted(tr + [e], u, n) <==> Granted(tr, u, n) || (n <= |tr| + 1 && Grants(e, u))
  {
    var next := tr + [e];
    if Granted(tr, u, n) {
      var i :| n <= i + 1 <= |tr| && 0 <= i && Grants(tr[i], u);
      assert Grants(next[i], u);
    }
    if n <= |tr| + 1 && Grants(e, u) {
      assert Grants(next[|tr|], u);
    }
    if Granted(next, u, n) {
      var i :| n <= i + 1 <= |next| && 0 <= i && Grants(next[i], u);
      if i < |tr| {
        assert Grants(tr[i], u);
      }
    }
  }

  lemma OughtSnoc(initial: set<int>, tr: seq<Event>, e: Event, u: int, n: nat)
    requires n >= 1
    ensures Ought(initial, tr + [e], u, n) <==>
            if n <= |tr| then Ought(initial, tr, u, n) || Grants(e, u)
            else if n == |tr| + 1 then In(initial, tr, u) || In(initial, tr + [e], u)
            else In(initial, tr + [e], u)
  {
    var next := tr + [e];
    GrantedSnoc(tr, e, u, n);
    assert next[..|tr|] == tr;
    if n <= |tr| {
      assert next[..n] == tr[..n] && next[..n - 1] == tr[..n - 1];
    } else if n == |tr| + 1 {
      assert next[..n] == next;
      assert Granted(tr, u, n) == false;
    }
  }

  // ---------------------------------------------------------------------------
  // Period rows

  /** The number of open periods of u. */
  function Opens(ps: seq<Period>, u: int): nat {
    if ps == [] then 0
    else
      var p := ps[|ps| - 1];
      Opens(ps[..|ps| - 1], u) + (if p.user == u && p.end.None? then 1 else 0)
  }

  /** Every period of u starts by local id n, and so do its ends. */
  predicate Within(ps: seq<Period>, u: int, n: nat) {
    forall i :: 0 <= i < |ps| && ps[i].user == u ==>
      ps[i].start <= n && (ps[i].end.Some? ==> ps[i].end.value <= n)
  }

  lemma PeriodsSnoc(ps: seq<Period>, p: Period, u: int)
    ensures HasPeriod(ps + [p], u) <==> p.user == u || HasPeriod(ps, u)
    ensures Opens(ps + [p], u) == Opens(ps, u) + if p.user == u && p.end.None? then 1 else 0
    ensures forall n :: Covers(ps + [p], u, n) <==> InPeriod(p, u, n) || Covers(ps, u, n)
  {
    assert (ps + [p])[..|ps|] == ps;
  }

  lemma {:induction false} CloseOthers(ps: seq<Period>, user: int, e: nat, u: int, n: nat)
    requires u != user
    ensures HasPeriod(CloseOpen(ps, user, e), u) == HasPeriod(ps, u)
    ensures Opens(CloseOpen(ps, user, e), u) == Opens(ps, u)
    ensures Covers(CloseOpen(ps, user, e), u, n) == Covers(ps, u, n)
  {
    if ps != [] {
      CloseOthers(ps[..|ps| - 1], user, e, u, n);
      assert CloseOpen(ps, user, e)[..|ps| - 1] == CloseOpen(ps[..|ps| - 1], user, e);
    }
  }

  lemma {:induction false} CloseOwn(ps: seq<Period>, u: int, e: nat, n: nat)
    requires Within(ps, u, e)
    ensures HasPeriod(CloseOpen(ps, u, e), u) == HasPeriod(ps, u)
    ensures Opens(CloseOpen(ps, u, e), u) == 0
    ensures Covers(CloseOpen(ps, u, e), u, n) <==> n <= e && Covers(ps, u, n)
  {
    if ps != [] {
      CloseOwn(ps[..|ps| - 1], u, e, n);
      assert CloseOpen(ps, u, e)[..|ps| - 1] == CloseOpen(ps[..|ps| - 1], u, e);
    }
  }

  lemma {:induction false} CloseWithin(ps: seq<Period>, user: int, e: nat, u: int)
    requires Within(ps, u, e)
    ensures Within(CloseOpen(ps, user, e), u, e)
  {
    if ps != [] {
      CloseWithin(ps[..|ps| - 1], user, e, u);
      assert CloseOpen(ps, user, e)[..|ps| - 1] == CloseOpen(ps[..|ps| - 1], user, e);
    }
  }

  // ---------------------------------------------------------------------------
  // The rows follow the history

  /** The period rows of u say what the history says. */
  ghost predicate Tracks(ps: seq<Period>, initial: set<int>, tr: seq<Event>, u: int) {
    && Opens(ps, u) == (if In(initial, tr, u) then 1 else 0)
    && Within(ps, u, |tr|)
    && forall n: nat :: n >= 1 ==> (Covers(ps, u, n) <==> Ought(initial, tr, u, n))
  }

  lemma InSnoc(initial: set<int>, tr: seq<Event>, e: Event, u: int)
    ensures In(initial, tr + [e], u) <==>
            (e.Joined? && e.user == u) || (In(initial, tr, u) && !(e.Removed? && e.user == u))
  {
    assert (tr + [e])[..|tr|] == tr;
  }

  lemma TracksNeutral(ps: seq<Period>, initial: set<int>, tr: seq<Event>, e: Event, u: int)
    requires Tracks(ps, initial, tr, u) && !e.Joined? && !e.Removed?
    ensures Tracks(ps, initial, tr + [e], u)
  {
    InSnoc(initial, tr, e, u);
    forall n: nat | n >= 1
      ensures Covers(ps, u, n) <==> Ought(initial, tr + [e], u, n)
    {
      OughtSnoc(initial, tr, e, u, n);
    }
  }

  function JoinPeriod(e: Event, n: nat): Period
    requires e.Joined?
  {
    Period(e.user, if e.history then 1 else n, None)
  }

  lemma JoinCovers(ps: seq<Period>, initial: set<int>, tr: seq<Event>, e: Event, u: int, n: nat)
    requires n >= 1 && e.Joined?
    requires Covers(ps, u, n) <==> Ought(initial, tr, u, n)
    ensures Covers(ps + [JoinPeriod(e, |tr| + 1)], u, n) <==> Ought(initial, tr + [e], u, n)
  {
    PeriodsSnoc(ps, JoinPeriod(e, |tr| + 1), u);
    InSnoc(initial, tr, e, u);
    OughtSnoc(initial, tr, e, u, n);
  }

  lemma TracksJoin(ps: seq<Period>, initial: set<int>, tr: seq<Event>, e: Event, u: int)
    requires Tracks(ps, initial, tr, u) && e.Joined? && !In(initial, tr, e.user)
    ensures Tracks(ps + [JoinPeriod(e, |tr| + 1)], initial, tr + [e], u)
  {
    PeriodsSnoc(ps, JoinPeriod(e, |tr| + 1), u);
    InSnoc(initial, tr, e, u);
    forall n: nat | n >= 1
      ensures Covers(ps + [JoinPeriod(e, |tr| + 1)], u, n) <==> Ought(initial, tr + [e], u, n)
    {
      JoinCovers(ps, initial, tr, e, u, n);
    }
  }

  lemma LeaveCovers(ps: seq<Period>, initial: set<int>, tr: seq<Event>, e: Event, u: int, n: nat)
    requires n >= 1 && e.Removed? && In(initial, tr, e.user) && Within(ps, u, |tr|)
    requires Covers(ps, u, n) <==> Ought(initial, tr, u, n)
    ensures Covers(CloseOpen(ps, e.user, |tr| + 1), u, n) <==> Ought(initial, tr + [e], u, n)
  {
    InSnoc(initial, tr, e, u);
    OughtSnoc(initial, tr, e, u, n);
    if u == e.user {
      CloseOwn(ps, u, |tr| + 1, n);
    } else {
      CloseOthers(ps, e.user, |tr| + 1, u, n);
    }
  }

  lemma TracksLeave(ps: seq<Period>, initial: set<int>, tr: seq<Event>, e: Event, u: int)
    requires Tracks(ps, initial, tr, u) && e.Removed? && In(initial, tr, e.user)
    ensures Tracks(CloseOpen(ps, e.user, |tr| + 1), initial, tr + [e], u)
  {
    InSnoc(initial, tr, e, u);
    CloseWithin(ps, e.user, |tr| + 1, u);
    if u == e.user {
      CloseOwn(ps, u, |tr| + 1, 1);
    } else {
      CloseOthers(ps, e.user, |tr| + 1, u, 1);
    }
    forall n: nat | n >= 1
      ensures Covers(CloseOpen(ps, e.user, |tr| + 1), u, n) <==> Ought(initial, tr + [e], u, n)
    {
      LeaveCovers(ps, initial, tr, e, u, n);
    }
  }

  /** Member and period rows of u agree with the history. */
  ghost predicate Follows(c: Chat, initial: set<int>, tr: seq<Event>, u: int) {
    && (IsActive(c, u) <==> In(initial, tr, u))
    && (u in c.members <==> HasPeriod(c.periods, u))
    && Tracks(c.periods, initial, tr, u)
  }

  /** Nobody joins or leaves from c to d. */
  predicate StaysPut(c: Chat, d: Chat, u: int) {
    && d.periods == c.periods
    && (u in d.members <==> u in c.members)
    && (IsActive(d, u) <==> IsActive(c, u))
  }

  predicate MovesMembers(op: Op) {
    op.Add? || op.Join? || op.Remove?
  }

  lemma OthersStayPut(c: Chat, call: Call, u: int)
    requires !MovesMembers(call.op)
    ensures StaysPut(c, Step(c, call), u)
  {
  }

  lemma FollowsNeutral(c: Chat, d: Chat, initial: set<int>, tr: seq<Event>, e: Event, u: int)
    requires Follows(c, initial, tr, u) && StaysPut(c, d, u) && !e.Joined? && !e.Removed?
    ensures Follows(d, initial, tr, u) && Follows(d, initial, tr + [e], u)
  {
    TracksNeutral(c.periods, initial, tr, e, u);
    InSnoc(initial, tr, e, u);
  }

  /** The user of `e` joins from c to d, at the message of `e`. */
  predicate Enters(c: Chat, d: Chat, e: Event, u: int)
    requires e.Joined?
  {
    && !IsActive(c, e.user)
    && d.periods == c.periods + [JoinPeriod(e, |c.msgs| + 1)]
    && (u in d.members <==> u == e.user || u in c.members)
    && (IsActive(d, u) <==> u == e.user || IsActive(c, u))
  }

  lemma AddShape(
    c: Chat, inviter: int, user: int, action: Action, history: bool, now: nat, gap: nat, u: int)
    requires Numbered(c) && AddUser(c, inviter, user, action, history, now, gap).Ok?
    ensures var d := AddUser(c, inviter, user, action, history, now, gap).value;
            |d.msgs| == |c.msgs| + 1 && Enters(c, d, Joined(user, inviter, history), u)
  {
    NextIsLength(c);
  }

  lemma FollowsAdd(c: Chat, d: Chat, initial: set<int>, tr: seq<Event>, e: Event, u: int)
    requires |tr| == |c.msgs| && e.Joined? && Enters(c, d, e, u)
    requires Follows(c, initial, tr, u) && Follows(c, initial, tr, e.user)
    ensures Follows(d, initial, tr + [e], u)
  {
    TracksJoin(c.periods, initial, tr, e, u);
    InSnoc(initial, tr, e, u);
    PeriodsSnoc(c.periods, JoinPeriod(e, |tr| + 1), u);
  }

  /** User `user` leaves from c to d, with the removal message as the last one seen. */
  predicate Leaves(c: Chat, d: Chat, user: int, u: int) {
    && IsActive(c, user)
    && d.periods == CloseOpen(c.periods, user, |c.msgs| + 1)
    && (u in d.members <==> u in c.members)
    && (IsActive(d, u) <==> u != user && IsActive(c, u))
  }

  lemma RemoveShape(c: Chat, caller: int, userId: int, now: nat, gap: nat, u: int)
    requires Numbered(c) && RemoveChatUser(c, caller, userId, now, gap).Ok?
    ensures var d := RemoveChatUser(c, caller, userId, now, gap).value;
            |d.msgs| == |c.msgs| + 1 && Leaves(c, d, if userId == 0 then caller else userId, u)
  {
    NextIsLength(c);
  }

  lemma FollowsRemove(c: Chat, d: Chat, initial: set<int>, tr: seq<Event>, e: Event, u: int)
    requires |tr| == |c.msgs| && e.Removed? && Leaves(c, d, e.user, u)
    requires Follows(c, initial, tr, u) && Follows(c, initial, tr, e.user)
    ensures Follows(d, initial, tr + [e], u)
  {
    TracksLeave(c.periods, initial, tr, e, u);
    if u == e.user {
      CloseOwn(c.periods, u, |tr| + 1, 1);
    } else {
      CloseOthers(c.periods, e.user, |tr| + 1, u, 1);
    }
    InSnoc(initial, tr, e, u);
  }

  lemma FollowsNext(w: World, call: Call, u: int)
    requires Numbered(w.chat) && |w.trace| == |w.chat.msgs|
    requires forall v :: Follows(w.chat, w.initial, w.trace, v)
    ensures Follows(Next(w, call).chat, w.initial, Next(w, call).trace, u)
  {
    var c, now, gap := w.chat, call.now, call.gap;
    match call.op
    case Add(caller, user, history) =>
      if AddChatUser(c, caller, user, history, now, gap).Ok? {
        AddShape(c, caller, user, InviteUser, history, now, gap, u);
        FollowsAdd(c, Step(c, call), w.initial, w.trace, EventOf(call.op), u);
      }
    case Join(caller, history) =>
      if !IsActive(c, caller) && JoinByLink(c, caller, history, now, gap).Ok? {
        AddShape(c, caller, caller, InviteByLink, history, now, gap, u);
        FollowsAdd(c, Step(c, call), w.initial, w.trace, EventOf(call.op), u);
      }
    case Remove(caller, user) =>
      if RemoveChatUser(c, caller, user, now, gap).Ok? {
        RemoveShape(c, caller, user, now, gap, u);
        FollowsRemove(c, Step(c, call), w.initial, w.trace, EventOf(call.op), u);
      }
    case _ =>
      OthersStayPut(c, call, u);
      FollowsNeutral(c, Step(c, call), w.initial, w.trace, EventOf(call.op), u);
  }

  // ---------------------------------------------------------------------------
  // The first rows

  lemma {:induction false} FirstRows(owner: int, ids: seq<int>, u: int, n: nat)
    ensures u in FirstMembers(owner, ids) <==> u == owner || u in ids
    ensures u in FirstMembers(owner, ids) ==> !FirstMembers(owner, ids)[u].left
    ensures HasPeriod(FirstPeriods(owner, ids), u) <==> u == owner || u in ids
    ensures Within(FirstPeriods(owner, ids), u, 1)
    ensures n >= 1 ==> (Covers(FirstPeriods(owner, ids), u, n) <==> u == owner || u in ids)
  {
    if ids != [] {
      var init := ids[..|ids| - 1];
      FirstRows(owner, init, u, n);
      PeriodsSnoc(FirstPeriods(owner, init), Period(ids[|ids| - 1], 1, None), u);
      assert ids == init + [ids[|ids| - 1]];
    } else {
      PeriodsSnoc([], Period(owner, 1, None), u);
      assert [] + [Period(owner, 1, None)] == [Period(owner, 1, None)];
    }
  }

  lemma {:induction false} FirstOpens(owner: int, ids: seq<int>, u: int)
    requires Distinct(ids) && owner !in ids
    ensures Opens(FirstPeriods(owner, ids), u) == if u == owner || u in ids then 1 else 0
  {
    if ids != [] {
      var init := ids[..|ids| - 1];
      FirstOpens(owner, init, u);
      PeriodsSnoc(FirstPeriods(owner, init), Period(ids[|ids| - 1], 1, None), u);
      assert ids == init + [ids[|ids| - 1]];
    } else {
      PeriodsSnoc([], Period(owner, 1, None), u);
      assert [] + [Period(owner, 1, None)] == [Period(owner, 1, None)];
    }
  }

  lemma {:induction false} InvitedAre(ids: seq<int>, owner: int)
    ensures forall u :: u in Invited(ids, owner) <==> u in ids && u != owner && u > 0
  {
    if ids != [] {
      InvitedAre(ids[..|ids| - 1], owner);
      assert ids == ids[..|ids| - 1] + [ids[|ids| - 1]];
    }
  }

  lemma OughtStart(initial: set<int>, owner: int, u: int, n: nat)
    requires n >= 1
    ensures Ought(initial, [Said(owner)], u, n) <==> u in initial
  {
    assert !Granted([], u, n);
    OughtSnoc(initial, [], Said(owner), u, n);
    InSnoc(initial, [], Said(owner), u);
    assert [] + [Said(owner)] == [Said(owner)];
  }

  lemma FollowsStart(r: Run, u: int)
    requires Created(r) && r.calls == []
    ensures Follows(After(r).chat, After(r).initial, After(r).trace, u)
  {
    var users := Invited(r.ids, r.owner);
    var initial := {r.owner} + (set v | v in users);
    var ps := FirstPeriods(r.owner, users);
    CreateShape(r.owner, r.ids, r.now, r.gap);
    InvitedAre(r.ids, r.owner);
    FirstOpens(r.owner, users, u);
    FirstRows(r.owner, users, u, 1);
    InSnoc(initial, [], Said(r.owner), u);
    assert [] + [Said(r.owner)] == [Said(r.owner)];
    forall n: nat | n >= 1
      ensures Covers(ps, u, n) <==> Ought(initial, [Said(r.owner)], u, n)
    {
      FirstRows(r.owner, users, u, n);
      OughtStart(initial, r.owner, u, n);
    }
  }

  lemma {:induction false} AlwaysFollows(r: Run, u: int)
    requires Created(r)
    ensures Follows(After(r).chat, After(r).initial, After(r).trace, u)
    decreases |r.calls|
  {
    if r.calls == [] {
      FollowsStart(r, u);
    } else {
      var before := r.(calls := r.calls[..|r.calls| - 1]);
      Always(before);
      forall v
        ensures Follows(After(before).chat, After(before).initial, After(before).trace, v)
      {
        AlwaysFollows(before, v);
      }
      FollowsNext(After(before), r.calls[|r.calls| - 1], u);
    }
  }

  // ---------------------------------------------------------------------------
  // Main results

  /**
   The presence test lets a member see message n exactly when they were in the chat as it
   was posted (their own join and removal included) or later joined with the history granted;
   it says nothing about a user who was never in the chat.
   */
  lemma SeesExactly(r: Run, u: int, n: nat)
    requires Created(r) && 1 <= n <= |After(r).trace|
    ensures var w := After(r);
            && |w.trace| == |w.chat.msgs|
            && (u in w.chat.members ==>
                 (InPeriods(w.chat.periods, u, n) <==>
                   PresentAt(w.initial, w.trace, u, n) || Granted(w.trace, u, n)))
            && (u !in w.chat.members ==> InPeriods(w.chat.periods, u, n))
  {
    Always(r);
    AlwaysFollows(r, u);
  }

  /** Active members are those the history has in the chat; each has exactly one open period, others none. */
  lemma OneOpenPeriod(r: Run, u: int)
    requires Created(r)
    ensures var w := After(r);
            && (IsActive(w.chat, u) <==> In(w.initial, w.trace, u))
            && Opens(w.chat.periods, u) == if IsActive(w.chat, u) then 1 else 0
  {
    AlwaysFollows(r, u);
  }

  /**
   What the filter should let u see of message n: whatever is not deleted for all or hidden
   by u, as far as the history has u in the chat, if u ever was a member.
   */
  ghost predicate MaySee(w: World, u: int, n: nat)
    requires 1 <= n <= |w.trace| == |w.chat.msgs|
  {
    || u == 0
    || (&& (u in w.chat.members ==> PresentAt(w.initial, w.trace, u, n) || Granted(w.trace, u, n))
        && w.chat.msgs[n - 1].deletedAt.None?
        && (u, n) !in w.chat.deleted
        && n > DeletedBefore(w.chat, u))
  }

  lemma VisibleAt(w: World, u: int, n: nat)
    requires Numbered(w.chat) && 1 <= n <= |w.trace| == |w.chat.msgs|
    requires u in w.chat.members ==>
               (InPeriods(w.chat.periods, u, n) <==> PresentAt(w.initial, w.trace, u, n) || Granted(w.trace, u, n))
    requires u !in w.chat.members ==> InPeriods(w.chat.periods, u, n)
    ensures Visible(w.chat, u, w.chat.msgs[n - 1]) <==> MaySee(w, u, n)
  {
    assert w.chat.msgs[n - 1].localId == n;
  }

  /** The whole filter, in every run and for every user, member or not. */
  lemma VisibleExactly(r: Run, u: int, n: nat)
    requires Created(r) && 1 <= n <= |After(r).trace|
    ensures var w := After(r);
            && |w.trace| == |w.chat.msgs|
            && (Visible(w.chat, u, w.chat.msgs[n - 1]) <==> MaySee(w, u, n))
  {
    Always(r);
    SeesExactly(r, u, n);
    VisibleAt(After(r), u, n);
  }

  /** Somebody who never was a member is limited by deletions alone. */
  lemma OutsiderSeesExactly(r: Run, u: int, n: nat)
    requires Created(r) && 1 <= n <= |After(r).trace|
    requires u != 0 && u !in After(r).chat.members
    ensures var w := After(r);
            && |w.trace| == |w.chat.msgs|
            && (Visible(w.chat, u, w.chat.msgs[n - 1]) <==>
                w.chat.msgs[n - 1].deletedAt.None? && (u, n) !in w.chat.deleted)
  {
    VisibleExactly(r, u, n);
  }
}
