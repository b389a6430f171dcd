/**
 Which calls on a chat are accepted and what each of them leaves, in terms of the history:
 sending, deleting, restoring and creating.  (Joining, leaving and roles are in ChatRoles,
 read pointers in ChatReading.)
 */
module ChatAnswers {
  import opened Wrappers
  import opened ChatModel
  import opened ChatHistory
  import opened ChatPresence
  import opened ChatRoles
  import opened ChatDeletion

  lemma FilterExactly(w: World, u: int, n: nat)
    requires Sound(w) && 1 <= n <= |w.trace|
    ensures Visible(w.chat, u, w.chat.msgs[n - 1]) <==> MaySee(w, u, n)
  {
    assert Follows(w.chat, w.initial, w.trace, u);
    VisibleAt(w, u, n);
  }

  // ---------------------------------------------------------------------------
  // Which messages a call works on

  /** Message n goes by one of these ids and the caller may see it; without a peer it must be in the chat. */
  ghost predicate Reaches(w: World, how: Naming, caller: int, ids: seq<nat>, n: nat)
    requires 1 <= n <= |w.trace| == |w.chat.msgs|
  {
    && (exists id :: id in ids && Names(how, w.chat.msgs[n - 1], id))
    && (how.ByRow? ==> caller == 0 || In(w.initial, w.trace, caller))
    && MaySee(w, caller, n)
  }

  lemma NamedByList(how: Naming, m: Msg, ids: seq<nat>)
    ensures (m.id in ids || (how.InPeer? && m.localId in ids)) <==> exists id :: id in ids && Names(how, m, id)
  {
    assert m.id in ids ==> Names(how, m, m.id);
    assert how.InPeer? && m.localId in ids ==> Names(how, m, m.localId);
  }

  lemma SelectedExactly(w: World, how: Naming, caller: int, ids: seq<nat>, n: nat)
    requires Sound(w) && 1 <= n <= |w.trace|
    ensures Selected(how, w.chat, caller, ids, w.chat.msgs[n - 1]) <==> Reaches(w, how, caller, ids, n)
  {
    FilterExactly(w, caller, n);
    NamedByList(how, w.chat.msgs[n - 1], ids);
    assert Follows(w.chat, w.initial, w.trace, caller);
  }

  ghost predicate ReachesAny(w: World, how: Naming, caller: int, ids: seq<nat>)
    requires |w.trace| == |w.chat.msgs|
  {
    exists n :: 1 <= n <= |w.trace| && Reaches(w, how, caller, ids, n)
  }

  lemma AnySelectedExactly(w: World, how: Naming, caller: int, ids: seq<nat>)
    requires Sound(w)
    ensures AnySelected(how, w.chat, w.chat.msgs, caller, ids) <==> ReachesAny(w, how, caller, ids)
  {
    var c := w.chat;
    AnySelectedIff(how, c, c.msgs, caller, ids);
    if AnySelected(how, c, c.msgs, caller, ids) {
      var i :| 0 <= i < |c.msgs| && Selected(how, c, caller, ids, c.msgs[i]);
      SelectedExactly(w, how, caller, ids, i + 1);
    }
    if ReachesAny(w, how, caller, ids) {
      var n :| 1 <= n <= |w.trace| && Reaches(w, how, caller, ids, n);
      SelectedExactly(w, how, caller, ids, n);
    }
  }

  // ---------------------------------------------------------------------------
  // Sending

  /** A reply is absent, or names a message of this chat that the sender may see. */
  ghost predicate ReplyAllowed(w: World, caller: int, reply: Reply)
    requires |w.trace| == |w.chat.msgs|
  {
    match reply
    case NoReply => true
    case BadReply => false
    case ReplyTo(id) =>
      exists n :: 1 <= n <= |w.trace| && Names(InPeer, w.chat.msgs[n - 1], id) && MaySee(w, caller, n)
  }

  lemma ReplyExactly(w: World, caller: int, reply: Reply)
    requires Sound(w)
    ensures ReplyOk(w.chat, caller, reply) <==> ReplyAllowed(w, caller, reply)
  {
    if reply.ReplyTo? {
      AnySelectedExactly(w, InPeer, caller, [reply.id]);
      ReachesOne(w, caller, reply.id);
      if ReplyAllowed(w, caller, reply) {
        var n :| 1 <= n <= |w.trace| && Names(InPeer, w.chat.msgs[n - 1], reply.id) && MaySee(w, caller, n);
        assert w.chat.msgs[n - 1].id > n - 1 && w.chat.msgs[n - 1].localId == n;
      }
    }
  }

  lemma ReachesOne(w: World, caller: int, id: nat)
    requires |w.trace| == |w.chat.msgs|
    ensures ReachesAny(w, InPeer, caller, [id]) <==> ReplyAllowed(w, caller, ReplyTo(id))
  {
    forall n | 1 <= n <= |w.trace|
      ensures Reaches(w, InPeer, caller, [id], n)
              <==> Names(InPeer, w.chat.msgs[n - 1], id) && MaySee(w, caller, n)
    {
      assert id in [id];
    }
  }

  /**
   A message is accepted exactly from a user the history has in the chat and whose reply, if
   any, names a message it may see; it is appended, and only the sender's read pointer moves.
   */
  lemma SendExactly(r: Run, caller: int, reply: Reply, now: nat, gap: nat)
    requires Created(r)
    ensures var w := After(r);
            var answer := SendMessage(w.chat, caller, reply, now, gap);
            && |w.trace| == |w.chat.msgs|
            && (answer.Ok? <==> In(w.initial, w.trace, caller) && ReplyAllowed(w, caller, reply))
            && (answer.Err? ==> answer.code == if In(w.initial, w.trace, caller) then 100 else 917)
            && (answer.Ok? ==>
                  var d := answer.value;
                  && caller in w.chat.members
                  && Posted(w.chat, d) && d.msgs[|w.trace|].from == caller && d.msgs[|w.trace|].createdAt == now
                  && d.owner == w.chat.owner && d.periods == w.chat.periods
                  && d.members ==
                     w.chat.members[caller := w.chat.members[caller].(lastRead := |w.trace| + 1)])
  {
    var w := After(r);
    AlwaysSound(r);
    assert Follows(w.chat, w.initial, w.trace, caller);
    ReplyExactly(w, caller, reply);
    SentShape(w.chat, caller, reply, now, gap);
  }

  lemma SentShape(c: Chat, caller: int, reply: Reply, now: nat, gap: nat)
    requires Numbered(c)
    ensures var answer := SendMessage(c, caller, reply, now, gap);
            && (answer.Ok? <==> IsActive(c, caller) && ReplyOk(c, caller, reply))
            && (answer.Err? ==> answer.code == if IsActive(c, caller) then 100 else 917)
            && (answer.Ok? ==>
                  var d := answer.value;
                  && Posted(c, d) && d.msgs[|c.msgs|].from == caller && d.msgs[|c.msgs|].createdAt == now
                  && d.owner == c.owner && d.periods == c.periods
                  && d.members == c.members[caller := c.members[caller].(lastRead := |c.msgs| + 1)])
  {
    NextIsLength(c);
  }

  // ---------------------------------------------------------------------------
  // Deleting

  /** Some message the call reaches is somebody else's, or was posted more than 24 hours ago. */
  ghost predicate ReachesForbidden(w: World, how: Naming, caller: int, ids: seq<nat>, now: nat)
    requires |w.trace| == |w.chat.msgs|
  {
    exists n :: 1 <= n <= |w.trace| && Reaches(w, how, caller, ids, n)
      && (AuthorOf(w.trace[n - 1]) != caller || now > w.chat.msgs[n - 1].createdAt + 24 * 3600 * 1_000_000_000)
  }

  /** The 24 hours, for one message the call reaches. */
  lemma DeletableAt(w: World, caller: int, now: nat, n: nat)
    requires Paired(w.chat.msgs, w.trace) && 1 <= n <= |w.trace|
    ensures MayDeleteForAll(w.chat.msgs[n - 1], caller, now) <==>
            AuthorOf(w.trace[n - 1]) == caller && now <= w.chat.msgs[n - 1].createdAt + 24 * 3600 * 1_000_000_000
  {
    assert Fits(w.chat.msgs[n - 1], w.trace[n - 1]);
  }

  lemma ForbiddenExactly(w: World, how: Naming, caller: int, ids: seq<nat>, now: nat)
    requires Sound(w)
    ensures AllDeletable(how, w.chat, w.chat.msgs, caller, ids, now)
            <==> !ReachesForbidden(w, how, caller, ids, now)
  {
    var c := w.chat;
    AllDeletableAt(how, c, c.msgs, caller, ids, now);
    if ReachesForbidden(w, how, caller, ids, now) {
      var n :| 1 <= n <= |w.trace| && Reaches(w, how, caller, ids, n)
        && (AuthorOf(w.trace[n - 1]) != caller || now > c.msgs[n - 1].createdAt + 24 * 3600 * 1_000_000_000);
      SelectedExactly(w, how, caller, ids, n);
      DeletableAt(w, caller, now, n);
    }
    if !AllDeletable(how, c, c.msgs, caller, ids, now) {
      var i :|
        0 <= i < |c.msgs| && Selected(how, c, caller, ids, c.msgs[i]) && !MayDeleteForAll(c.msgs[i], caller, now);
      SelectedExactly(w, how, caller, ids, i + 1);
      DeletableAt(w, caller, now, i + 1);
    }
  }

  /**
   A delete call is refused exactly when it names nothing, or wants to delete for all and
   reaches a message of somebody else or older than 24 hours, here or in another chat.
   */
  lemma DeleteRefusedExactly(r: Run, how: Naming, caller: int, ids: seq<nat>, forAll: bool, now: nat)
    requires Created(r)
    ensures var w := After(r);
            var answer := Delete(how, w.chat, caller, ids, forAll, now);
            && |w.trace| == |w.chat.msgs|
            && (answer.Err? <==>
                || ids == []
                || (forAll && ReachesForbidden(w, how, caller, ids, now))
                || (forAll && how.ByRow? && !how.othersOk))
            && (answer.Err? ==> answer.code == if ids == [] then 100 else 924)
  {
    AlwaysSound(r);
    ForbiddenExactly(After(r), how, caller, ids, now);
  }

  lemma DeleteShape(c: Chat, how: Naming, caller: int, ids: seq<nat>, forAll: bool, now: nat)
    requires Delete(how, c, caller, ids, forAll, now).Ok?
    ensures var d := Delete(how, c, caller, ids, forAll, now).value;
            && d.members == c.members && d.periods == c.periods && d.owner == c.owner
            && (if AnySelected(how, c, c.msgs, caller, ids)
                then
                  && d.msgs == (if forAll then StampAll(how, c, c.msgs, caller, ids, now) else c.msgs)
                  && d.deleted == (if forAll then c.deleted else c.deleted + HiddenKeys(how, c, c.msgs, caller, ids))
                else d.msgs == c.msgs && d.deleted == c.deleted)
  {
  }

  lemma DeleteRow(c: Chat, how: Naming, caller: int, ids: seq<nat>, forAll: bool, now: nat, u: int, i: nat)
    requires Numbered(c) && FlagsAgree(c.msgs) && i < |c.msgs|
    requires Delete(how, c, caller, ids, forAll, now).Ok?
    ensures var d := Delete(how, c, caller, ids, forAll, now).value;
            var hit := Selected(how, c, caller, ids, c.msgs[i]);
            && |d.msgs| == |c.msgs|
            && d.msgs[i] == (if forAll && hit then c.msgs[i].(flags := 192, deletedAt := Some(now)) else c.msgs[i])
            && ((u, i + 1) in d.deleted <==> (u, i + 1) in c.deleted || (!forAll && u == caller && hit))
  {
    DeleteShape(c, how, caller, ids, forAll, now);
    AnySelectedIff(how, c, c.msgs, caller, ids);
    StampsExactly(c, how, caller, ids, now, i);
    HidesExactly(c, how, caller, ids, u, i);
  }

  /** Every row after an accepted delete call: what it reached is marked, all else is as it was. */
  lemma DeleteMarksExactly(r: Run, how: Naming, caller: int, ids: seq<nat>, forAll: bool, now: nat, u: int, n: nat)
    requires Created(r) && Delete(how, After(r).chat, caller, ids, forAll, now).Ok?
    requires 1 <= n <= |After(r).trace|
    ensures var w := After(r);
            var c, d := w.chat, Delete(how, w.chat, caller, ids, forAll, now).value;
            && |w.trace| == |c.msgs| == |d.msgs|
            && d.msgs[n - 1] ==
               (if forAll && Reaches(w, how, caller, ids, n) then c.msgs[n - 1].(flags := 192, deletedAt := Some(now))
                else c.msgs[n - 1])
            && ((u, n) in d.deleted <==>
                (u, n) in c.deleted || (!forAll && u == caller && Reaches(w, how, caller, ids, n)))
            && d.members == c.members && d.periods == c.periods && d.owner == c.owner
  {
    AlwaysSound(r);
    SelectedExactly(After(r), how, caller, ids, n);
    DeleteShape(After(r).chat, how, caller, ids, forAll, now);
    DeleteRow(After(r).chat, how, caller, ids, forAll, now, u, n - 1);
  }

  lemma StampsExactly(c: Chat, how: Naming, caller: int, ids: seq<nat>, now: nat, i: nat)
    requires FlagsAgree(c.msgs) && i < |c.msgs|
    ensures StampAll(how, c, c.msgs, caller, ids, now)[i] ==
            if Selected(how, c, caller, ids, c.msgs[i]) then c.msgs[i].(flags := 192, deletedAt := Some(now))
            else c.msgs[i]
  {
    StampAllAt(how, c, c.msgs, caller, ids, now, i);
  }

  lemma HidesExactly(c: Chat, how: Naming, caller: int, ids: seq<nat>, u: int, i: nat)
    requires Numbered(c) && i < |c.msgs|
    ensures (u, i + 1) in HiddenKeys(how, c, c.msgs, caller, ids)
            <==> u == caller && Selected(how, c, caller, ids, c.msgs[i])
  {
    HiddenKeysAre(how, c, c.msgs, caller, ids, (u, i + 1));
  }

  // ---------------------------------------------------------------------------
  // Restoring

  /** Message k is the one with the smallest row id among those that go by `id`. */
  predicate NamesFirst(how: Naming, ms: seq<Msg>, id: nat, k: nat) {
    k < |ms| && Names(how, ms[k], id) && forall i :: 0 <= i < k ==> !Names(how, ms[i], id)
  }

  lemma NamesFirstIs(how: Naming, ms: seq<Msg>, id: nat, k: nat)
    requires RowsGrow(ms)
    ensures NamesFirst(how, ms, id, k) <==> FirstNamed(how, ms, id) == Some(k)
  {
    FirstNamedIsFirst(how, ms, id);
    var f := FirstNamed(how, ms, id);
    assert f.Some? && f.value < k ==> Names(how, ms[f.value], id);
  }

  lemma RestoreCases(c: Chat, how: Naming, caller: int, id: nat, k: nat)
    requires Numbered(c) && RowsGrow(c.msgs) && NamesFirst(how, c.msgs, id, k)
    ensures Restore(how, c, caller, id) ==
            if (caller, k + 1) in c.deleted then Ok(c.(deleted := c.deleted - {(caller, k + 1)}))
            else if c.msgs[k].deletedAt.Some? && c.msgs[k].from == caller
            then Ok(Refresh(c.(msgs := c.msgs[k := Unstamped(c.msgs[k])])))
            else Err(910)
  {
    NamesFirstIs(how, c.msgs, id, k);
    assert id != 0;
  }

  ghost predicate MayRestore(c: Chat, how: Naming, caller: int, id: nat, k: nat) {
    && NamesFirst(how, c.msgs, id, k)
    && ((caller, k + 1) in c.deleted || (c.msgs[k].deletedAt.Some? && c.msgs[k].from == caller))
  }

  lemma RestoreAccepted(c: Chat, how: Naming, caller: int, id: nat)
    requires Numbered(c) && RowsGrow(c.msgs)
    ensures Restore(how, c, caller, id).Ok? <==> exists k: nat :: MayRestore(c, how, caller, id, k)
    ensures Restore(how, c, caller, id).Err? ==> Restore(how, c, caller, id).code == if id == 0 then 100 else 910
  {
    var f := FirstNamed(how, c.msgs, id);
    if k: nat :| MayRestore(c, how, caller, id, k) {
      RestoreCases(c, how, caller, id, k);
    }
    if f.Some? {
      NamesFirstIs(how, c.msgs, id, f.value);
      RestoreCases(c, how, caller, id, f.value);
      assert Restore(how, c, caller, id).Ok? ==> MayRestore(c, how, caller, id, f.value);
    }
  }

  /**
   A restore is accepted exactly when the first message named is hidden by the caller, or
   deleted for all and the caller's own.
   */
  lemma RestoreAcceptedExactly(r: Run, how: Naming, caller: int, id: nat)
    requires Created(r)
    ensures var c := After(r).chat;
            var answer := Restore(how, c, caller, id);
            && (answer.Ok? <==> exists k: nat :: MayRestore(c, how, caller, id, k))
            && (answer.Err? ==> answer.code == if id == 0 then 100 else 910)
  {
    Always(r);
    RestoreAccepted(After(r).chat, how, caller, id);
  }

  /** What a user hid for itself it gets back at any later time, and nothing else changes. */
  lemma HiderCanRestore(r: Run, how: Naming, u: int, id: nat, k: nat)
    requires Created(r) && NamesFirst(how, After(r).chat.msgs, id, k)
    requires (u, k + 1) in After(r).chat.deleted
    ensures var c := After(r).chat;
            Restore(how, c, u, id) == Ok(c.(deleted := c.deleted - {(u, k + 1)}))
  {
    Always(r);
    RestoreCases(After(r).chat, how, u, id, k);
  }

  lemma ShownToOthers(c: Chat, caller: int, n: nat, u: int, m: Msg)
    requires u != caller
    ensures Visible(c.(deleted := c.deleted - {(caller, n)}), u, m) <==> Visible(c, u, m)
  {
  }

  /** A restore by somebody else than the author changes no row, and nothing anybody but the caller sees. */
  lemma RestoreByOthers(r: Run, how: Naming, caller: int, id: nat, k: nat, u: int, m: Msg)
    requires Created(r) && NamesFirst(how, After(r).chat.msgs, id, k)
    requires After(r).chat.msgs[k].from != caller && u != caller
    ensures var c := After(r).chat;
            var answer := Restore(how, c, caller, id);
            answer.Ok? ==>
              && answer.value == c.(deleted := c.deleted - {(caller, k + 1)})
              && (Visible(answer.value, u, m) <==> Visible(c, u, m))
  {
    Always(r);
    RestoreCases(After(r).chat, how, caller, id, k);
    ShownToOthers(After(r).chat, caller, k + 1, u, m);
  }

  /** Calls that neither delete nor restore leave every row as it is. */
  lemma RowStays(c: Chat, d: Chat, k: nat)
    requires k < |c.msgs|
    requires RowsKept(c, d) || Posted(c, d)
    ensures k < |d.msgs| && d.msgs[k] == c.msgs[k]
  {
    if Posted(c, d) {
      assert d.msgs[..|c.msgs|][k] == d.msgs[k];
    }
  }

  /** The call is a restore by the author of message k that names it first. */
  predicate RestoresOwn(c: Chat, op: Op, k: nat)
    requires k < |c.msgs|
  {
    op.RestoreMessage? && op.caller == c.msgs[k].from && NamesFirst(op.how, c.msgs, op.id, k)
  }

  lemma ClearedByRestore(c: Chat, how: Naming, caller: int, id: nat, k: nat)
    requires Numbered(c) && RowsGrow(c.msgs) && k < |c.msgs| && Restore(how, c, caller, id).Ok?
    requires Restore(how, c, caller, id).value.msgs[k].deletedAt != c.msgs[k].deletedAt
    ensures caller == c.msgs[k].from && NamesFirst(how, c.msgs, id, k)
  {
    RestoreAccepted(c, how, caller, id);
    var f: nat :| MayRestore(c, how, caller, id, f);
    RestoreCases(c, how, caller, id, f);
  }

  /** A step that undoes a deletion for all is a restore by the author that names this message first. */
  lemma UndeletedByRestore(c: Chat, call: Call, k: nat)
    requires Numbered(c) && RowsGrow(c.msgs)
    requires k < |c.msgs| && c.msgs[k].deletedAt.Some?
    requires k < |Step(c, call).msgs| && Step(c, call).msgs[k].deletedAt.None?
    ensures RestoresOwn(c, call.op, k)
  {
    match call.op
    case DeleteMessages(how, caller, ids, _) => StampAllAt(how, c, c.msgs, caller, ids, call.now, k);
    case RestoreMessage(how, caller, id) => ClearedByRestore(c, how, caller, id, k);
    case _ =>
      StepShape(c, call);
      RowStays(c, Step(c, call), k);
  }

  /** A message stays where it is, with its author, text and time. */
  lemma BodyStays(c: Chat, call: Call, k: nat)
    requires k < |c.msgs|
    ensures k < |Step(c, call).msgs| && SameBody(c.msgs[k], Step(c, call).msgs[k])
  {
    match call.op
    case DeleteMessages(how, caller, ids, _) => StampAllKeeps(how, c, caller, ids, call.now);
    case RestoreMessage(_, _, _) =>
    case _ =>
      StepShape(c, call);
      RowStays(c, Step(c, call), k);
  }

  lemma {:induction false} BodyForGood(r: Run, j: nat, k: nat)
    requires Created(r) && j <= |r.calls| && k < |After(Cut(r, j)).chat.msgs|
    ensures k < |After(r).chat.msgs| && SameBody(After(Cut(r, j)).chat.msgs[k], After(r).chat.msgs[k])
    decreases |r.calls|
  {
    assert Cut(r, |r.calls|) == r;
    if j < |r.calls| {
      var before := Cut(r, |r.calls| - 1);
      assert Cut(before, j) == Cut(r, j);
      BodyForGood(before, j, k);
      LastCall(r);
      BodyStays(After(before).chat, r.calls[|r.calls| - 1], k);
    }
  }

  lemma LastUndeletes(r: Run, k: nat)
    requires Created(r) && r.calls != []
    requires k < |After(Cut(r, |r.calls| - 1)).chat.msgs| && k < |After(r).chat.msgs|
    requires After(Cut(r, |r.calls| - 1)).chat.msgs[k].deletedAt.Some? && After(r).chat.msgs[k].deletedAt.None?
    ensures RestoresOwn(After(Cut(r, |r.calls| - 1)).chat, r.calls[|r.calls| - 1].op, k)
  {
    Always(Cut(r, |r.calls| - 1));
    LastCall(r);
    UndeletedByRestore(After(Cut(r, |r.calls| - 1)).chat, r.calls[|r.calls| - 1], k);
  }

  /**
   Main result: if a message was deleted for all after j calls and no longer is at the end,
   one of the calls in between was a restore by its author that named it.
   */
  lemma {:induction false} OnlyTheAuthorUndeletes(r: Run, j: nat, k: nat) returns (i: nat)
    requires Created(r) && j <= |r.calls| && k < |After(Cut(r, j)).chat.msgs|
    requires After(Cut(r, j)).chat.msgs[k].deletedAt.Some?
    requires k < |After(r).chat.msgs| && After(r).chat.msgs[k].deletedAt.None?
    ensures j <= i < |r.calls| && k < |After(Cut(r, i)).chat.msgs|
    ensures RestoresOwn(After(Cut(r, i)).chat, r.calls[i].op, k)
    decreases |r.calls|
  {
    CutTwice(r, |r.calls|, j);
    var n := |r.calls| - 1;
    var before := Cut(r, n);
    CutTwice(r, n, j);
    BodyForGood(before, j, k);
    if After(before).chat.msgs[k].deletedAt.Some? {
      LastUndeletes(r, k);
      i := n;
    } else {
      i := OnlyTheAuthorUndeletes(before, j, k);
      CutTwice(r, n, i);
    }
  }

  /** A row the step appends carries the time of the call, and the history gets its event. */
  lemma AppendedBy(w: World, call: Call, k: nat)
    requires |w.trace| == |w.chat.msgs| <= k < |Next(w, call).chat.msgs|
    ensures k == |w.chat.msgs| && |Next(w, call).chat.msgs| == k + 1
    ensures Next(w, call).chat.msgs[k].createdAt == call.now
    ensures Carries(Next(w, call).chat.msgs[k], call.op)
    ensures Next(w, call).trace == w.trace + [EventOf(call.op)]
  {
    StepShape(w.chat, call);
    assert Posted(w.chat, Step(w.chat, call));
    PostedAs(w.chat, call);
    PostedAction(w.chat, call);
  }

  /** The action of the message a call posts, and the user or other id it is about. */
  predicate Carries(m: Msg, op: Op) {
    match op
    case Send(_, _) => m.action == NoAction
    case Announce(caller, name, mid) => m.action == OtherAction(name) && m.actionMid == if mid != 0 then mid else caller
    case Add(_, user, _) => m.action == InviteUser && m.actionMid == user
    case Join(caller, _) => m.action == InviteByLink && m.actionMid == caller
    case Remove(caller, user) => m.action == KickUser && m.actionMid == if user == 0 then caller else user
    case Role(_, user, role) => m.action == (if role then ModeratorAdd else ModeratorRemove) && m.actionMid == user
    case _ => false
  }

  lemma PostedAction(c: Chat, call: Call)
    requires !Deletes(call.op) && Posted(c, Step(c, call))
    ensures Carries(Step(c, call).msgs[|c.msgs|], call.op)
  {
  }

  lemma EarlierRow(w: World, call: Call, k: nat)
    requires k < |w.chat.msgs| == |w.trace|
    ensures k < |Next(w, call).chat.msgs| && k < |Next(w, call).trace|
    ensures SameBody(w.chat.msgs[k], Next(w, call).chat.msgs[k])
    ensures Next(w, call).trace[k] == w.trace[k]
  {
    BodyStays(w.chat, call, k);
  }

  /** Every message but the first was posted by one of the calls, at its time and with its action. */
  lemma {:induction false} EveryMessageHasItsCall(r: Run, k: nat) returns (i: nat)
    requires Created(r) && 1 <= k < |After(r).chat.msgs|
    ensures i < |r.calls| && |After(Cut(r, i)).chat.msgs| == k
    ensures After(r).chat.msgs[k].createdAt == r.calls[i].now && Carries(After(r).chat.msgs[k], r.calls[i].op)
    ensures |After(r).trace| == |After(r).chat.msgs| && After(r).trace[k] == EventOf(r.calls[i].op)
    decreases |r.calls|
  {
    CreateShape(r.owner, r.ids, r.now, r.gap);
    var n := |r.calls| - 1;
    var before := Cut(r, n);
    LastStep(r);
    if k < |After(before).chat.msgs| {
      i := EveryMessageHasItsCall(before, k);
      EarlierRow(After(before), r.calls[n], k);
      assert Cut(before, i) == Cut(r, i);
    } else {
      i := n;
      AppendedBy(After(before), r.calls[n], k);
    }
  }

  lemma LastStep(r: Run)
    requires Created(r) && r.calls != []
    ensures After(r) == Next(After(Cut(r, |r.calls| - 1)), r.calls[|r.calls| - 1])
    ensures |After(r).trace| == |After(r).chat.msgs|
    ensures |After(Cut(r, |r.calls| - 1)).trace| == |After(Cut(r, |r.calls| - 1)).chat.msgs|
  {
    Always(r);
    Always(Cut(r, |r.calls| - 1));
  }

  // ---------------------------------------------------------------------------
  // Creating

  /** No user other than the owner is listed twice. */
  predicate NoneTwice(ids: seq<int>, owner: int) {
    forall i, j :: 0 <= i < j < |ids| && ids[i] != owner && ids[i] > 0 ==> ids[i] != ids[j]
  }

  lemma InvitedSnoc(front: seq<int>, last: int, owner: int)
    ensures var rest := Invited(front, owner);
            Invited(front + [last], owner) == if last != owner && last > 0 then rest + [last] else rest
  {
    assert (front + [last])[..|front|] == front;
    assert Invited(front, owner) + [] == Invited(front, owner);
  }

  lemma DistinctSnoc(front: seq<int>, last: int)
    ensures Distinct(front + [last]) <==> Distinct(front) && last !in front
  {
    assert (front + [last])[..|front|] == front;
  }

  lemma {:induction false} InvitedDistinct(ids: seq<int>, owner: int)
    ensures Distinct(Invited(ids, owner)) <==> NoneTwice(ids, owner)
  {
    if ids != [] {
      var front, last := ids[..|ids| - 1], ids[|ids| - 1];
      assert ids == front + [last];
      InvitedDistinct(front, owner);
      InvitedSnoc(front, last, owner);
      NoneTwiceSnoc(front, last, owner);
      DistinctSnoc(Invited(front, owner), last);
      InvitedAre(front, owner);
    }
  }

  lemma NoneTwiceSnoc(front: seq<int>, last: int, owner: int)
    ensures NoneTwice(front + [last], owner) <==>
            NoneTwice(front, owner) && (last != owner && last > 0 ==> last !in front)
  {
    var ids, n := front + [last], |front|;
    assert ids[n] == last && ids[..n] == front;
    if NoneTwice(ids, owner) {
      forall i, j | 0 <= i < j < n && front[i] != owner && front[i] > 0 ensures front[i] != front[j] {
        assert ids[i] == front[i] && ids[j] == front[j];
      }
      forall i | 0 <= i < n && last != owner && last > 0 ensures front[i] != last {
        assert ids[i] == front[i];
      }
    }
  }

  /** A chat is created exactly when no user besides the owner is listed twice; the listed ones are in it. */
  lemma CreatedExactly(owner: int, ids: seq<int>, now: nat, gap: nat, u: int)
    ensures var answer := CreateChat(owner, ids, now, gap);
            && (answer.Ok? <==> NoneTwice(ids, owner))
            && (answer.Err? ==> answer.code == 10)
            && (answer.Ok? ==>
                  && (IsActive(answer.value, u) <==> u == owner || (u in ids && u > 0))
                  && answer.value.msgs == [Msg(1 + gap, 1, owner, ChatCreate, owner, 0, now, None)])
  {
    InvitedDistinct(ids, owner);
    InvitedAre(ids, owner);
    FirstRows(owner, Invited(ids, owner), u, 1);
    if CreateChat(owner, ids, now, gap).Ok? {
      CreateShape(owner, ids, now, gap);
    }
  }
}
