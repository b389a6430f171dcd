/**
 Who may join, remove and appoint: the checks on stored rows against rules that look
 only at the history.
 */
module ChatRoles {
  import opened Wrappers
  import opened ChatModel
  import opened ChatHistory
  import opened ChatPresence

  // ---------------------------------------------------------------------------
  // Reference: roles and removals, read off the history

  /** Is u a moderator after `tr`: appointed and since neither dismissed nor removed? */
  predicate Moderates(tr: seq<Event>, u: int) {
    && tr != []
    && match tr[|tr| - 1]
       case Appointed(user, _) => user == u || Moderates(tr[..|tr| - 1], u)
       case Dismissed(user, _) => user != u && Moderates(tr[..|tr| - 1], u)
       case Removed(user, _) => user != u && Moderates(tr[..|tr| - 1], u)
       case _ => Moderates(tr[..|tr| - 1], u)
  }

  /** Who removed u last, u itself when it left. */
  function LastRemover(tr: seq<Event>, u: int): Option<int> {
    if tr == [] then None
    else if tr[|tr| - 1].Removed? && tr[|tr| - 1].user == u then Some(tr[|tr| - 1].remover)
    else LastRemover(tr[..|tr| - 1], u)
  }

  predicate WasKicked(tr: seq<Event>, u: int) {
    LastRemover(tr, u).Some? && LastRemover(tr, u).value != u
  }

  /** The rules: may `e` happen after `tr`? */
  predicate Allowed(owner: int, initial: set<int>, tr: seq<Event>, e: Event) {
    match e
    case Said(_) => true
    case Wrote(u) => In(initial, tr, u)
    case Joined(u, inviter, _) =>
      && !In(initial, tr, u)
      && (WasKicked(tr, u) ==> inviter != u && (inviter == owner || Moderates(tr, inviter)))
    case Removed(u, remover) =>
      && In(initial, tr, u)
      && (u != remover ==>
           && u != owner
           && (remover == owner || (Moderates(tr, remover) && !Moderates(tr, u))))
    case Appointed(u, appointer) =>
      appointer == owner && u != owner && In(initial, tr, u) && !Moderates(tr, u)
    case Dismissed(u, dismisser) =>
      dismisser == owner && u != owner && In(initial, tr, u) && Moderates(tr, u)
  }

  lemma RolesSnoc(tr: seq<Event>, e: Event, u: int)
    ensures Moderates(tr + [e], u) <==>
            (e.Appointed? && e.user == u)
            || (Moderates(tr, u) && !((e.Dismissed? || e.Removed?) && e.user == u))
    ensures LastRemover(tr + [e], u) == if e.Removed? && e.user == u then Some(e.remover) else LastRemover(tr, u)
  {
    assert (tr + [e])[..|tr|] == tr;
  }

  // ---------------------------------------------------------------------------
  // The scan for the last kick message

  lemma {:induction false} LatestKickIs(ms: seq<Msg>, tr: seq<Event>, u: int)
    requires Paired(ms, tr) && RowsGrow(ms)
    requires forall i :: 0 <= i < |ms| ==> ms[i].localId == i + 1
    ensures LatestKick(ms, u).Some? <==> LastRemover(tr, u).Some?
    ensures LatestKick(ms, u).Some? ==>
              && LatestKick(ms, u).value.from == LastRemover(tr, u).value
              && LatestKick(ms, u).value.localId <= |ms|
              && LatestKick(ms, u).value.id > 0
  {
    if ms != [] {
      var n := |ms| - 1;
      LatestKickIs(ms[..n], tr[..n], u);
      assert Fits(ms[n], tr[n]);
    }
  }

  lemma KicksAgree(c: Chat, tr: seq<Event>, u: int)
    requires RowsSound(c) && Paired(c.msgs, tr)
    ensures KickedByOther(c, u) <==> WasKicked(tr, u)
  {
    LatestKickIs(c.msgs, tr, u);
  }

  // ---------------------------------------------------------------------------
  // Role flags follow the history

  predicate RoleAgrees(c: Chat, tr: seq<Event>, u: int) {
    && (if u == c.owner then IsAdmin(c, u)
        else (IsAdmin(c, u) <==> Moderates(tr, u)) && (IsAdmin(c, u) ==> IsActive(c, u)))
    && (LastRemover(tr, u).Some? ==> u in c.members)
  }

  predicate KeepsRole(c: Chat, d: Chat, u: int) {
    && d.owner == c.owner
    && (IsAdmin(d, u) <==> IsAdmin(c, u))
    && (u in c.members ==> u in d.members)
  }

  lemma OthersKeepRole(c: Chat, call: Call, u: int)
    requires !call.op.Remove? && !call.op.Role?
    ensures KeepsRole(c, Step(c, call), u)
  {
  }

  lemma RemoveRole(c: Chat, caller: int, userId: int, now: nat, gap: nat, u: int)
    requires RemoveChatUser(c, caller, userId, now, gap).Ok?
    ensures var d := RemoveChatUser(c, caller, userId, now, gap).value;
            var user := if userId == 0 then caller else userId;
            && d.owner == c.owner
            && (IsAdmin(d, u) <==> IsAdmin(c, u) && (u != user || u == c.owner))
            && (u in d.members <==> u in c.members)
            && user in c.members
  {
  }

  lemma SetRoleRole(c: Chat, caller: int, user: int, role: bool, now: nat, gap: nat, u: int)
    requires SetRole(c, caller, user, role, now, gap).Ok?
    ensures var d := SetRole(c, caller, user, role, now, gap).value;
            && d.owner == c.owner && user != c.owner
            && (IsAdmin(d, u) <==> if u == user then role else IsAdmin(c, u))
            && (u in d.members <==> u in c.members)
            && IsActive(c, user)
            && (d == c || |d.msgs| == |c.msgs| + 1)
            && (d == c ==> IsAdmin(c, user) == role)
            && (d != c ==> caller == c.owner && IsAdmin(c, user) != role)
  {
  }

  predicate ActiveIs(c: Chat, initial: set<int>, tr: seq<Event>, u: int) {
    IsActive(c, u) <==> In(initial, tr, u)
  }

  lemma RoleKept(c: Chat, d: Chat, tr: seq<Event>, e: Event, u: int)
    requires RoleAgrees(c, tr, u) && KeepsRole(c, d, u)
    requires IsActive(c, u) ==> IsActive(d, u)
    requires !e.Removed? && !e.Appointed? && !e.Dismissed?
    ensures RoleAgrees(d, tr, u) && RoleAgrees(d, tr + [e], u)
  {
    RolesSnoc(tr, e, u);
  }

  lemma RoleAfterRemove(w: World, call: Call, u: int)
    requires RoleAgrees(w.chat, w.trace, u) && Numbered(w.chat) && call.op.Remove?
    requires ActiveIs(w.chat, w.initial, w.trace, u)
    ensures RoleAgrees(Next(w, call).chat, Next(w, call).trace, u)
    ensures Next(w, call).chat.owner == w.chat.owner
  {
    var c, caller, user, now, gap := w.chat, call.op.caller, call.op.user, call.now, call.gap;
    if RemoveChatUser(c, caller, user, now, gap).Ok? {
      RolesSnoc(w.trace, EventOf(call.op), u);
      RemoveRole(c, caller, user, now, gap, u);
      RemoveShape(c, caller, user, now, gap, u);
    }
  }

  lemma RoleAfterRole(w: World, call: Call, u: int)
    requires RoleAgrees(w.chat, w.trace, u) && call.op.Role?
    requires IsActive(w.chat, u) ==> IsActive(Next(w, call).chat, u)
    ensures RoleAgrees(Next(w, call).chat, Next(w, call).trace, u)
    ensures Next(w, call).chat.owner == w.chat.owner
  {
    var c, caller, user, role := w.chat, call.op.caller, call.op.user, call.op.role;
    if SetRole(c, caller, user, role, call.now, call.gap).Ok? {
      RolesSnoc(w.trace, EventOf(call.op), u);
      SetRoleRole(c, caller, user, role, call.now, call.gap, u);
    }
  }

  lemma StaysActive(w: World, call: Call, u: int)
    requires ActiveIs(w.chat, w.initial, w.trace, u)
    requires ActiveIs(Next(w, call).chat, w.initial, Next(w, call).trace, u)
    requires !call.op.Remove? && IsActive(w.chat, u)
    ensures IsActive(Next(w, call).chat, u)
  {
    InSnoc(w.initial, w.trace, EventOf(call.op), u);
  }

  lemma RoleAgreesStep(w: World, call: Call, u: int)
    requires RoleAgrees(w.chat, w.trace, u) && Numbered(w.chat)
    requires ActiveIs(w.chat, w.initial, w.trace, u)
    requires ActiveIs(Next(w, call).chat, w.initial, Next(w, call).trace, u)
    ensures RoleAgrees(Next(w, call).chat, Next(w, call).trace, u)
    ensures Next(w, call).chat.owner == w.chat.owner
  {
    if call.op.Remove? {
      RoleAfterRemove(w, call, u);
    } else {
      if IsActive(w.chat, u) {
        StaysActive(w, call, u);
      }
      if call.op.Role? {
        RoleAfterRole(w, call, u);
      } else {
        OthersKeepRole(w.chat, call, u);
        RoleKept(w.chat, Step(w.chat, call), w.trace, EventOf(call.op), u);
      }
    }
  }

  lemma RoleAgreesNext(w: World, call: Call, u: int)
    requires RoleAgrees(w.chat, w.trace, u)
    requires Numbered(w.chat)
    requires Follows(w.chat, w.initial, w.trace, u)
    requires Follows(Next(w, call).chat, w.initial, Next(w, call).trace, u)
    ensures RoleAgrees(Next(w, call).chat, Next(w, call).trace, u)
    ensures Next(w, call).chat.owner == w.chat.owner
  {
    RoleAgreesStep(w, call, u);
  }

  // ---------------------------------------------------------------------------
  // The checks are the rules

  /** Everything known about a reachable state. */
  ghost predicate Sound(w: World) {
    && RowsSound(w.chat)
    && Paired(w.chat.msgs, w.trace)
    && (forall u :: Follows(w.chat, w.initial, w.trace, u))
    && (forall u :: RoleAgrees(w.chat, w.trace, u))
  }

  lemma AddExactly(w: World, caller: int, user: int, history: bool, now: nat, gap: nat)
    requires Sound(w)
    ensures var answer := AddChatUser(w.chat, caller, user, history, now, gap);
            && (answer.Ok? <==>
                user != 0 && Allowed(w.chat.owner, w.initial, w.trace, Joined(user, caller, history)))
            && (answer.Err? ==> answer.code == if user == 0 then 100 else 15)
  {
    var c := w.chat;
    KicksAgree(c, w.trace, user);
    assert Follows(c, w.initial, w.trace, user);
    assert RoleAgrees(c, w.trace, user) && RoleAgrees(c, w.trace, caller);
  }

  lemma JoinExactly(w: World, caller: int, history: bool, now: nat, gap: nat)
    requires Sound(w)
    ensures var answer := JoinByLink(w.chat, caller, history, now, gap);
            && (In(w.initial, w.trace, caller) ==> answer == Ok(w.chat))
            && (!In(w.initial, w.trace, caller) ==>
                  (answer.Ok? <==> Allowed(w.chat.owner, w.initial, w.trace, Joined(caller, caller, history))))
            && (answer.Err? ==> answer.code == 15)
  {
    var c := w.chat;
    KicksAgree(c, w.trace, caller);
    assert Follows(c, w.initial, w.trace, caller);
    assert RoleAgrees(c, w.trace, caller);
  }

  lemma RemoveExactly(w: World, caller: int, userId: int, now: nat, gap: nat)
    requires Sound(w)
    ensures var answer := RemoveChatUser(w.chat, caller, userId, now, gap);
            && (answer.Ok? <==> Allowed(w.chat.owner, w.initial, w.trace,
                                        Removed(if userId == 0 then caller else userId, caller)))
            && (answer.Err? ==> answer.code == 15)
  {
    var user := if userId == 0 then caller else userId;
    assert Follows(w.chat, w.initial, w.trace, user);
    assert RoleAgrees(w.chat, w.trace, user) && RoleAgrees(w.chat, w.trace, caller);
  }

  lemma RoleExactly(w: World, caller: int, user: int, role: bool, now: nat, gap: nat)
    requires Sound(w)
    ensures var c := w.chat;
            var answer := SetRole(c, caller, user, role, now, gap);
            && (answer.Ok? && |answer.value.msgs| > |c.msgs|
                <==> user != 0 && Allowed(c.owner, w.initial, w.trace,
                             if role then Appointed(user, caller) else Dismissed(user, caller)))
            && (answer.Ok? <==> user != 0 && caller == c.owner && user != c.owner && In(w.initial, w.trace, user))
            && (answer.Err? ==> answer.code == if user == 0 then 100 else 15)
            && (answer.Ok? && |answer.value.msgs| <= |c.msgs| ==> answer.value == c)
  {
    var c := w.chat;
    assert Follows(c, w.initial, w.trace, user);
    assert RoleAgrees(c, w.trace, user);
    if SetRole(c, caller, user, role, now, gap).Ok? {
      SetRoleRole(c, caller, user, role, now, gap, user);
    }
  }

  /** Whatever is recorded was allowed. */
  lemma StepAllowed(w: World, call: Call)
    requires Sound(w)
    ensures var next := Next(w, call);
            || next.trace == w.trace
            || (next.trace == w.trace + [EventOf(call.op)]
                && Allowed(w.chat.owner, w.initial, w.trace, EventOf(call.op)))
  {
    var now, gap := call.now, call.gap;
    match call.op
    case Send(caller, _) =>
      assert Follows(w.chat, w.initial, w.trace, caller);
    case Add(caller, user, history) =>
      AddExactly(w, caller, user, history, now, gap);
    case Join(caller, history) =>
      JoinExactly(w, caller, history, now, gap);
    case Remove(caller, user) => RemoveExactly(w, caller, user, now, gap);
    case Role(caller, user, role) =>
      RoleExactly(w, caller, user, role, now, gap);
    case _ =>
  }

  predicate Lawful(owner: int, initial: set<int>, tr: seq<Event>) {
    forall n :: 0 <= n < |tr| ==> Allowed(owner, initial, tr[..n], tr[n])
  }

  lemma LawfulSnoc(owner: int, initial: set<int>, tr: seq<Event>, e: Event)
    requires Lawful(owner, initial, tr) && Allowed(owner, initial, tr, e)
    ensures Lawful(owner, initial, tr + [e])
  {
    var next := tr + [e];
    forall n: nat | n < |next|
      ensures Allowed(owner, initial, next[..n], next[n])
    {
      assert next[..n] == tr[..n];
    }
  }

  lemma {:induction false} FirstRoles(owner: int, ids: seq<int>, u: int)
    requires owner !in ids
    ensures owner in FirstMembers(owner, ids) && FirstMembers(owner, ids)[owner].isAdmin
    ensures u in FirstMembers(owner, ids) && u != owner ==> !FirstMembers(owner, ids)[u].isAdmin
  {
    if ids != [] {
      FirstRoles(owner, ids[..|ids| - 1], u);
    }
  }

  lemma SoundStart(r: Run)
    requires Created(r) && r.calls == []
    ensures Sound(After(r)) && After(r).chat.owner == r.owner
    ensures Lawful(r.owner, After(r).initial, After(r).trace)
  {
    Always(r);
    CreateShape(r.owner, r.ids, r.now, r.gap);
    InvitedAre(r.ids, r.owner);
    var w := After(r);
    assert w.trace[..0] == [];
    forall u
      ensures Follows(w.chat, w.initial, w.trace, u) && RoleAgrees(w.chat, w.trace, u)
    {
      FollowsStart(r, u);
      RolesSnoc([], Said(r.owner), u);
      assert [] + [Said(r.owner)] == [Said(r.owner)];
      FirstRoles(r.owner, Invited(r.ids, r.owner), u);
    }
  }

  lemma SoundNext(w: World, call: Call)
    requires Sound(w)
    ensures Sound(Next(w, call)) && Next(w, call).chat.owner == w.chat.owner
  {
    RowsSoundNext(w.chat, call);
    PairedNext(w, call);
    var next := Next(w, call);
    forall u
      ensures Follows(next.chat, w.initial, next.trace, u) && RoleAgrees(next.chat, next.trace, u)
    {
      FollowsNext(w, call, u);
      RoleAgreesNext(w, call, u);
    }
    RoleAgreesNext(w, call, 0);
  }

  lemma {:induction false} AlwaysSound(r: Run)
    requires Created(r)
    ensures Sound(After(r)) && After(r).chat.owner == r.owner
    ensures Lawful(r.owner, After(r).initial, After(r).trace)
    decreases |r.calls|
  {
    if r.calls == [] {
      SoundStart(r);
    } else {
      var before := r.(calls := r.calls[..|r.calls| - 1]);
      var w, call := After(before), r.calls[|r.calls| - 1];
      AlwaysSound(before);
      SoundNext(w, call);
      StepAllowed(w, call);
      if Next(w, call).trace != w.trace {
        LawfulSnoc(r.owner, w.initial, w.trace, EventOf(call.op));
      }
    }
  }

  // ---------------------------------------------------------------------------
  // Main results

  lemma {:induction false} ModeratesMeans(owner: int, initial: set<int>, tr: seq<Event>, u: int) returns (at: nat)
    requires Lawful(owner, initial, tr) && Moderates(tr, u)
    ensures at < |tr| && tr[at] == Appointed(u, owner)
    ensures forall j :: at < j < |tr| ==> !((tr[j].Removed? || tr[j].Dismissed?) && tr[j].user == u)
  {
    var n := |tr| - 1;
    assert Allowed(owner, initial, tr[..n], tr[n]);
    if tr[n].Appointed? && tr[n].user == u {
      at := n;
    } else {
      assert forall k :: 0 <= k < n ==> tr[..n][..k] == tr[..k];
      at := ModeratesMeans(owner, initial, tr[..n], u);
    }
  }

  /**
   In every run the owner keeps the admin flag; any other admin is active, was appointed by
   the owner, and was neither removed nor dismissed since.
   */
  lemma AdminsAreAppointed(r: Run, u: int)
    requires Created(r)
    ensures var w := After(r);
            && IsAdmin(w.chat, r.owner)
            && (u != r.owner && IsAdmin(w.chat, u) ==>
                 && IsActive(w.chat, u)
                 && exists at :: 0 <= at < |w.trace| && w.trace[at] == Appointed(u, r.owner)
                      && forall j :: at < j < |w.trace| ==>
                           !((w.trace[j].Removed? || w.trace[j].Dismissed?) && w.trace[j].user == u))
  {
    AlwaysSound(r);
    var w := After(r);
    assert RoleAgrees(w.chat, w.trace, u) && RoleAgrees(w.chat, w.trace, r.owner);
    if u != r.owner && IsAdmin(w.chat, u) {
      var at := ModeratesMeans(r.owner, w.initial, w.trace, u);
    }
  }

  /** The stored scan for the last kick message finds who removed the user last. */
  lemma ScanFindsLastRemover(r: Run, u: int)
    requires Created(r)
    ensures var w := After(r);
            var kick := LatestKick(w.chat.msgs, u);
            && (kick.Some? <==> LastRemover(w.trace, u).Some?)
            && (kick.Some? ==> kick.value.from == LastRemover(w.trace, u).value)
  {
    AlwaysSound(r);
    LatestKickIs(After(r).chat.msgs, After(r).trace, u);
  }

  /** A join of u that brings it back after a removal by somebody else, by the owner or a moderator. */
  predicate BroughtBack(owner: int, tr: seq<Event>, u: int, n: nat)
    requires n < |tr|
  {
    && tr[n].Joined? && tr[n].user == u
    && tr[n].inviter != u
    && (tr[n].inviter == owner || Moderates(tr[..n], tr[n].inviter))
  }

  lemma {:induction false} BackFrom(owner: int, initial: set<int>, tr: seq<Event>, u: int, m: nat) returns (n: nat)
    requires Lawful(owner, initial, tr) && m <= |tr|
    requires WasKicked(tr[..m], u) && !In(initial, tr[..m], u) && In(initial, tr, u)
    ensures m <= n < |tr| && BroughtBack(owner, tr, u, n)
    decreases |tr| - m
  {
    assert tr[..|tr|] == tr;
    assert m < |tr|;
    assert Allowed(owner, initial, tr[..m], tr[m]);
    if tr[m].Joined? && tr[m].user == u {
      n := m;
    } else {
      assert tr[..m + 1] == tr[..m] + [tr[m]];
      InSnoc(initial, tr[..m], tr[m], u);
      RolesSnoc(tr[..m], tr[m], u);
      n := BackFrom(owner, initial, tr, u, m + 1);
    }
  }

  /**
   In every run, a user who was out of the chat after a removal by somebody else and is
   active now was brought back in between by the owner or a moderator of that moment.
   */
  lemma KickedReturnOnlyByStaff(r: Run, u: int, m: nat)
    requires Created(r) && m <= |After(r).trace|
    requires WasKicked(After(r).trace[..m], u) && !In(After(r).initial, After(r).trace[..m], u)
    requires IsActive(After(r).chat, u)
    ensures exists n :: m <= n < |After(r).trace| && BroughtBack(r.owner, After(r).trace, u, n)
  {
    AlwaysSound(r);
    var w := After(r);
    assert Follows(w.chat, w.initial, w.trace, u);
    var n := BackFrom(r.owner, w.initial, w.trace, u, m);
  }

  /**
   Adding asks nothing of the caller, not even to be in the chat, unless the user added was
   removed by somebody else.
   */
  lemma AddNeedsNoMembership(r: Run, caller: int, user: int, history: bool, now: nat, gap: nat)
    requires Created(r) && user != 0
    requires !In(After(r).initial, After(r).trace, user) && !WasKicked(After(r).trace, user)
    ensures AddChatUser(After(r).chat, caller, user, history, now, gap).Ok?
  {
    AlwaysSound(r);
    AddExactly(After(r), caller, user, history, now, gap);
  }

  /** So somebody who is not in the chat and was not removed can join alone and pass for every message. */
  lemma OutsiderJoinsAlone(r: Run, u: int, now: nat, gap: nat, n: nat)
    requires Created(r) && u != 0
    requires !In(After(r).initial, After(r).trace, u) && !WasKicked(After(r).trace, u)
    requires 1 <= n <= |After(r).trace| + 1
    ensures var w := Next(After(r), Call(Add(u, u, true), now, gap));
            IsActive(w.chat, u) && InPeriods(w.chat.periods, u, n)
  {
    var w, call := After(r), Call(Add(u, u, true), now, gap);
    AlwaysSound(r);
    AddNeedsNoMembership(r, u, u, true, now, gap);
    AddShape(w.chat, u, u, InviteUser, true, now, gap, u);
    FollowsNext(w, call, u);
    var e := Joined(u, u, true);
    assert Next(w, call).trace == w.trace + [e];
    InSnoc(w.initial, w.trace, e, u);
    GrantedSnoc(w.trace, e, u, n);
    assert Ought(w.initial, w.trace + [e], u, n);
  }
}
