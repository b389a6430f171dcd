/**
 The stored rows of one group chat, changed in place statement by statement as the
 repository functions and endpoints do. Every method is proved to leave the rows exactly
 as the step functions of ChatModel say, about which the run theorems are.
 */
module ChatStore {
  import opened Wrappers
  import opened ChatModel
  import opened ChatHistory
  import opened ChatDeletion

  /** The ids CreateConversation adds besides the owner. */
  function Others(ids: seq<int>, owner: int): seq<int> {
    if ids == [] then []
    else Others(ids[..|ids| - 1], owner) + (if ids[|ids| - 1] == owner then [] else [ids[|ids| - 1]])
  }

  lemma {:induction false} OthersOfInvited(ids: seq<int>, owner: int)
    ensures Others(Invited(ids, owner), owner) == Invited(ids, owner)
  {
    if ids != [] {
      var last, rest := ids[|ids| - 1], Invited(ids[..|ids| - 1], owner);
      OthersOfInvited(ids[..|ids| - 1], owner);
      assert (rest + [last])[..|rest|] == rest;
      assert rest + [] == rest;
    }
  }

  /** One more id in the member loop: skipped if it is the owner's, else added. */
  lemma OthersSnoc(ids: seq<int>, owner: int, i: nat)
    requires i < |ids|
    ensures var before, uID := Others(ids[..i], owner), ids[i];
            Others(ids[..i + 1], owner) == if uID == owner then before else before + [uID]
  {
    assert ids[..i + 1][..i] == ids[..i];
    assert Others(ids[..i], owner) + [] == Others(ids[..i], owner);
  }

  /** What adding one user does to the rows built so far. */
  lemma FirstRowsSnoc(owner: int, before: seq<int>, uID: int)
    ensures FirstMembers(owner, before + [uID]) == FirstMembers(owner, before)[uID := PLAIN]
    ensures FirstPeriods(owner, before + [uID]) == FirstPeriods(owner, before) + [Period(uID, 1, None)]
    ensures Distinct(before + [uID]) <==> Distinct(before) && uID !in before
  {
    assert (before + [uID])[..|before|] == before;
  }

  class Store {
    var owner: int
    var msgs: seq<Msg>
    var lastMessageId: nat
    var members: map<int, Member>
    var periods: seq<Period>
    var deleted: set<(int, nat)>

    function Value(): Chat
      reads this
    {
      Chat(owner, msgs, lastMessageId, members, periods, deleted)
    }

    /** The rows are what the answer says, and unchanged by a rejection. */
    predicate Answers(answer: Result<Chat>, before: Chat, err: nat)
      reads this
    {
      match answer
      case Ok(c) => err == 0 && Value() == c
      case Err(code) => err == code && Value() == before
    }

    constructor ()
      ensures Value() == Chat(0, [], 0, map[], [], {})
    {
      owner, msgs, lastMessageId, members, periods, deleted := 0, [], 0, map[], [], {};
    }

    // -------------------------------------------------------------------------
    // Numbering and posting

    method NextLocalID() returns (nextID: nat)
      modifies this`lastMessageId
      ensures nextID == NextLocalId(old(Value()))
      ensures Value() == old(Value()).(lastMessageId := nextID)
    {
      var maxID := MaxLocalId(msgs);
      if lastMessageId > maxID {
        maxID := lastMessageId;
      }
      nextID := maxID + 1;
      lastMessageId := nextID;
    }

    method InsertMessage(localID: nat, from: int, action: Action, mid: int, now: nat, gap: nat)
      modifies this`msgs
      ensures msgs == old(msgs) + [Msg(LastRow(old(msgs)) + 1 + gap, localID, from, action, mid, 0, now, None)]
    {
      msgs := msgs + [Msg(LastRow(msgs) + 1 + gap, localID, from, action, mid, 0, now, None)];
    }

    method CreateServiceMessage(from: int, action: Action, mid: int, now: nat, gap: nat) returns (localID: nat)
      modifies this`msgs, this`lastMessageId
      ensures localID == NextLocalId(old(Value()))
      ensures Value() == ServicePost(old(Value()), gap, from, action, mid, now)
    {
      var actionMid := mid;
      if actionMid == 0 {
        actionMid := from;
      }
      localID := NextLocalID();
      InsertMessage(localID, from, action, actionMid, now, gap);
    }

    method ExecuteSendMessage(caller: int, reply: Reply, now: nat, gap: nat) returns (err: nat)
      modifies this
      ensures Answers(SendMessage(old(Value()), caller, reply, now, gap), old(Value()), err)
    {
      if !IsActive(Value(), caller) {
        return 917;
      }
      if !reply.NoReply? {
        if reply.BadReply? || reply.id == 0 {
          return 100;
        }
        var replyExists := AnySelected(InPeer, Value(), msgs, caller, [reply.id]);
        if !replyExists {
          return 100;
        }
      }
      var localID := NextLocalID();
      InsertMessage(localID, caller, NoAction, 0, now, gap);
      lastMessageId := localID;
      members := members[caller := members[caller].(lastRead := localID)];
      err := 0;
    }

    // -------------------------------------------------------------------------
    // Creating

    /** The member loop: the rows to insert, and whether no user occurs in them twice. */
    static method FirstRows(ownerID: int, userIDs: seq<int>)
      returns (newMembers: map<int, Member>, newPeriods: seq<Period>, ok: bool)
      ensures newMembers == FirstMembers(ownerID, Others(userIDs, ownerID))
      ensures newPeriods == FirstPeriods(ownerID, Others(userIDs, ownerID))
      ensures ok == Distinct(Others(userIDs, ownerID))
    {
      newMembers, newPeriods, ok := map[ownerID := PLAIN.(isAdmin := true)], [Period(ownerID, 1, None)], true;
      for i := 0 to |userIDs|
        invariant newMembers == FirstMembers(ownerID, Others(userIDs[..i], ownerID))
        invariant newPeriods == FirstPeriods(ownerID, Others(userIDs[..i], ownerID))
        invariant forall u :: u in newMembers <==> u == ownerID || u in Others(userIDs[..i], ownerID)
        invariant ok == Distinct(Others(userIDs[..i], ownerID))
      {
        var uID := userIDs[i];
        OthersSnoc(userIDs, ownerID, i);
        FirstRowsSnoc(ownerID, Others(userIDs[..i], ownerID), uID);
        if uID == ownerID {
          continue;
        }
        if uID in newMembers {
          ok := false;
        }
        newMembers := newMembers[uID := PLAIN];
        newPeriods := newPeriods + [Period(uID, 1, None)];
      }
      assert userIDs[..|userIDs|] == userIDs;
    }

    /** Reports failure, and changes nothing, when a user is listed twice. */
    method CreateConversation(ownerID: int, userIDs: seq<int>) returns (ok: bool)
      modifies this
      ensures ok == Distinct(Others(userIDs, ownerID))
      ensures Value() ==
              if ok then
                Chat(ownerID, [], 0, FirstMembers(ownerID, Others(userIDs, ownerID)),
                     FirstPeriods(ownerID, Others(userIDs, ownerID)), {})
              else old(Value())
    {
      var newMembers, newPeriods;
      newMembers, newPeriods, ok := FirstRows(ownerID, userIDs);
      if ok {
        owner, msgs, lastMessageId, members, periods, deleted := ownerID, [], 0, newMembers, newPeriods, {};
      }
    }

    method NewChat(caller: int, ids: seq<int>, now: nat, gap: nat) returns (err: nat)
      modifies this
      ensures Answers(CreateChat(caller, ids, now, gap), old(Value()), err)
    {
      var userIDs := [];
      for i := 0 to |ids|
        invariant userIDs == Invited(ids[..i], caller)
      {
        assert ids[..i + 1][..i] == ids[..i];
        if ids[i] != caller && ids[i] > 0 {
          userIDs := userIDs + [ids[i]];
        }
      }
      assert ids[..|ids|] == ids;
      OthersOfInvited(ids, caller);
      var ok := CreateConversation(caller, userIDs);
      if !ok {
        return 10;
      }
      var localID := CreateServiceMessage(caller, ChatCreate, 0, now, gap);
      err := 0;
    }

    // -------------------------------------------------------------------------
    // Joining and leaving

    method AddUserToConversation(
      user: int, inviter: int, action: Action, history: bool, now: nat, gap: nat) returns (err: nat)
      modifies this
      ensures Answers(AddUser(old(Value()), inviter, user, action, history, now, gap), old(Value()), err)
    {
      if user in members && !members[user].left {
        return 15;
      }
      if user in members {
        if KickedByOther(Value(), user) {
          if inviter == user {
            return 15;
          }
          if inviter != owner && !(IsAdmin(Value(), inviter) && inviter != owner) {
            return 15;
          }
        }
      }
      var isNewMember := user !in members;
      var localID := CreateServiceMessage(inviter, action, user, now, gap);
      var startLocalID := localID;
      if history {
        startLocalID := 1;
      }
      periods := periods + [Period(user, startLocalID, None)];
      if isNewMember {
        members := members[user := PLAIN];
      } else {
        members := members[user := members[user].(left := false)];
      }
      err := 0;
    }

    method AddToChat(caller: int, user: int, history: bool, now: nat, gap: nat) returns (err: nat)
      modifies this
      ensures Answers(AddChatUser(old(Value()), caller, user, history, now, gap), old(Value()), err)
    {
      if user == 0 {
        return 100;
      }
      if user in members && members[user].left && KickedByOther(Value(), user) {
        if caller == user {
          return 15;
        }
        if !IsAdmin(Value(), caller) {
          return 15;
        }
      }
      err := AddUserToConversation(user, caller, InviteUser, history, now, gap);
    }

    method JoinChatByInviteLink(caller: int, history: bool, now: nat, gap: nat) returns (err: nat)
      modifies this
      ensures Answers(JoinByLink(old(Value()), caller, history, now, gap), old(Value()), err)
    {
      if IsActive(Value(), caller) {
        return 0;
      }
      if caller in members && members[caller].left && KickedByOther(Value(), caller) {
        return 15;
      }
      err := AddUserToConversation(caller, caller, InviteByLink, history, now, gap);
    }

    method RemoveUserFromConversation(user: int)
      requires user in members
      modifies this`members
      ensures members == old(members)[user := old(members)[user].(
                           left := true, isAdmin := old(members)[user].isAdmin && user == owner)]
    {
      var m := members[user].(left := true);
      if user != owner {
        m := m.(isAdmin := false);
      }
      members := members[user := m];
    }

    method CloseActiveMemberPeriod(user: int, endLocalID: nat)
      modifies this`periods
      ensures periods == CloseOpen(old(periods), user, endLocalID)
    {
      var all := periods;
      var updated := [];
      for i := 0 to |all|
        invariant updated == CloseOpen(all[..i], user, endLocalID)
        invariant periods == all
      {
        assert all[..i + 1][..i] == all[..i];
        var p := all[i];
        if p.user == user && p.end.None? {
          p := p.(end := Some(endLocalID));
        }
        updated := updated + [p];
      }
      assert all[..|all|] == all;
      periods := updated;
    }

    method RemoveFromChat(caller: int, userId: int, now: nat, gap: nat) returns (err: nat)
      modifies this
      ensures Answers(RemoveChatUser(old(Value()), caller, userId, now, gap), old(Value()), err)
    {
      var user := userId;
      if user == 0 {
        user := caller;
      }
      if user != caller {
        if caller !in members {
          return 15;
        }
        if !members[caller].isAdmin {
          return 15;
        }
        if user == owner {
          return 15;
        }
        var isCallerOwner := caller == owner;
        if !isCallerOwner && user in members && members[user].isAdmin {
          return 15;
        }
      }
      if !IsActive(Value(), user) {
        return 15;
      }
      RemoveUserFromConversation(user);
      var localID := CreateServiceMessage(caller, KickUser, user, now, gap);
      CloseActiveMemberPeriod(user, localID);
      err := 0;
    }

    // -------------------------------------------------------------------------
    // Roles

    method SetChatModerator(caller: int, user: int, now: nat, gap: nat) returns (err: nat)
      modifies this
      ensures Answers(SetRole(old(Value()), caller, user, true, now, gap), old(Value()), err)
    {
      if user == 0 {
        return 100;
      }
      if owner != caller {
        return 15;
      }
      if user == caller || user == owner {
        return 15;
      }
      if user !in members || members[user].left {
        return 15;
      }
      if members[user].isAdmin {
        return 0;
      }
      members := members[user := members[user].(isAdmin := true)];
      var localID := CreateServiceMessage(caller, ModeratorAdd, user, now, gap);
      err := 0;
    }

    method RemoveChatModerator(caller: int, user: int, now: nat, gap: nat) returns (err: nat)
      modifies this
      ensures Answers(SetRole(old(Value()), caller, user, false, now, gap), old(Value()), err)
    {
      if user == 0 {
        return 100;
      }
      if owner != caller {
        return 15;
      }
      if user == caller || user == owner {
        return 15;
      }
      if user !in members || members[user].left {
        return 15;
      }
      if !members[user].isAdmin {
        return 0;
      }
      members := members[user := members[user].(isAdmin := false)];
      var localID := CreateServiceMessage(caller, ModeratorRemove, user, now, gap);
      err := 0;
    }

    // -------------------------------------------------------------------------
    // Deleting and restoring

    method RefreshChatLastMessage()
      modifies this`lastMessageId
      ensures Value() == Refresh(old(Value()))
    {
      lastMessageId := NewestKept(msgs);
    }

    /** `found` lists the positions of exactly the rows a delete call works on. */
    predicate Found(how: Naming, caller: int, ids: seq<nat>, found: seq<nat>)
      reads this
    {
      && (forall j :: 0 <= j < |found| ==> found[j] < |msgs| && Selected(how, Value(), caller, ids, msgs[found[j]]))
      && (forall i: nat :: i < |msgs| && Selected(how, Value(), caller, ids, msgs[i]) ==> i in found)
    }

    /** The query of the delete endpoint. */
    method FindSelected(how: Naming, caller: int, ids: seq<nat>) returns (found: seq<nat>)
      ensures Found(how, caller, ids, found)
    {
      found := [];
      for k := 0 to |msgs|
        invariant forall j :: 0 <= j < |found| ==> found[j] < k && Selected(how, Value(), caller, ids, msgs[found[j]])
        invariant forall i: nat :: i < k && Selected(how, Value(), caller, ids, msgs[i]) ==> i in found
      {
        if Selected(how, Value(), caller, ids, msgs[k]) {
          found := found + [k];
        }
      }
    }

    /** The check before deleting for all: every found message is the caller's own and recent. */
    method MayDeleteAll(caller: int, found: seq<nat>, now: nat) returns (ok: bool)
      requires forall j :: 0 <= j < |found| ==> found[j] < |msgs|
      ensures ok <==> forall j :: 0 <= j < |found| ==> MayDeleteForAll(msgs[found[j]], caller, now)
    {
      for k := 0 to |found|
        invariant forall j :: 0 <= j < k ==> MayDeleteForAll(msgs[found[j]], caller, now)
      {
        var m := msgs[found[k]];
        if m.from != caller {
          return false;
        }
        if now - m.createdAt > DAY {
          return false;
        }
      }
      return true;
    }

    method StampFound(how: Naming, caller: int, ids: seq<nat>, found: seq<nat>, now: nat)
      requires Found(how, caller, ids, found)
      modifies this`msgs
      ensures msgs == StampAll(how, old(Value()), old(msgs), caller, ids, now)
    {
      var rows := msgs;
      for k := 0 to |found|
        invariant |msgs| == |rows|
        invariant forall i: nat :: i < |rows| ==> msgs[i] == if i in found[..k] then Stamped(rows[i], now) else rows[i]
      {
        assert found[..k + 1] == found[..k] + [found[k]];
        var m := rows[found[k]];
        msgs := msgs[found[k] := m.(flags := m.flags | 128 | 64, deletedAt := Some(now))];
      }
      assert found[..|found|] == found;
      forall i: nat | i < |rows|
        ensures msgs[i] == StampAll(how, old(Value()), rows, caller, ids, now)[i]
      {
        StampAllAt(how, old(Value()), rows, caller, ids, now, i);
      }
    }

    method HideFound(how: Naming, caller: int, ids: seq<nat>, found: seq<nat>)
      requires Found(how, caller, ids, found)
      modifies this`deleted
      ensures deleted == old(deleted) + HiddenKeys(how, old(Value()), msgs, caller, ids)
    {
      var before := deleted;
      for k := 0 to |found|
        invariant forall key :: key in deleted <==>
                    key in before || exists j :: 0 <= j < k && key == (caller, msgs[found[j]].localId)
      {
        deleted := deleted + {(caller, msgs[found[k]].localId)};
      }
      forall key
        ensures key in deleted <==> key in before || key in HiddenKeys(how, old(Value()), msgs, caller, ids)
      {
        HiddenKeysAre(how, old(Value()), msgs, caller, ids, key);
      }
    }

    method DeleteMessages(how: Naming, caller: int, ids: seq<nat>, forAll: bool, now: nat) returns (err: nat)
      modifies this
      ensures Answers(Delete(how, old(Value()), caller, ids, forAll, now), old(Value()), err)
    {
      if ids == [] {
        return 100;
      }
      var found := FindSelected(how, caller, ids);
      AnySelectedIff(how, Value(), msgs, caller, ids);
      AllDeletableAt(how, Value(), msgs, caller, ids, now);
      if forAll {
        var ok := MayDeleteAll(caller, found, now);
        if !ok || (how.ByRow? && !how.othersOk) {
          return 924;
        }
      }
      if found == [] {
        return 0;
      }
      assert Selected(how, Value(), caller, ids, msgs[found[0]]);
      if forAll {
        StampFound(how, caller, ids, found, now);
      } else {
        HideFound(how, caller, ids, found);
      }
      RefreshChatLastMessage();
      err := 0;
    }

    /** The update of a message deleted for all, with the refresh after it. */
    method ClearDeletion(k: nat)
      requires k < |msgs|
      modifies this`msgs, this`lastMessageId
      ensures Value() == Refresh(old(Value()).(msgs := old(msgs)[k := Unstamped(old(msgs)[k])]))
    {
      var m := msgs[k];
      msgs := msgs[k := m.(flags := m.flags & !192, deletedAt := None)];
      RefreshChatLastMessage();
    }

    method RestoreMessage(how: Naming, caller: int, id: nat) returns (err: nat)
      modifies this
      ensures Answers(Restore(how, old(Value()), caller, id), old(Value()), err)
    {
      if id == 0 {
        return 100;
      }
      var at := FirstNamed(how, msgs, id);
      if at.None? {
        return 910;
      }
      var m := msgs[at.value];
      if (caller, m.localId) in deleted {
        deleted := deleted - {(caller, m.localId)};
        return 0;
      }
      if m.deletedAt.Some? {
        if m.from != caller {
          return 910;
        }
        ClearDeletion(at.value);
        return 0;
      }
      err := 910;
    }

    // -------------------------------------------------------------------------
    // Reading

    method MarkChatAsRead(user: int, messageID: nat)
      modifies this`members
      ensures Value() == MarkAsRead(old(Value()), user, messageID)
    {
      var id := messageID;
      if lastMessageId > 0 {
        if id > lastMessageId {
          id := lastMessageId;
        }
      }
      if user in members && members[user].lastRead < id {
        members := members[user := members[user].(lastRead := id)];
      }
    }

    /** The loop over message_ids. */
    method RaiseByIds(how: Naming, ids: seq<nat>, elsewhere: set<nat>, start: Option<nat>) returns (task: Option<nat>)
      ensures task == WithIds(how, Value(), ids, elsewhere, start)
    {
      task := start;
      for i := 0 to |ids|
        invariant task == WithIds(how, Value(), ids[..i], elsewhere, start)
      {
        assert ids[..i + 1][..i] == ids[..i];
        if ids[i] !in elsewhere {
          var at := FirstNamed(how, msgs, ids[i]);
          if at.Some? && msgs[at.value].localId > 0 {
            if task.None? {
              task := Some(msgs[at.value].localId);
            } else if msgs[at.value].localId > task.value {
              task := Some(msgs[at.value].localId);
            }
          }
        }
      }
      assert ids[..|ids|] == ids;
    }

    /** messages.markAsRead, as far as this chat's task goes. */
    method MarkRead(
      how: Naming, caller: int, start: nat, listed: Option<seq<nat>>, elsewhere: set<nat>, markAll: bool)
      returns (err: nat)
      modifies this`members
      ensures Answers(ReadCall(how, old(Value()), caller, start, listed, elsewhere, markAll), old(Value()), err)
    {
      if how.ByRow? && listed.None? && start == 0 {
        return 100;
      }
      var task: Option<nat> := None;
      if start != 0 {
        var named := LargestNamed(how, msgs, start);
        if named > 0 {
          task := Some(named);
        } else if how.InPeer? && lastMessageId > 0 {
          if start <= lastMessageId {
            task := Some(start);
          } else {
            var resolved := LargestUpToRow(msgs, start);
            task := Some(if resolved > 0 then resolved else lastMessageId);
          }
        }
      }
      if listed.Some? {
        task := RaiseByIds(how, listed.value, elsewhere, task);
      }
      if how.InPeer? && (markAll || (start == 0 && listed.None?)) {
        var maxLocalID := MaxLocalId(msgs);
        if maxLocalID > 0 {
          if task.None? || maxLocalID > task.value {
            task := Some(maxLocalID);
          }
        }
      }
      if task.Some? {
        MarkChatAsRead(caller, task.value);
      }
      err := 0;
    }

    method BackgroundDeleteChat(user: int)
      modifies this`members
      ensures Value() == DeleteChat(old(Value()), user)
    {
      var maxLocalID := MaxLocalId(msgs);
      if user in members {
        members := members[user := members[user].(deletedBefore := maxLocalID, lastRead := maxLocalID)];
      }
    }
  }
}
