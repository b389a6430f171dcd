/**
 The rows of one group chat and what every endpoint call does to them: conversations,
 messages, conversation_members, conversation_member_periods and deleted_messages
 (src/models/db/db.go, src/repo/chat/main.go, src/transport/endpoints). Each call is
 one atomic step; a rejected call answers with its error code and changes nothing.
 */
module ChatModel {
  import opened Wrappers

  datatype Action =
    | NoAction
    | ChatCreate
    | InviteUser
    | InviteByLink
    | KickUser
    | ModeratorAdd
    | ModeratorRemove
    | OtherAction(name: string)

  /** A row of messages; `id` is the global row id, `localId` the number inside the chat. */
  datatype Msg = Msg(
    id: nat, localId: nat, from: int, action: Action, actionMid: int,
    flags: bv64, createdAt: nat, deletedAt: Option<nat>)

  datatype Member = Member(isAdmin: bool, left: bool, lastRead: nat, deletedBefore: nat)

  datatype Period = Period(user: int, start: nat, end: Option<nat>)

  datatype Chat = Chat(
    owner: int,
    msgs: seq<Msg>,
    lastMessageId: nat,
    members: map<int, Member>,
    periods: seq<Period>,
    deleted: set<(int, nat)>)

  /** 24 hours in nanoseconds. */
  const DAY: nat := 86_400_000_000_000

  // ---------------------------------------------------------------------------
  // Queries

  predicate IsActive(c: Chat, u: int) {
    u in c.members && !c.members[u].left
  }

  predicate IsAdmin(c: Chat, u: int) {
    u in c.members && c.members[u].isAdmin
  }

  /** COALESCE(MAX(local_id), 0). */
  function MaxLocalId(ms: seq<Msg>): nat {
    if ms == [] then 0 else Max(MaxLocalId(ms[..|ms| - 1]), ms[|ms| - 1].localId)
  }

  /** The largest row id used by this chat. */
  function LastRow(ms: seq<Msg>): nat {
    if ms == [] then 0 else Max(LastRow(ms[..|ms| - 1]), ms[|ms| - 1].id)
  }

  predicate FlaggedDeleted(m: Msg) {
    m.flags & 128 != 0
  }

  /** The largest local id whose message does not carry the deleted flag, 0 if none. */
  function NewestKept(ms: seq<Msg>): nat {
    if ms == [] then 0
    else
      var m := ms[|ms| - 1];
      if FlaggedDeleted(m) then NewestKept(ms[..|ms| - 1])
      else Max(NewestKept(ms[..|ms| - 1]), m.localId)
  }

  /** The chat_kick_user message about u with the largest local id; deleted messages count. */
  function LatestKick(ms: seq<Msg>, u: int): Option<Msg> {
    if ms == [] then None
    else
      var m, rest := ms[|ms| - 1], LatestKick(ms[..|ms| - 1], u);
      if m.action == KickUser && m.actionMid == u && (rest.None? || m.localId >= rest.value.localId)
      then Some(m) else rest
  }

  predicate KickedByOther(c: Chat, u: int) {
    var kick := LatestKick(c.msgs, u);
    kick.Some? && kick.value.id > 0 && kick.value.from != u
  }

  /**
   How a call names messages.  With a peer an id is a local id or a row id of that chat;
   without one it is a row id over all chats, and `othersOk` says whether the messages it
   names in other chats may be deleted for all.
   */
  datatype Naming = InPeer | ByRow(othersOk: bool)

  predicate Names(how: Naming, m: Msg, id: nat) {
    m.id == id || (how.InPeer? && m.localId == id)
  }

  /** The position of the message named by `id` with the smallest row id. */
  function FirstNamed(how: Naming, ms: seq<Msg>, id: nat): (k: Option<nat>)
    ensures k.Some? ==> k.value < |ms| && Names(how, ms[k.value], id)
  {
    if ms == [] then None
    else
      var last, rest := |ms| - 1, FirstNamed(how, ms[..|ms| - 1], id);
      if Names(how, ms[last], id) && (rest.None? || ms[last].id < ms[rest.value].id) then Some(last) else rest
  }

  predicate InPeriod(p: Period, u: int, n: nat) {
    p.user == u && p.start <= n && (p.end.None? || n <= p.end.value)
  }

  predicate HasPeriod(ps: seq<Period>, u: int) {
    ps != [] && (ps[|ps| - 1].user == u || HasPeriod(ps[..|ps| - 1], u))
  }

  /** Some presence period of u covers local id n. */
  predicate Covers(ps: seq<Period>, u: int, n: nat) {
    ps != [] && (InPeriod(ps[|ps| - 1], u, n) || Covers(ps[..|ps| - 1], u, n))
  }

  /** The presence test: a user without any period row is not limited by it. */
  predicate InPeriods(ps: seq<Period>, u: int, n: nat) {
    !HasPeriod(ps, u) || Covers(ps, u, n)
  }

  function DeletedBefore(c: Chat, u: int): nat {
    if u in c.members then c.members[u].deletedBefore else 0
  }

  /** BuildVisibilityFilter; user 0 is the system caller, which is not filtered. */
  predicate Visible(c: Chat, u: int, m: Msg) {
    || u == 0
    || (&& m.deletedAt.None?
        && InPeriods(c.periods, u, m.localId)
        && (u, m.localId) !in c.deleted
        && m.localId > DeletedBefore(c, u))
  }

  /** Visible messages from others beyond local id n, among the first rows `ms`. */
  function CountBeyond(c: Chat, ms: seq<Msg>, u: int, n: nat): nat {
    if ms == [] then 0
    else
      var m := ms[|ms| - 1];
      CountBeyond(c, ms[..|ms| - 1], u, n)
      + (if m.localId > n && m.from != u && Visible(c, u, m) then 1 else 0)
  }

  /** The unread count of the history answer: only an active member has one. */
  function Unread(c: Chat, u: int): nat {
    if IsActive(c, u) then CountBeyond(c, c.msgs, u, c.members[u].lastRead) else 0
  }

  // ---------------------------------------------------------------------------
  // Posting

  function NextLocalId(c: Chat): nat {
    Max(MaxLocalId(c.msgs), c.lastMessageId) + 1
  }

  /** A new message row; `gap` row ids went to other chats since this chat's last row. */
  function Post(c: Chat, gap: nat, from: int, action: Action, mid: int, now: nat): Chat {
    var id := NextLocalId(c);
    c.(msgs := c.msgs + [Msg(LastRow(c.msgs) + 1 + gap, id, from, action, mid, 0, now, None)],
       lastMessageId := id)
  }

  function ServiceMid(from: int, mid: int): int {
    if mid == 0 then from else mid
  }

  function ServicePost(c: Chat, gap: nat, from: int, action: Action, mid: int, now: nat): Chat {
    Post(c, gap, from, action, ServiceMid(from, mid), now)
  }

  /** The reply_to parameter: absent, not a number, or an id. */
  datatype Reply = NoReply | BadReply | ReplyTo(id: nat)

  /** A reply must name a message of this chat that the sender can see. */
  predicate ReplyOk(c: Chat, caller: int, reply: Reply) {
    match reply
    case NoReply => true
    case BadReply => false
    case ReplyTo(id) => id != 0 && AnySelected(InPeer, c, c.msgs, caller, [id])
  }

  /** The posting transaction of a sender who is a member. */
  function Sent(c: Chat, caller: int, now: nat, gap: nat): Chat
    requires caller in c.members
  {
    var posted := Post(c, gap, caller, NoAction, 0, now);
    posted.(members := c.members[caller := c.members[caller].(lastRead := NextLocalId(c))])
  }

  function SendMessage(c: Chat, caller: int, reply: Reply, now: nat, gap: nat): Result<Chat> {
    if !IsActive(c, caller) then Err(917)
    else if !ReplyOk(c, caller, reply) then Err(100)
    else Ok(Sent(c, caller, now, gap))
  }

  // ---------------------------------------------------------------------------
  // Creating

  /** The ids the create endpoint keeps: positive and not the caller's own. */
  function Invited(ids: seq<int>, owner: int): seq<int> {
    if ids == [] then []
    else
      var last := ids[|ids| - 1];
      Invited(ids[..|ids| - 1], owner) + (if last != owner && last > 0 then [last] else [])
  }

  predicate Distinct(ids: seq<int>) {
    ids == [] || (ids[|ids| - 1] !in ids[..|ids| - 1] && Distinct(ids[..|ids| - 1]))
  }

  const PLAIN: Member := Member(false, false, 0, 0)

  function FirstMembers(owner: int, ids: seq<int>): map<int, Member> {
    if ids == [] then map[owner := PLAIN.(isAdmin := true)]
    else FirstMembers(owner, ids[..|ids| - 1])[ids[|ids| - 1] := PLAIN]
  }

  function FirstPeriods(owner: int, ids: seq<int>): seq<Period> {
    if ids == [] then [Period(owner, 1, None)]
    else FirstPeriods(owner, ids[..|ids| - 1]) + [Period(ids[|ids| - 1], 1, None)]
  }

  /** A new conversation with its chat_create message; a repeated user id fails the insert. */
  function CreateChat(owner: int, ids: seq<int>, now: nat, gap: nat): Result<Chat> {
    var users := Invited(ids, owner);
    if !Distinct(users) then Err(10)
    else
      var c := Chat(owner, [], 0, FirstMembers(owner, users), FirstPeriods(owner, users), {});
      Ok(ServicePost(c, gap, owner, ChatCreate, 0, now))
  }

  // ---------------------------------------------------------------------------
  // Joining and leaving

  /** AddUserToConversation. */
  function AddUser(c: Chat, inviter: int, user: int, action: Action, history: bool, now: nat, gap: nat)
    : Result<Chat>
  {
    if IsActive(c, user) then Err(15)
    else if user in c.members && KickedByOther(c, user)
            && (inviter == user || (inviter != c.owner && !IsAdmin(c, inviter))) then Err(15)
    else
      var id := NextLocalId(c);
      var posted := ServicePost(c, gap, inviter, action, user, now);
      Ok(posted.(
        periods := c.periods + [Period(user, if history then 1 else id, None)],
        members := c.members[user := if user in c.members then c.members[user].(left := false) else PLAIN]))
  }

  /** messages.addChatUser. */
  function AddChatUser(c: Chat, caller: int, user: int, history: bool, now: nat, gap: nat): Result<Chat> {
    if user == 0 then Err(100)
    else if user in c.members && c.members[user].left && KickedByOther(c, user)
            && (caller == user || !IsAdmin(c, caller)) then Err(15)
    else AddUser(c, caller, user, InviteUser, history, now, gap)
  }

  /** messages.joinChatByInviteLink, for a valid link. */
  function JoinByLink(c: Chat, user: int, history: bool, now: nat, gap: nat): Result<Chat> {
    if IsActive(c, user) then Ok(c)
    else if user in c.members && KickedByOther(c, user) then Err(15)
    else AddUser(c, user, user, InviteByLink, history, now, gap)
  }

  /** Close the open periods of u at local id e, inclusive. */
  function CloseOpen(ps: seq<Period>, u: int, e: nat): (r: seq<Period>)
    ensures |r| == |ps|
  {
    if ps == [] then []
    else
      var p := ps[|ps| - 1];
      CloseOpen(ps[..|ps| - 1], u, e) + [if p.user == u && p.end.None? then p.(end := Some(e)) else p]
  }

  predicate MayRemove(c: Chat, caller: int, user: int) {
    || user == caller
    || (&& IsAdmin(c, caller)
        && user != c.owner
        && (caller == c.owner || !IsAdmin(c, user)))
  }

  /** messages.removeChatUser; user 0 means the caller. */
  function RemoveChatUser(c: Chat, caller: int, userId: int, now: nat, gap: nat): Result<Chat> {
    var user := if userId == 0 then caller else userId;
    if !MayRemove(c, caller, user) then Err(15)
    else if !IsActive(c, user) then Err(15)
    else
      var m := c.members[user];
      var posted := ServicePost(c, gap, caller, KickUser, user, now);
      Ok(posted.(
        members := c.members[user := m.(left := true, isAdmin := m.isAdmin && user == c.owner)],
        periods := CloseOpen(c.periods, user, NextLocalId(c))))
  }

  // ---------------------------------------------------------------------------
  // Roles

  /** messages.setChatModerator (role true) and messages.removeChatModerator (role false). */
  function SetRole(c: Chat, caller: int, user: int, role: bool, now: nat, gap: nat): Result<Chat> {
    if user == 0 then Err(100)
    else if caller != c.owner then Err(15)
    else if user == c.owner then Err(15)
    else if !IsActive(c, user) then Err(15)
    else if c.members[user].isAdmin == role then Ok(c)
    else
      var posted := ServicePost(c, gap, caller, if role then ModeratorAdd else ModeratorRemove, user, now);
      Ok(posted.(members := c.members[user := c.members[user].(isAdmin := role)]))
  }

  // ---------------------------------------------------------------------------
  // Deleting and restoring

  /** The rows a delete call works on; without a peer the caller must be in the chat. */
  predicate Selected(how: Naming, c: Chat, caller: int, ids: seq<nat>, m: Msg) {
    && (m.id in ids || (how.InPeer? && m.localId in ids))
    && (how.ByRow? ==> caller == 0 || IsActive(c, caller))
    && Visible(c, caller, m)
  }

  predicate AnySelected(how: Naming, c: Chat, ms: seq<Msg>, caller: int, ids: seq<nat>) {
    ms != [] && (Selected(how, c, caller, ids, ms[|ms| - 1]) || AnySelected(how, c, ms[..|ms| - 1], caller, ids))
  }

  /** The author may delete for all during 24 hours. */
  predicate MayDeleteForAll(m: Msg, caller: int, now: nat) {
    m.from == caller && now - m.createdAt <= DAY
  }

  predicate AllDeletable(how: Naming, c: Chat, ms: seq<Msg>, caller: int, ids: seq<nat>, now: nat) {
    ms == []
    || (&& (Selected(how, c, caller, ids, ms[|ms| - 1]) ==> MayDeleteForAll(ms[|ms| - 1], caller, now))
        && AllDeletable(how, c, ms[..|ms| - 1], caller, ids, now))
  }

  function Stamped(m: Msg, now: nat): Msg {
    m.(flags := m.flags | 128 | 64, deletedAt := Some(now))
  }

  function StampAll(how: Naming, c: Chat, ms: seq<Msg>, caller: int, ids: seq<nat>, now: nat): (r: seq<Msg>)
    ensures |r| == |ms|
  {
    if ms == [] then []
    else
      var m := ms[|ms| - 1];
      StampAll(how, c, ms[..|ms| - 1], caller, ids, now)
      + [if Selected(how, c, caller, ids, m) then Stamped(m, now) else m]
  }

  function HiddenKeys(how: Naming, c: Chat, ms: seq<Msg>, caller: int, ids: seq<nat>): set<(int, nat)> {
    if ms == [] then {}
    else
      var m := ms[|ms| - 1];
      HiddenKeys(how, c, ms[..|ms| - 1], caller, ids)
      + (if Selected(how, c, caller, ids, m) then {(caller, m.localId)} else {})
  }

  /** RefreshChatLastMessage. */
  function Refresh(c: Chat): Chat {
    c.(lastMessageId := NewestKept(c.msgs))
  }

  /** messages.delete. */
  function Delete(how: Naming, c: Chat, caller: int, ids: seq<nat>, forAll: bool, now: nat): Result<Chat> {
    if ids == [] then Err(100)
    else if forAll && !AllDeletable(how, c, c.msgs, caller, ids, now) then Err(924)
    else if forAll && how.ByRow? && !how.othersOk then Err(924)
    else if !AnySelected(how, c, c.msgs, caller, ids) then Ok(c)
    else if forAll then Ok(Refresh(c.(msgs := StampAll(how, c, c.msgs, caller, ids, now))))
    else Ok(Refresh(c.(deleted := c.deleted + HiddenKeys(how, c, c.msgs, caller, ids))))
  }

  function Unstamped(m: Msg): Msg {
    m.(flags := m.flags & !192, deletedAt := None)
  }

  /** messages.restore; without a peer, an id of another chat is not found here. */
  function Restore(how: Naming, c: Chat, caller: int, id: nat): Result<Chat> {
    if id == 0 then Err(100)
    else
      match FirstNamed(how, c.msgs, id)
      case None => Err(910)
      case Some(k) =>
        var m := c.msgs[k];
        if (caller, m.localId) in c.deleted then Ok(c.(deleted := c.deleted - {(caller, m.localId)}))
        else if m.deletedAt.Some? && m.from == caller then Ok(Refresh(c.(msgs := c.msgs[k := Unstamped(m)])))
        else Err(910)
  }

  // ---------------------------------------------------------------------------
  // Reading

  /** BackgroundDeleteChat. */
  function DeleteChat(c: Chat, u: int): Chat {
    if u !in c.members then c
    else
      var n := MaxLocalId(c.msgs);
      c.(members := c.members[u := c.members[u].(deletedBefore := n, lastRead := n)])
  }

  /** chat.MarkAsRead: clamped to the cached last message unless that is 0, and only upwards. */
  function MarkAsRead(c: Chat, u: int, target: nat): Chat {
    var id := if c.lastMessageId > 0 then Min(target, c.lastMessageId) else target;
    if u in c.members && c.members[u].lastRead < id
    then c.(members := c.members[u := c.members[u].(lastRead := id)])
    else c
  }

  /** The largest local id among the messages `start` names, 0 if none. */
  function LargestNamed(how: Naming, ms: seq<Msg>, start: nat): nat {
    if ms == [] then 0
    else
      var rest := LargestNamed(how, ms[..|ms| - 1], start);
      if Names(how, ms[|ms| - 1], start) then Max(rest, ms[|ms| - 1].localId) else rest
  }

  /** MAX(local_id) over the rows with row id at most `row`. */
  function LargestUpToRow(ms: seq<Msg>, row: nat): nat {
    if ms == [] then 0
    else
      var rest := LargestUpToRow(ms[..|ms| - 1], row);
      if ms[|ms| - 1].id <= row then Max(rest, ms[|ms| - 1].localId) else rest
  }

  function StartTarget(how: Naming, c: Chat, start: nat): Option<nat> {
    if start == 0 then None
    else if LargestNamed(how, c.msgs, start) > 0 then Some(LargestNamed(how, c.msgs, start))
    else if how.ByRow? || c.lastMessageId == 0 then None
    else if start <= c.lastMessageId then Some(start)
    else if LargestUpToRow(c.msgs, start) > 0 then Some(LargestUpToRow(c.msgs, start))
    else Some(c.lastMessageId)
  }

  function Raise(t: Option<nat>, n: nat): Option<nat> {
    if t.None? || n > t.value then Some(n) else t
  }

  /**
   One entry of message_ids. An id that is the row id of a message of another chat
   (`elsewhere`) marks that chat instead: a row id is never larger than a local id's row.
   */
  function WithId(how: Naming, c: Chat, id: nat, elsewhere: set<nat>, t: Option<nat>): Option<nat> {
    if id in elsewhere then t
    else
      match FirstNamed(how, c.msgs, id)
      case None => t
      case Some(k) => if c.msgs[k].localId > 0 then Raise(t, c.msgs[k].localId) else t
  }

  function WithIds(how: Naming, c: Chat, ids: seq<nat>, elsewhere: set<nat>, t: Option<nat>): Option<nat> {
    if ids == [] then t
    else WithId(how, c, ids[|ids| - 1], elsewhere, WithIds(how, c, ids[..|ids| - 1], elsewhere, t))
  }

  /** The target messages.markAsRead chooses for this chat; `ids` is None for an absent list. */
  function ReadTarget(
    how: Naming, c: Chat, start: nat, ids: Option<seq<nat>>, elsewhere: set<nat>, all: bool): Option<nat>
  {
    var t := StartTarget(how, c, start);
    var u := if ids.Some? then WithIds(how, c, ids.value, elsewhere, t) else t;
    var n := MaxLocalId(c.msgs);
    if how.InPeer? && (all || (start == 0 && ids.None?)) && n > 0 then Raise(u, n) else u
  }

  function ReadChat(
    how: Naming, c: Chat, u: int, start: nat, ids: Option<seq<nat>>, elsewhere: set<nat>, all: bool): Chat
  {
    match ReadTarget(how, c, start, ids, elsewhere, all)
    case None => c
    case Some(target) => MarkAsRead(c, u, target)
  }

  /** messages.markAsRead: without a peer it needs an id. */
  function ReadCall(
    how: Naming, c: Chat, u: int, start: nat, ids: Option<seq<nat>>, elsewhere: set<nat>, all: bool): Result<Chat>
  {
    if how.ByRow? && ids.None? && start == 0 then Err(100) else Ok(ReadChat(how, c, u, start, ids, elsewhere, all))
  }

  // ---------------------------------------------------------------------------
  // Calls

  datatype Op =
    | Send(caller: int, reply: Reply)
    | Announce(caller: int, name: string, mid: int)
    | Add(caller: int, user: int, history: bool)
    | Join(caller: int, history: bool)
    | Remove(caller: int, user: int)
    | Role(caller: int, user: int, role: bool)
    | DeleteMessages(how: Naming, caller: int, ids: seq<nat>, forAll: bool)
    | RestoreMessage(how: Naming, caller: int, id: nat)
    | DeleteConversation(caller: int)
    | MarkRead(how: Naming, caller: int, start: nat, listed: Option<seq<nat>>, elsewhere: set<nat>, all: bool)

  /** One endpoint call, with the clock and the row-id gap it meets. */
  datatype Call = Call(op: Op, now: nat, gap: nat)

  function Answer(c: Chat, call: Call): Result<Chat> {
    match call.op
    case Send(caller, reply) => SendMessage(c, caller, reply, call.now, call.gap)
    case Announce(caller, name, mid) => Ok(ServicePost(c, call.gap, caller, OtherAction(name), mid, call.now))
    case Add(caller, user, history) => AddChatUser(c, caller, user, history, call.now, call.gap)
    case Join(caller, history) => JoinByLink(c, caller, history, call.now, call.gap)
    case Remove(caller, user) => RemoveChatUser(c, caller, user, call.now, call.gap)
    case Role(caller, user, role) => SetRole(c, caller, user, role, call.now, call.gap)
    case DeleteMessages(how, caller, ids, forAll) => Delete(how, c, caller, ids, forAll, call.now)
    case RestoreMessage(how, caller, id) => Restore(how, c, caller, id)
    case DeleteConversation(caller) => Ok(DeleteChat(c, caller))
    case MarkRead(how, caller, start, listed, elsewhere, all) =>
      ReadCall(how, c, caller, start, listed, elsewhere, all)
  }

  function Step(c: Chat, call: Call): Chat {
    match Answer(c, call)
    case Ok(next) => next
    case Err(_) => c
  }
}
