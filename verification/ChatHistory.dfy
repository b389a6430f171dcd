/**
 Runs of a group chat, from its creation through any calls by anybody, with a ghost
 history: one event per message. Numbering, the cached last-message pointer, deletion
 and its undo.
 */
module ChatHistory {
  import opened Wrappers
  import opened ChatModel

  datatype Event =
    | Said(author: int)   // chat_create, or an announcement
    | Wrote(author: int)  // messages.send
    | Joined(user: int, inviter: int, history: bool)
    | Removed(user: int, remover: int)
    | Appointed(user: int, appointer: int)
    | Dismissed(user: int, dismisser: int)

  /** The stored rows beside their ghost history; event n - 1 is about message n. */
  datatype World = World(chat: Chat, initial: set<int>, trace: seq<Event>)

  /** The event of a call that posts a message. */
  function EventOf(op: Op): Event {
    match op
    case Send(caller, _) => Wrote(caller)
    case Add(caller, user, history) => Joined(user, caller, history)
    case Join(caller, history) => Joined(caller, caller, history)
    case Remove(caller, user) => Removed(if user == 0 then caller else user, caller)
    case Role(caller, user, true) => Appointed(user, caller)
    case Role(caller, user, false) => Dismissed(user, caller)
    case _ => Said(op.caller)
  }

  function Next(w: World, call: Call): World {
    var c := Step(w.chat, call);
    World(c, w.initial, if |c.msgs| > |w.chat.msgs| then w.trace + [EventOf(call.op)] else w.trace)
  }

  /** A creation call followed by any sequence of calls. */
  datatype Run = Run(owner: int, ids: seq<int>, now: nat, gap: nat, calls: seq<Call>)

  predicate Created(r: Run) {
    CreateChat(r.owner, r.ids, r.now, r.gap).Ok?
  }

  function After(r: Run): World
    requires Created(r)
    decreases |r.calls|
  {
    if r.calls == [] then
      World(CreateChat(r.owner, r.ids, r.now, r.gap).value,
            {r.owner} + (set u | u in Invited(r.ids, r.owner)),
            [Said(r.owner)])
    else
      Next(After(r.(calls := r.calls[..|r.calls| - 1])), r.calls[|r.calls| - 1])
  }

  /** The run stopped after its first k calls. */
  function Cut(r: Run, k: nat): Run
    requires k <= |r.calls|
  {
    r.(calls := r.calls[..k])
  }

  lemma CutTwice(r: Run, n: nat, k: nat)
    requires k <= n <= |r.calls|
    ensures Cut(Cut(r, n), k) == Cut(r, k) && Cut(r, |r.calls|) == r
    ensures k < n ==> Cut(r, n).calls[k] == r.calls[k]
  {
  }

  lemma LastCall(r: Run)
    requires Created(r) && r.calls != []
    ensures After(r).chat == Step(After(Cut(r, |r.calls| - 1)).chat, r.calls[|r.calls| - 1])
  {
  }

  // ---------------------------------------------------------------------------
  // The shape of a step

  /** The message rows, the pointer and the personal deletions are as before. */
  predicate RowsKept(c: Chat, d: Chat) {
    d.msgs == c.msgs && d.lastMessageId == c.lastMessageId && d.deleted == c.deleted
  }

  /** One fresh message was appended. */
  predicate Posted(c: Chat, d: Chat) {
    && |d.msgs| == |c.msgs| + 1
    && d.msgs[..|c.msgs|] == c.msgs
    && d.lastMessageId == NextLocalId(c) == d.msgs[|c.msgs|].localId
    && d.msgs[|c.msgs|].id > LastRow(c.msgs)
    && d.msgs[|c.msgs|].flags == 0
    && d.msgs[|c.msgs|].deletedAt == None
    && d.deleted == c.deleted
  }

  predicate Deletes(op: Op) {
    op.DeleteMessages? || op.RestoreMessage?
  }

  lemma PostShape(c: Chat, gap: nat, from: int, action: Action, mid: int, now: nat)
    ensures Posted(c, Post(c, gap, from, action, mid, now))
  {
  }

  lemma StepShape(c: Chat, call: Call)
    ensures Deletes(call.op) || RowsKept(c, Step(c, call)) || Posted(c, Step(c, call))
  {
    var now, gap := call.now, call.gap;
    match call.op
    case Send(caller, _) => PostShape(c, gap, caller, NoAction, 0, now);
    case Announce(caller, name, mid) => PostShape(c, gap, caller, OtherAction(name), ServiceMid(caller, mid), now);
    case Add(caller, user, _) => PostShape(c, gap, caller, InviteUser, ServiceMid(caller, user), now);
    case Join(caller, _) => PostShape(c, gap, caller, InviteByLink, ServiceMid(caller, caller), now);
    case Remove(caller, userId) =>
      var user := if userId == 0 then caller else userId;
      PostShape(c, gap, caller, KickUser, ServiceMid(caller, user), now);
    case Role(caller, user, role) =>
      PostShape(c, gap, caller, if role then ModeratorAdd else ModeratorRemove, ServiceMid(caller, user), now);
    case _ =>
  }

  // ---------------------------------------------------------------------------
  // Local ids

  predicate Numbered(c: Chat) {
    && (forall i :: 0 <= i < |c.msgs| ==> c.msgs[i].localId == i + 1)
    && c.lastMessageId <= |c.msgs|
  }

  lemma {:induction false} MaxIsLength(ms: seq<Msg>)
    requires forall i :: 0 <= i < |ms| ==> ms[i].localId == i + 1
    ensures MaxLocalId(ms) == |ms|
  {
    if ms != [] {
      MaxIsLength(ms[..|ms| - 1]);
    }
  }

  lemma NextIsLength(c: Chat)
    requires Numbered(c)
    ensures NextLocalId(c) == |c.msgs| + 1
  {
    MaxIsLength(c.msgs);
  }

  lemma {:induction false} NewestKeptBound(ms: seq<Msg>)
    requires forall i :: 0 <= i < |ms| ==> ms[i].localId == i + 1
    ensures NewestKept(ms) <= |ms|
    ensures NewestKept(ms) > 0 ==> !FlaggedDeleted(ms[NewestKept(ms) - 1])
    ensures forall i :: NewestKept(ms) <= i < |ms| ==> FlaggedDeleted(ms[i])
  {
    if ms != [] {
      NewestKeptBound(ms[..|ms| - 1]);
    }
  }

  lemma {:induction false} StampAllAt(how: Naming, c: Chat, ms: seq<Msg>, caller: int, ids: seq<nat>, now: nat, i: nat)
    requires i < |ms|
    ensures StampAll(how, c, ms, caller, ids, now)[i]
            == if Selected(how, c, caller, ids, ms[i]) then Stamped(ms[i], now) else ms[i]
  {
    if i < |ms| - 1 {
      StampAllAt(how, c, ms[..|ms| - 1], caller, ids, now, i);
    }
  }

  /** The same message, up to its deletion state. */
  predicate SameBody(a: Msg, b: Msg) {
    b == a.(flags := b.flags, deletedAt := b.deletedAt)
  }

  lemma StampAllKeeps(how: Naming, c: Chat, caller: int, ids: seq<nat>, now: nat)
    ensures forall i :: 0 <= i < |c.msgs| ==> SameBody(c.msgs[i], StampAll(how, c, c.msgs, caller, ids, now)[i])
  {
    forall i: nat | i < |c.msgs|
      ensures SameBody(c.msgs[i], StampAll(how, c, c.msgs, caller, ids, now)[i])
    {
      StampAllAt(how, c, c.msgs, caller, ids, now, i);
    }
  }

  lemma NumberedPosted(c: Chat, d: Chat)
    requires Numbered(c)
    requires RowsKept(c, d) || Posted(c, d)
    ensures Numbered(d)
  {
    NextIsLength(c);
    if Posted(c, d) {
      assert forall i :: 0 <= i < |c.msgs| ==> d.msgs[i] == d.msgs[..|c.msgs|][i];
    }
  }

  lemma NumberedDelete(how: Naming, c: Chat, caller: int, ids: seq<nat>, forAll: bool, now: nat)
    requires Numbered(c) && Delete(how, c, caller, ids, forAll, now).Ok?
    ensures Numbered(Delete(how, c, caller, ids, forAll, now).value)
  {
    StampAllKeeps(how, c, caller, ids, now);
    NewestKeptBound(c.msgs);
    NewestKeptBound(StampAll(how, c, c.msgs, caller, ids, now));
  }

  lemma NumberedRestore(how: Naming, c: Chat, caller: int, id: nat)
    requires Numbered(c) && Restore(how, c, caller, id).Ok?
    ensures Numbered(Restore(how, c, caller, id).value)
  {
    NewestKeptBound(Restore(how, c, caller, id).value.msgs);
  }

  lemma NumberedNext(c: Chat, call: Call)
    requires Numbered(c)
    ensures Numbered(Step(c, call))
  {
    match call.op
    case DeleteMessages(how, caller, ids, forAll) =>
      if Delete(how, c, caller, ids, forAll, call.now).Ok? {
        NumberedDelete(how, c, caller, ids, forAll, call.now);
      }
    case RestoreMessage(how, caller, id) =>
      if Restore(how, c, caller, id).Ok? {
        NumberedRestore(how, c, caller, id);
      }
    case _ =>
      StepShape(c, call);
      NumberedPosted(c, Step(c, call));
  }

  // ---------------------------------------------------------------------------
  // Row ids

  /** Row ids are positive, grow with the local id and are never below it. */
  predicate RowsGrow(ms: seq<Msg>) {
    && (forall i :: 0 <= i < |ms| ==> ms[i].id > i)
    && (forall i, j :: 0 <= i < j < |ms| ==> ms[i].id < ms[j].id)
  }

  lemma {:induction false} LastRowIsLast(ms: seq<Msg>)
    requires RowsGrow(ms)
    ensures LastRow(ms) == if ms == [] then 0 else ms[|ms| - 1].id
  {
    if |ms| > 1 {
      LastRowIsLast(ms[..|ms| - 1]);
    }
  }

  lemma RowsGrowPosted(c: Chat, d: Chat)
    requires RowsGrow(c.msgs)
    requires Posted(c, d)
    ensures RowsGrow(d.msgs)
  {
    LastRowIsLast(c.msgs);
    var n := |c.msgs|;
    assert forall i :: 0 <= i < n ==> d.msgs[i] == d.msgs[..n][i];
  }

  lemma RowsGrowStamped(how: Naming, c: Chat, caller: int, ids: seq<nat>, now: nat)
    requires RowsGrow(c.msgs)
    ensures RowsGrow(StampAll(how, c, c.msgs, caller, ids, now))
  {
    StampAllKeeps(how, c, caller, ids, now);
  }

  lemma RowsGrowNext(c: Chat, call: Call)
    requires RowsGrow(c.msgs)
    ensures RowsGrow(Step(c, call).msgs)
  {
    match call.op
    case DeleteMessages(how, caller, ids, _) => RowsGrowStamped(how, c, caller, ids, call.now);
    case RestoreMessage(_, _, _) =>
    case _ =>
      StepShape(c, call);
      if Posted(c, Step(c, call)) {
        RowsGrowPosted(c, Step(c, call));
      }
  }

  // ---------------------------------------------------------------------------
  // The deleted flag

  /** The deleted flag bit and deleted_at say the same. */
  predicate FlagsAgree(ms: seq<Msg>) {
    forall i :: 0 <= i < |ms| ==> ms[i].flags == if ms[i].deletedAt.Some? then 192 else 0
  }

  lemma FlagsAgreeStamped(how: Naming, c: Chat, caller: int, ids: seq<nat>, now: nat)
    requires FlagsAgree(c.msgs)
    ensures FlagsAgree(StampAll(how, c, c.msgs, caller, ids, now))
  {
    forall i: nat | i < |c.msgs|
      ensures var m := StampAll(how, c, c.msgs, caller, ids, now)[i];
              m.flags == if m.deletedAt.Some? then 192 else 0
    {
      StampAllAt(how, c, c.msgs, caller, ids, now, i);
    }
  }

  lemma FlagsAgreePosted(c: Chat, d: Chat)
    requires FlagsAgree(c.msgs)
    requires RowsKept(c, d) || Posted(c, d)
    ensures FlagsAgree(d.msgs)
  {
    if Posted(c, d) {
      assert forall i :: 0 <= i < |c.msgs| ==> d.msgs[i] == d.msgs[..|c.msgs|][i];
    }
  }

  lemma FlagsAgreeNext(c: Chat, call: Call)
    requires FlagsAgree(c.msgs)
    ensures FlagsAgree(Step(c, call).msgs)
  {
    match call.op
    case DeleteMessages(how, caller, ids, _) => FlagsAgreeStamped(how, c, caller, ids, call.now);
    case RestoreMessage(_, _, _) =>
    case _ =>
      StepShape(c, call);
      FlagsAgreePosted(c, Step(c, call));
  }

  // ---------------------------------------------------------------------------
  // The cached pointer

  predicate Cached(c: Chat) {
    c.lastMessageId == NewestKept(c.msgs)
  }

  lemma CachedNext(c: Chat, call: Call)
    requires Numbered(c) && Cached(c)
    ensures Cached(Step(c, call))
  {
    if !Deletes(call.op) {
      var d := Step(c, call);
      StepShape(c, call);
      NextIsLength(c);
      if Posted(c, d) {
        NewestKeptBound(c.msgs);
        assert d.msgs[..|d.msgs| - 1] == c.msgs;
      }
    }
  }

  // ---------------------------------------------------------------------------
  // Personal deletions

  lemma {:induction false} HiddenKeysAre(how: Naming, c: Chat, ms: seq<Msg>, caller: int, ids: seq<nat>, k: (int, nat))
    ensures k in HiddenKeys(how, c, ms, caller, ids)
            <==> exists i :: 0 <= i < |ms| && Selected(how, c, caller, ids, ms[i]) && k == (caller, ms[i].localId)
  {
    if ms != [] {
      HiddenKeysAre(how, c, ms[..|ms| - 1], caller, ids, k);
    }
  }

  lemma {:induction false} AllDeletableAt(how: Naming, c: Chat, ms: seq<Msg>, caller: int, ids: seq<nat>, now: nat)
    ensures AllDeletable(how, c, ms, caller, ids, now)
            <==> forall i :: 0 <= i < |ms| && Selected(how, c, caller, ids, ms[i]) ==>
                   MayDeleteForAll(ms[i], caller, now)
  {
    if ms != [] {
      AllDeletableAt(how, c, ms[..|ms| - 1], caller, ids, now);
    }
  }

  predicate HidesInside(c: Chat) {
    forall k :: k in c.deleted ==> 1 <= k.1 <= |c.msgs|
  }

  lemma HidesInsideNext(c: Chat, call: Call)
    requires Numbered(c) && HidesInside(c)
    ensures HidesInside(Step(c, call))
  {
    match call.op
    case DeleteMessages(how, caller, ids, _) =>
      forall k | k in HiddenKeys(how, c, c.msgs, caller, ids)
        ensures 1 <= k.1 <= |c.msgs|
      {
        HiddenKeysAre(how, c, c.msgs, caller, ids, k);
      }
    case RestoreMessage(_, _, _) =>
    case _ =>
      StepShape(c, call);
  }

  /** A message its author deleted for all is never also hidden by that author alone. */
  predicate AuthorsClean(c: Chat) {
    forall i :: 0 <= i < |c.msgs| && c.msgs[i].deletedAt.Some? && c.msgs[i].from != 0 ==>
      (c.msgs[i].from, c.msgs[i].localId) !in c.deleted
  }

  lemma AuthorsCleanForAll(how: Naming, c: Chat, caller: int, ids: seq<nat>, now: nat)
    requires AuthorsClean(c) && AllDeletable(how, c, c.msgs, caller, ids, now)
    ensures AuthorsClean(c.(msgs := StampAll(how, c, c.msgs, caller, ids, now)))
  {
    AllDeletableAt(how, c, c.msgs, caller, ids, now);
    var stamped := StampAll(how, c, c.msgs, caller, ids, now);
    forall i: nat | i < |c.msgs| && stamped[i].deletedAt.Some? && stamped[i].from != 0
      ensures (stamped[i].from, stamped[i].localId) !in c.deleted
    {
      StampAllAt(how, c, c.msgs, caller, ids, now, i);
    }
  }

  lemma AuthorsCleanPersonal(how: Naming, c: Chat, caller: int, ids: seq<nat>)
    requires Numbered(c) && AuthorsClean(c)
    ensures AuthorsClean(c.(deleted := c.deleted + HiddenKeys(how, c, c.msgs, caller, ids)))
  {
    forall i: nat | i < |c.msgs| && c.msgs[i].deletedAt.Some? && c.msgs[i].from != 0
      ensures (c.msgs[i].from, c.msgs[i].localId) !in HiddenKeys(how, c, c.msgs, caller, ids)
    {
      HiddenKeysAre(how, c, c.msgs, caller, ids, (c.msgs[i].from, c.msgs[i].localId));
    }
  }

  lemma AuthorsCleanPosted(c: Chat, d: Chat)
    requires AuthorsClean(c)
    requires RowsKept(c, d) || Posted(c, d)
    ensures AuthorsClean(d)
  {
    if Posted(c, d) {
      assert forall i :: 0 <= i < |c.msgs| ==> d.msgs[i] == d.msgs[..|c.msgs|][i];
    }
  }

  lemma AuthorsCleanNext(c: Chat, call: Call)
    requires Numbered(c) && AuthorsClean(c)
    ensures AuthorsClean(Step(c, call))
  {
    match call.op
    case DeleteMessages(how, caller, ids, forAll) =>
      AuthorsCleanPersonal(how, c, caller, ids);
      if AllDeletable(how, c, c.msgs, caller, ids, call.now) {
        AuthorsCleanForAll(how, c, caller, ids, call.now);
      }
    case RestoreMessage(_, _, _) =>
    case _ =>
      StepShape(c, call);
      AuthorsCleanPosted(c, Step(c, call));
  }

  // ---------------------------------------------------------------------------
  // The history

  function AuthorOf(e: Event): int {
    match e
    case Said(author) => author
    case Wrote(author) => author
    case Joined(_, inviter, _) => inviter
    case Removed(_, remover) => remover
    case Appointed(_, appointer) => appointer
    case Dismissed(_, dismisser) => dismisser
  }

  /** A message and the event about it: same author, same kind, about the same user. */
  predicate Fits(m: Msg, e: Event) {
    && m.from == AuthorOf(e)
    && match e
       case Said(_) => m.action == ChatCreate || m.action.OtherAction?
       case Wrote(_) => m.action == NoAction
       case Joined(user, _, _) => (m.action == InviteUser || m.action == InviteByLink) && m.actionMid == user
       case Removed(user, _) => m.action == KickUser && m.actionMid == user
       case Appointed(user, _) => m.action == ModeratorAdd && m.actionMid == user
       case Dismissed(user, _) => m.action == ModeratorRemove && m.actionMid == user
  }

  predicate Paired(ms: seq<Msg>, trace: seq<Event>) {
    && |ms| == |trace|
    && forall i :: 0 <= i < |ms| ==> Fits(ms[i], trace[i])
  }

  lemma PostFits(c: Chat, call: Call)
    requires !Deletes(call.op) && Posted(c, Step(c, call))
    ensures Fits(Step(c, call).msgs[|c.msgs|], EventOf(call.op))
  {
  }

  lemma PostedAs(c: Chat, call: Call)
    requires !Deletes(call.op) && Posted(c, Step(c, call))
    ensures var m := Step(c, call).msgs[|c.msgs|];
            m.createdAt == call.now && m.localId == NextLocalId(c) && m.id == LastRow(c.msgs) + 1 + call.gap
  {
  }

  lemma PairedPosted(c: Chat, d: Chat, trace: seq<Event>, e: Event)
    requires Paired(c.msgs, trace) && Posted(c, d) && Fits(d.msgs[|c.msgs|], e)
    ensures Paired(d.msgs, trace + [e])
  {
    assert forall i :: 0 <= i < |c.msgs| ==> d.msgs[i] == d.msgs[..|c.msgs|][i];
  }

  lemma PairedNext(w: World, call: Call)
    requires Paired(w.chat.msgs, w.trace)
    ensures Paired(Next(w, call).chat.msgs, Next(w, call).trace)
  {
    var c := w.chat;
    match call.op
    case DeleteMessages(how, caller, ids, _) => StampAllKeeps(how, c, caller, ids, call.now);
    case RestoreMessage(_, _, _) =>
    case _ =>
      StepShape(c, call);
      if Posted(c, Step(c, call)) {
        PostFits(c, call);
        PairedPosted(c, Step(c, call), w.trace, EventOf(call.op));
      }
  }

  // ---------------------------------------------------------------------------
  // What every run keeps

  predicate RowsSound(c: Chat) {
    Numbered(c) && RowsGrow(c.msgs) && FlagsAgree(c.msgs) && Cached(c) && HidesInside(c) && AuthorsClean(c)
  }

  lemma RowsSoundNext(c: Chat, call: Call)
    requires RowsSound(c)
    ensures RowsSound(Step(c, call))
  {
    NumberedNext(c, call);
    RowsGrowNext(c, call);
    FlagsAgreeNext(c, call);
    CachedNext(c, call);
    HidesInsideNext(c, call);
    AuthorsCleanNext(c, call);
  }

  lemma CreateShape(owner: int, ids: seq<int>, now: nat, gap: nat)
    requires CreateChat(owner, ids, now, gap).Ok?
    ensures var c := CreateChat(owner, ids, now, gap).value;
            && c.owner == owner && c.lastMessageId == 1 && c.deleted == {}
            && c.msgs == [Msg(1 + gap, 1, owner, ChatCreate, owner, 0, now, None)]
            && c.members == FirstMembers(owner, Invited(ids, owner))
            && c.periods == FirstPeriods(owner, Invited(ids, owner))
  {
  }

  lemma OneMessageSound(c: Chat, m: Msg)
    requires c.msgs == [m] && m.localId == 1 && m.id > 0 && m.flags == 0 && m.deletedAt == None
    requires c.lastMessageId == 1 && c.deleted == {}
    ensures RowsSound(c)
  {
    assert c.msgs[..0] == [];
    assert NewestKept(c.msgs) == 1;
  }

  lemma RowsSoundStart(owner: int, ids: seq<int>, now: nat, gap: nat)
    requires CreateChat(owner, ids, now, gap).Ok?
    ensures RowsSound(CreateChat(owner, ids, now, gap).value)
    ensures Paired(CreateChat(owner, ids, now, gap).value.msgs, [Said(owner)])
  {
    CreateShape(owner, ids, now, gap);
    OneMessageSound(CreateChat(owner, ids, now, gap).value,
                    Msg(1 + gap, 1, owner, ChatCreate, owner, 0, now, None));
  }

  lemma {:induction false} Always(r: Run)
    requires Created(r)
    ensures RowsSound(After(r).chat)
    ensures Paired(After(r).chat.msgs, After(r).trace)
    decreases |r.calls|
  {
    if r.calls == [] {
      RowsSoundStart(r.owner, r.ids, r.now, r.gap);
    } else {
      var before := r.(calls := r.calls[..|r.calls| - 1]);
      Always(before);
      RowsSoundNext(After(before).chat, r.calls[|r.calls| - 1]);
      PairedNext(After(before), r.calls[|r.calls| - 1]);
    }
  }

  /** Local ids are exactly 1..n, and the next message gets n + 1, whatever was deleted. */
  lemma IdsHaveNoGap(r: Run)
    requires Created(r)
    ensures var c := After(r).chat;
            && (forall i :: 0 <= i < |c.msgs| ==> c.msgs[i].localId == i + 1)
            && NextLocalId(c) == |c.msgs| + 1
  {
    Always(r);
    NextIsLength(After(r).chat);
  }

  lemma PointerAt(c: Chat)
    requires Numbered(c) && FlagsAgree(c.msgs) && Cached(c)
    ensures c.lastMessageId <= |c.msgs|
    ensures c.lastMessageId > 0 ==> c.msgs[c.lastMessageId - 1].deletedAt.None?
    ensures forall i :: c.lastMessageId <= i < |c.msgs| ==> c.msgs[i].deletedAt.Some?
  {
    NewestKeptBound(c.msgs);
  }

  /** The cached pointer is the largest local id that is not deleted for all, 0 if there is none. */
  lemma PointerIsNewest(r: Run)
    requires Created(r)
    ensures var c := After(r).chat;
            && c.lastMessageId <= |c.msgs|
            && (c.lastMessageId > 0 ==> c.msgs[c.lastMessageId - 1].deletedAt.None?)
            && forall i :: c.lastMessageId <= i < |c.msgs| ==> c.msgs[i].deletedAt.Some?
  {
    Always(r);
    PointerAt(After(r).chat);
  }
}
