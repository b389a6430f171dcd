/**
 Read pointers and unread counts over the runs of a chat.
 */
module ChatReading {
  import opened Wrappers
  import opened ChatModel
  import opened ChatHistory
  import opened ChatPresence
  import opened ChatRoles
  import opened ChatAnswers

  // ---------------------------------------------------------------------------
  // The target of a mark-read call

  lemma {:induction false} LargestNamedBound(how: Naming, ms: seq<Msg>, start: nat)
    ensures LargestNamed(how, ms, start) <= MaxLocalId(ms)
  {
    if ms != [] {
      LargestNamedBound(how, ms[..|ms| - 1], start);
    }
  }

  lemma {:induction false} LargestUpToRowBound(ms: seq<Msg>, row: nat)
    ensures LargestUpToRow(ms, row) <= MaxLocalId(ms)
  {
    if ms != [] {
      LargestUpToRowBound(ms[..|ms| - 1], row);
    }
  }

  predicate Upto(t: Option<nat>, n: nat) {
    t.Some? ==> t.value <= n
  }

  lemma {:induction false} WithIdsBound(how: Naming, c: Chat, ids: seq<nat>, elsewhere: set<nat>, t: Option<nat>)
    requires Numbered(c) && Upto(t, |c.msgs|)
    ensures Upto(WithIds(how, c, ids, elsewhere, t), |c.msgs|)
  {
    if ids != [] {
      WithIdsBound(how, c, ids[..|ids| - 1], elsewhere, t);
    }
  }

  /** Whatever a client names, the chosen target is an existing local id of the chat. */
  lemma TargetExists(how: Naming, c: Chat, start: nat, ids: Option<seq<nat>>, elsewhere: set<nat>, all: bool)
    requires Numbered(c)
    ensures Upto(ReadTarget(how, c, start, ids, elsewhere, all), |c.msgs|)
  {
    MaxIsLength(c.msgs);
    LargestNamedBound(how, c.msgs, start);
    LargestUpToRowBound(c.msgs, start);
    if ids.Some? {
      WithIdsBound(how, c, ids.value, elsewhere, StartTarget(how, c, start));
    }
  }

  // ---------------------------------------------------------------------------
  // Read pointers

  /** The pointers of u stay inside the existing messages. */
  predicate PointersInside(c: Chat, u: int) {
    u in c.members ==> c.members[u].lastRead <= |c.msgs| && c.members[u].deletedBefore <= |c.msgs|
  }

  predicate PointersGrow(c: Chat, d: Chat, u: int) {
    && |c.msgs| <= |d.msgs|
    && PointersInside(d, u)
    && (u in c.members ==> u in d.members && c.members[u].lastRead <= d.members[u].lastRead)
  }

  lemma SendPointers(c: Chat, caller: int, now: nat, gap: nat, u: int)
    requires Numbered(c) && PointersInside(c, u) && caller in c.members
    ensures PointersGrow(c, Sent(c, caller, now, gap), u)
  {
    NextIsLength(c);
  }

  lemma ReadChatPointers(
    how: Naming, c: Chat, caller: int, start: nat, ids: Option<seq<nat>>, elsewhere: set<nat>, all: bool, u: int)
    requires Numbered(c) && PointersInside(c, u)
    ensures PointersGrow(c, ReadChat(how, c, caller, start, ids, elsewhere, all), u)
  {
    TargetExists(how, c, start, ids, elsewhere, all);
  }

  lemma OthersKeepPointers(c: Chat, call: Call, u: int)
    requires PointersInside(c, u)
    requires !call.op.Send? && !call.op.DeleteConversation? && !call.op.MarkRead?
    ensures PointersGrow(c, Step(c, call), u)
  {
  }

  lemma PointersNext(c: Chat, call: Call, u: int)
    requires Numbered(c) && PointersInside(c, u)
    ensures PointersGrow(c, Step(c, call), u)
  {
    match call.op
    case Send(caller, _) =>
      if IsActive(c, caller) {
        SendPointers(c, caller, call.now, call.gap, u);
      }
    case DeleteConversation(_) => MaxIsLength(c.msgs);
    case MarkRead(how, caller, start, ids, elsewhere, all) =>
      ReadChatPointers(how, c, caller, start, ids, elsewhere, all, u);
    case _ => OthersKeepPointers(c, call, u);
  }

  lemma {:induction false} FirstPointers(owner: int, ids: seq<int>, u: int)
    ensures u in FirstMembers(owner, ids) ==>
              FirstMembers(owner, ids)[u].lastRead == 0 && FirstMembers(owner, ids)[u].deletedBefore == 0
  {
    if ids != [] {
      FirstPointers(owner, ids[..|ids| - 1], u);
    }
  }

  lemma {:induction false} AlwaysInside(r: Run, u: int)
    requires Created(r)
    ensures PointersInside(After(r).chat, u)
    decreases |r.calls|
  {
    if r.calls == [] {
      CreateShape(r.owner, r.ids, r.now, r.gap);
      FirstPointers(r.owner, Invited(r.ids, r.owner), u);
    } else {
      var before := r.(calls := r.calls[..|r.calls| - 1]);
      Always(before);
      AlwaysInside(before, u);
      PointersNext(After(before).chat, r.calls[|r.calls| - 1], u);
    }
  }

  lemma PointersTrans(a: Chat, b: Chat, c: Chat, u: int)
    requires PointersGrow(a, b, u) && PointersGrow(b, c, u)
    ensures PointersGrow(a, c, u)
  {
  }

  /**
   Over any run the read pointer of a member never decreases, the member row never goes
   away, and the pointer never passes the newest local id.
   */
  lemma {:induction false} PointerNeverFalls(r: Run, k: nat, u: int)
    requires Created(r) && k <= |r.calls|
    ensures PointersGrow(After(Cut(r, k)).chat, After(r).chat, u)
    decreases |r.calls|
  {
    if k == |r.calls| {
      assert Cut(r, k) == r;
      AlwaysInside(r, u);
    } else {
      var n := |r.calls| - 1;
      var before := Cut(r, n);
      assert Cut(before, k) == Cut(r, k);
      PointerNeverFalls(before, k, u);
      Always(before);
      AlwaysInside(before, u);
      PointersNext(After(before).chat, r.calls[n], u);
      LastCall(r);
      PointersTrans(After(Cut(r, k)).chat, After(before).chat, After(r).chat, u);
    }
  }

  lemma NeverEmpty(r: Run)
    requires Created(r)
    ensures After(r).chat.msgs != []
  {
    CreateShape(r.owner, r.ids, r.now, r.gap);
    PointerNeverFalls(r, 0, 0);
  }

  lemma {:induction false} LargestNamedIs(how: Naming, ms: seq<Msg>, start: nat)
    requires forall i :: 0 <= i < |ms| ==> ms[i].localId == i + 1
    ensures var k := LargestNamed(how, ms, start);
            && k <= |ms|
            && (k > 0 ==> Names(how, ms[k - 1], start))
            && forall i :: k <= i < |ms| ==> !Names(how, ms[i], start)
  {
    if ms != [] {
      LargestNamedIs(how, ms[..|ms| - 1], start);
    }
  }

  lemma {:induction false} LargestUpToRowIs(ms: seq<Msg>, row: nat)
    requires RowsGrow(ms)
    requires forall i :: 0 <= i < |ms| ==> ms[i].localId == i + 1
    ensures var k := LargestUpToRow(ms, row);
            && k <= |ms|
            && (forall i :: 0 <= i < k ==> ms[i].id <= row)
            && forall i :: k <= i < |ms| ==> ms[i].id > row
  {
    if ms != [] {
      LargestUpToRowIs(ms[..|ms| - 1], row);
    }
  }

  /** start_message_id marks up to the largest local id of a message it names. */
  lemma StartMarksNamed(how: Naming, c: Chat, start: nat, k: nat)
    requires Numbered(c) && start > 0 && k < |c.msgs|
    requires Names(how, c.msgs[k], start)
    requires forall i :: k < i < |c.msgs| ==> !Names(how, c.msgs[i], start)
    ensures StartTarget(how, c, start) == Some(k + 1)
  {
    LargestNamedIs(how, c.msgs, start);
    var n := LargestNamed(how, c.msgs, start);
    assert n == 0 || n == k + 1;
  }

  /**
   A start_message_id that names nothing lies beyond every local id. Unless all messages are
   deleted it marks the messages whose row ids it reaches, or, when it reaches none, up to
   the cached pointer.
   */
  lemma StartMarksRows(c: Chat, start: nat)
    requires Numbered(c) && RowsGrow(c.msgs) && start > 0 && c.msgs != []
    requires forall i :: 0 <= i < |c.msgs| ==> !Names(InPeer, c.msgs[i], start)
    ensures start > |c.msgs|
    ensures StartTarget(InPeer, c, start).Some? <==> c.lastMessageId > 0
    ensures StartTarget(InPeer, c, start).Some? ==>
              var t := StartTarget(InPeer, c, start).value;
              if c.msgs[0].id > start then t == c.lastMessageId
              else t <= |c.msgs| && forall i :: 0 <= i < |c.msgs| ==> (i < t <==> c.msgs[i].id <= start)
  {
    LargestNamedIs(InPeer, c.msgs, start);
    LargestUpToRowIs(c.msgs, start);
    assert start <= |c.msgs| ==> Names(InPeer, c.msgs[start - 1], start);
  }

  /** Message k is the last of those that go by `id`. */
  predicate NamesLast(how: Naming, ms: seq<Msg>, id: nat, k: nat) {
    k < |ms| && Names(how, ms[k], id) && forall i :: k < i < |ms| ==> !Names(how, ms[i], id)
  }

  /**
   start_message_id marks up to n: the largest number it names; failing that, and with a
   peer, the largest whose row id it reaches, or the cached pointer when it reaches none.
   */
  ghost predicate StartReaches(how: Naming, c: Chat, start: nat, n: nat) {
    && start > 0 && n >= 1
    && if exists i :: 0 <= i < |c.msgs| && Names(how, c.msgs[i], start) then NamesLast(how, c.msgs, start, n - 1)
       else
         && how.InPeer? && c.lastMessageId > 0
         && if c.msgs == [] || c.msgs[0].id > start then n == c.lastMessageId
            else SplitsAt(c.msgs, start, n)
  }

  /** The first n rows are those with row id at most `row`. */
  predicate SplitsAt(ms: seq<Msg>, row: nat, n: nat) {
    n <= |ms| && forall i :: 0 <= i < |ms| ==> (i < n <==> ms[i].id <= row)
  }

  lemma NextBeyond(ms: seq<Msg>, row: nat, n: nat)
    requires SplitsAt(ms, row, n)
    ensures n < |ms| ==> ms[n].id > row
  {
  }

  lemma SplitsOnce(ms: seq<Msg>, row: nat, a: nat, b: nat)
    requires SplitsAt(ms, row, a) && SplitsAt(ms, row, b)
    ensures a == b
  {
    NextBeyond(ms, row, a);
    NextBeyond(ms, row, b);
  }

  lemma StartUnnamed(c: Chat, start: nat, n: nat)
    requires Numbered(c) && RowsGrow(c.msgs) && start > 0
    requires forall i :: 0 <= i < |c.msgs| ==> !Names(InPeer, c.msgs[i], start)
    ensures StartTarget(InPeer, c, start) == Some(n) <==> StartReaches(InPeer, c, start, n)
  {
    LargestNamedIs(InPeer, c.msgs, start);
    if c.msgs != [] {
      StartMarksRows(c, start);
      var t := StartTarget(InPeer, c, start);
      assert t.Some? && c.msgs[0].id <= start ==> SplitsAt(c.msgs, start, t.value);
      if t.Some? && SplitsAt(c.msgs, start, t.value) && SplitsAt(c.msgs, start, n) {
        SplitsOnce(c.msgs, start, t.value, n);
      }
    }
  }

  lemma NamesLastIs(how: Naming, ms: seq<Msg>, id: nat, k: nat)
    requires forall i :: 0 <= i < |ms| ==> ms[i].localId == i + 1
    ensures NamesLast(how, ms, id, k) <==> LargestNamed(how, ms, id) == k + 1
  {
    LargestNamedIs(how, ms, id);
    var f := LargestNamed(how, ms, id);
    assert f > 0 && f - 1 < k < |ms| ==> !Names(how, ms[k], id);
    assert k < f <= |ms| && f > 0 ==> Names(how, ms[f - 1], id);
  }

  lemma StartTargetExactly(how: Naming, c: Chat, start: nat, n: nat)
    requires Numbered(c) && RowsGrow(c.msgs)
    ensures StartTarget(how, c, start) == Some(n) <==> StartReaches(how, c, start, n)
  {
    if n > 0 {
      NamesLastIs(how, c.msgs, start, n - 1);
    }
    LargestNamedIs(how, c.msgs, start);
    if start > 0 && LargestNamed(how, c.msgs, start) == 0 && how.InPeer? {
      StartUnnamed(c, start, n);
    }
  }

  /** The first message that goes by `id` has number n. */
  predicate NamesNumber(how: Naming, c: Chat, id: nat, n: nat) {
    n >= 1 && NamesFirst(how, c.msgs, id, n - 1)
  }

  /** One of the listed ids is not the row id of another chat's message, and names message n first. */
  ghost predicate ListReaches(how: Naming, c: Chat, ids: seq<nat>, elsewhere: set<nat>, n: nat) {
    exists id :: id in ids && id !in elsewhere && NamesNumber(how, c, id, n)
  }

  lemma WithIdReaches(how: Naming, c: Chat, id: nat, elsewhere: set<nat>, t: Option<nat>)
    requires Numbered(c) && RowsGrow(c.msgs)
    ensures var u := WithId(how, c, id, elsewhere, t);
            && (t.Some? ==> u.Some? && u.value >= t.value)
            && (forall n: nat :: id !in elsewhere && NamesNumber(how, c, id, n) ==> u.Some? && u.value >= n)
            && (u != t ==> u.Some? && id !in elsewhere && NamesNumber(how, c, id, u.value))
  {
    var f := FirstNamed(how, c.msgs, id);
    if f.Some? {
      NamesFirstIs(how, c.msgs, id, f.value);
    }
    forall n: nat | NamesNumber(how, c, id, n) ensures f == Some(n - 1) {
      NamesFirstIs(how, c.msgs, id, n - 1);
    }
  }

  /** The loop over message_ids ends at the largest of what it started from and what the ids reach. */
  lemma {:induction false} WithIdsExactly(how: Naming, c: Chat, ids: seq<nat>, elsewhere: set<nat>, t: Option<nat>)
    requires Numbered(c) && RowsGrow(c.msgs)
    ensures var u := WithIds(how, c, ids, elsewhere, t);
            && (t.Some? ==> u.Some? && u.value >= t.value)
            && (forall n: nat :: ListReaches(how, c, ids, elsewhere, n) ==> u.Some? && u.value >= n)
            && (u == t || (u.Some? && ListReaches(how, c, ids, elsewhere, u.value)))
  {
    if ids != [] {
      var front, id := ids[..|ids| - 1], ids[|ids| - 1];
      WithIdsExactly(how, c, front, elsewhere, t);
      WithIdReaches(how, c, id, elsewhere, WithIds(how, c, front, elsewhere, t));
      forall n: nat
        ensures ListReaches(how, c, ids, elsewhere, n) <==>
                || ListReaches(how, c, front, elsewhere, n)
                || (id !in elsewhere && NamesNumber(how, c, id, n))
      {
        ListSnoc(how, c, front, id, elsewhere, n);
        assert ids == front + [id];
      }
    }
  }

  lemma ListSnoc(how: Naming, c: Chat, front: seq<nat>, id: nat, elsewhere: set<nat>, n: nat)
    ensures ListReaches(how, c, front + [id], elsewhere, n) <==>
            || ListReaches(how, c, front, elsewhere, n)
            || (id !in elsewhere && NamesNumber(how, c, id, n))
  {
    assert forall x :: x in front + [id] <==> x in front || x == id;
  }

  /** A number the call reaches: through start_message_id, through its list, or as the whole conversation. */
  ghost predicate CallReaches(
    how: Naming, c: Chat, start: nat, ids: Option<seq<nat>>, elsewhere: set<nat>, all: bool, n: nat)
  {
    || StartReaches(how, c, start, n)
    || (ids.Some? && ListReaches(how, c, ids.value, elsewhere, n))
    || (how.InPeer? && (all || (start == 0 && ids.None?)) && n == |c.msgs| > 0)
  }

  /** The chosen target is the largest number the call reaches, and there is none exactly if it reaches none. */
  lemma TargetExactly(how: Naming, c: Chat, start: nat, ids: Option<seq<nat>>, elsewhere: set<nat>, all: bool)
    requires Numbered(c) && RowsGrow(c.msgs)
    ensures var t := ReadTarget(how, c, start, ids, elsewhere, all);
            && (forall n: nat :: CallReaches(how, c, start, ids, elsewhere, all, n) ==> t.Some? && t.value >= n)
            && (t.Some? ==> CallReaches(how, c, start, ids, elsewhere, all, t.value))
  {
    var t := StartTarget(how, c, start);
    MaxIsLength(c.msgs);
    forall n: nat ensures t == Some(n) <==> StartReaches(how, c, start, n) {
      StartTargetExactly(how, c, start, n);
    }
    if ids.Some? {
      WithIdsExactly(how, c, ids.value, elsewhere, t);
    }
  }

  // ---------------------------------------------------------------------------
  // Counting

  /** Both chats show u the same of these messages. */
  predicate SameView(c: Chat, d: Chat, ms: seq<Msg>, u: int) {
    forall i :: 0 <= i < |ms| ==> (Visible(c, u, ms[i]) <==> Visible(d, u, ms[i]))
  }

  lemma {:induction false} CountSame(c: Chat, d: Chat, ms: seq<Msg>, u: int, n: nat)
    requires SameView(c, d, ms, u)
    ensures CountBeyond(c, ms, u, n) == CountBeyond(d, ms, u, n)
  {
    if ms != [] {
      CountSame(c, d, ms[..|ms| - 1], u, n);
    }
  }

  /** Moving the pointer over messages that do not count changes nothing. */
  lemma {:induction false} CountGap(c: Chat, ms: seq<Msg>, u: int, p: nat, q: nat)
    requires p <= q
    requires forall i :: 0 <= i < |ms| && p < ms[i].localId <= q ==> ms[i].from == u || !Visible(c, u, ms[i])
    ensures CountBeyond(c, ms, u, p) == CountBeyond(c, ms, u, q)
  {
    if ms != [] {
      CountGap(c, ms[..|ms| - 1], u, p, q);
    }
  }

  lemma {:induction false} CountNothing(c: Chat, ms: seq<Msg>, u: int, n: nat)
    requires forall i :: 0 <= i < |ms| ==> ms[i].localId <= n
    ensures CountBeyond(c, ms, u, n) == 0
  {
    if ms != [] {
      CountNothing(c, ms[..|ms| - 1], u, n);
    }
  }

  /** Beyond the cached pointer there is nothing to see. */
  lemma NothingBeyondPointer(c: Chat, u: int, i: nat)
    requires RowsSound(c) && u != 0 && i < |c.msgs| && c.msgs[i].localId > c.lastMessageId
    ensures !Visible(c, u, c.msgs[i])
  {
    NewestKeptBound(c.msgs);
    assert FlaggedDeleted(c.msgs[i]);
  }

  lemma GapBeyondPointer(c: Chat, u: int, p: nat, q: nat)
    requires RowsSound(c) && u != 0 && p <= q
    requires p == q || p >= c.lastMessageId
    ensures CountBeyond(c, c.msgs, u, p) == CountBeyond(c, c.msgs, u, q)
  {
    forall i: nat | i < |c.msgs| && p < c.msgs[i].localId <= q
      ensures !Visible(c, u, c.msgs[i])
    {
      NothingBeyondPointer(c, u, i);
    }
    CountGap(c, c.msgs, u, p, q);
  }

  lemma MarkedView(c: Chat, u: int, target: nat)
    ensures var d := MarkAsRead(c, u, target);
            d.msgs == c.msgs && SameView(c, d, c.msgs, u) && (IsActive(d, u) <==> IsActive(c, u))
  {
  }

  lemma MarkedPointer(c: Chat, u: int, target: nat)
    requires u in c.members
    ensures var d := MarkAsRead(c, u, target);
            var q := Max(c.members[u].lastRead, target);
            && u in d.members
            && d.members[u].lastRead <= q
            && (d.members[u].lastRead == q || d.members[u].lastRead >= c.lastMessageId)
  {
  }

  lemma MarkedCount(c: Chat, u: int, target: nat)
    requires RowsSound(c) && u != 0 && IsActive(c, u)
    ensures Unread(MarkAsRead(c, u, target), u)
            == CountBeyond(c, c.msgs, u, Max(c.members[u].lastRead, target))
  {
    var d := MarkAsRead(c, u, target);
    MarkedView(c, u, target);
    MarkedPointer(c, u, target);
    CountSame(c, d, c.msgs, u, d.members[u].lastRead);
    GapBeyondPointer(c, u, d.members[u].lastRead, Max(c.members[u].lastRead, target));
  }

  /**
   Clamping to the cached last message never shows: after marking up to `target`, what is
   left unread is what lies beyond `target` (or beyond the older pointer, if that is higher).
   */
  lemma MarkingCounts(r: Run, u: int, target: nat)
    requires Created(r) && u != 0 && IsActive(After(r).chat, u)
    ensures var c := After(r).chat;
            Unread(MarkAsRead(c, u, target), u)
            == CountBeyond(c, c.msgs, u, Max(c.members[u].lastRead, target))
  {
    Always(r);
    MarkedCount(After(r).chat, u, target);
  }

  lemma AllTarget(c: Chat, start: nat, ids: Option<seq<nat>>, elsewhere: set<nat>, all: bool)
    requires Numbered(c) && (all || (start == 0 && ids.None?)) && c.msgs != []
    ensures ReadTarget(InPeer, c, start, ids, elsewhere, all) == Some(|c.msgs|)
  {
    MaxIsLength(c.msgs);
    TargetExists(InPeer, c, start, ids, elsewhere, all);
  }

  lemma MarkedAll(c: Chat, u: int)
    requires RowsSound(c) && u != 0
    ensures Unread(MarkAsRead(c, u, |c.msgs|), u) == 0
  {
    if IsActive(c, u) {
      MarkedCount(c, u, |c.msgs|);
      CountNothing(c, c.msgs, u, Max(c.members[u].lastRead, |c.msgs|));
    }
  }

  /** Marking the whole conversation read leaves nothing unread, whatever else the call names. */
  lemma MarkAllLeavesNothing(
    r: Run, u: int, start: nat, ids: Option<seq<nat>>, elsewhere: set<nat>, all: bool)
    requires Created(r) && u != 0
    requires all || (start == 0 && ids.None?)
    ensures Unread(ReadChat(InPeer, After(r).chat, u, start, ids, elsewhere, all), u) == 0
  {
    Always(r);
    NeverEmpty(r);
    AllTarget(After(r).chat, start, ids, elsewhere, all);
    MarkedAll(After(r).chat, u);
  }

  // ---------------------------------------------------------------------------
  // The unread count against the history

  /** Message n lies beyond p, was posted by somebody else, and u may see it. */
  ghost predicate Counts(w: World, u: int, p: nat, n: nat)
    requires 1 <= n <= |w.trace| == |w.chat.msgs|
  {
    n > p && AuthorOf(w.trace[n - 1]) != u && MaySee(w, u, n)
  }

  ghost function UnreadUpTo(w: World, u: int, p: nat, m: nat): set<nat>
    requires m <= |w.trace| == |w.chat.msgs|
  {
    set n: nat | 1 <= n <= m && Counts(w, u, p, n)
  }

  ghost function UnreadBeyond(w: World, u: int, p: nat): set<nat>
    requires |w.trace| == |w.chat.msgs|
  {
    UnreadUpTo(w, u, p, |w.trace|)
  }

  lemma UnreadStep(w: World, u: int, p: nat, m: nat)
    requires 1 <= m <= |w.trace| == |w.chat.msgs|
    ensures |UnreadUpTo(w, u, p, m)| == |UnreadUpTo(w, u, p, m - 1)| + if Counts(w, u, p, m) then 1 else 0
  {
    var before := UnreadUpTo(w, u, p, m - 1);
    assert UnreadUpTo(w, u, p, m) == if Counts(w, u, p, m) then before + {m} else before;
  }

  /** The count takes message n in exactly when it should. */
  ghost predicate CountedRight(w: World, u: int, p: nat, n: nat)
    requires 1 <= n <= |w.trace| == |w.chat.msgs|
  {
    var row := w.chat.msgs[n - 1];
    row.localId > p && row.from != u && Visible(w.chat, u, row) <==> Counts(w, u, p, n)
  }

  lemma CountsAt(w: World, u: int, p: nat, n: nat)
    requires Sound(w) && 1 <= n <= |w.trace|
    ensures CountedRight(w, u, p, n)
  {
    FilterExactly(w, u, n);
    assert Fits(w.chat.msgs[n - 1], w.trace[n - 1]);
  }

  lemma {:induction false} CountUpTo(w: World, u: int, p: nat, m: nat)
    requires m <= |w.trace| == |w.chat.msgs|
    requires forall n :: 1 <= n <= m ==> CountedRight(w, u, p, n)
    ensures CountBeyond(w.chat, w.chat.msgs[..m], u, p) == |UnreadUpTo(w, u, p, m)|
  {
    if m == 0 {
      assert UnreadUpTo(w, u, p, 0) == {};
    } else {
      CountUpTo(w, u, p, m - 1);
      UnreadStep(w, u, p, m);
      assert CountedRight(w, u, p, m);
      assert w.chat.msgs[..m][..m - 1] == w.chat.msgs[..m - 1];
    }
  }

  lemma CountIsUnread(w: World, u: int, p: nat)
    requires Sound(w)
    ensures CountBeyond(w.chat, w.chat.msgs, u, p) == |UnreadBeyond(w, u, p)|
  {
    forall n: nat | 1 <= n <= |w.trace| ensures CountedRight(w, u, p, n) {
      CountsAt(w, u, p, n);
    }
    CountUpTo(w, u, p, |w.trace|);
    assert w.chat.msgs[..|w.trace|] == w.chat.msgs;
  }

  /** The unread count of an active member is the number of messages of others it may see beyond its pointer. */
  lemma UnreadExactly(r: Run, u: int)
    requires Created(r)
    ensures var w := After(r);
            && |w.trace| == |w.chat.msgs|
            && (u in w.chat.members || !In(w.initial, w.trace, u))
            && Unread(w.chat, u) ==
               if In(w.initial, w.trace, u) then |UnreadBeyond(w, u, w.chat.members[u].lastRead)| else 0
  {
    var w := After(r);
    AlwaysSound(r);
    assert Follows(w.chat, w.initial, w.trace, u);
    if In(w.initial, w.trace, u) {
      CountIsUnread(w, u, w.chat.members[u].lastRead);
    }
  }

  /** How far the user has read after the call: its pointer, or the largest number the call reaches. */
  ghost predicate ReadsUpTo(
    how: Naming, c: Chat, pointer: nat, start: nat, ids: Option<seq<nat>>, elsewhere: set<nat>, all: bool, p: nat)
  {
    && p >= pointer && (p == pointer || CallReaches(how, c, start, ids, elsewhere, all, p))
    && forall n: nat :: CallReaches(how, c, start, ids, elsewhere, all, n) ==> n <= p
  }

  lemma MarkedUpTo(
    w: World, u: int, how: Naming, start: nat, ids: Option<seq<nat>>, elsewhere: set<nat>, all: bool) returns (p: nat)
    requires Sound(w) && u != 0 && IsActive(w.chat, u)
    ensures ReadsUpTo(how, w.chat, w.chat.members[u].lastRead, start, ids, elsewhere, all, p)
    ensures Unread(ReadChat(how, w.chat, u, start, ids, elsewhere, all), u) == CountBeyond(w.chat, w.chat.msgs, u, p)
  {
    var t := ReadTarget(how, w.chat, start, ids, elsewhere, all);
    TargetExactly(how, w.chat, start, ids, elsewhere, all);
    p := w.chat.members[u].lastRead;
    if t.Some? {
      p := Max(p, t.value);
      MarkedCount(w.chat, u, t.value);
    }
  }

  /**
   Main result: after a mark-read call of an active member, what is left unread is what lies
   beyond its pointer and beyond every number the call reaches, clamped or not.
   */
  lemma ReadCallLeaves(
    r: Run, u: int, how: Naming, start: nat, ids: Option<seq<nat>>, elsewhere: set<nat>, all: bool) returns (p: nat)
    requires Created(r) && u != 0 && IsActive(After(r).chat, u)
    requires ReadCall(how, After(r).chat, u, start, ids, elsewhere, all).Ok?
    ensures var w := After(r);
            && |w.trace| == |w.chat.msgs|
            && ReadsUpTo(how, w.chat, w.chat.members[u].lastRead, start, ids, elsewhere, all, p)
            && Unread(ReadCall(how, w.chat, u, start, ids, elsewhere, all).value, u) == |UnreadBeyond(w, u, p)|
  {
    AlwaysSound(r);
    p := MarkedUpTo(After(r), u, how, start, ids, elsewhere, all);
    CountIsUnread(After(r), u, p);
  }

  /** A mark-read call is refused exactly if it has no peer and names nothing; else only its caller's row moves. */
  lemma ReadCallExactly(
    c: Chat, u: int, how: Naming, start: nat, ids: Option<seq<nat>>, elsewhere: set<nat>, all: bool)
    ensures var answer := ReadCall(how, c, u, start, ids, elsewhere, all);
            && (answer.Err? <==> how.ByRow? && start == 0 && ids.None?)
            && (answer.Err? ==> answer.code == 100)
            && (answer.Err? ==> forall n :: !CallReaches(how, c, start, ids, elsewhere, all, n))
            && (answer.Ok? ==>
                  && answer.value == c.(members := answer.value.members)
                  && answer.value.members.Keys == c.members.Keys
                  && (forall v :: v in c.members && v != u ==> answer.value.members[v] == c.members[v])
                  && (u in c.members ==>
                        c.members[u] == answer.value.members[u].(lastRead := c.members[u].lastRead)))
  {
  }

  // ---------------------------------------------------------------------------
  // Which calls move whose pointers

  /** Both pointers of a member row stand here. */
  predicate PointersAt(c: Chat, u: int, lastRead: nat, deletedBefore: nat) {
    u in c.members && c.members[u].lastRead == lastRead && c.members[u].deletedBefore == deletedBefore
  }

  predicate MovesPointers(op: Op, u: int) {
    (op.Send? || op.DeleteConversation? || op.MarkRead?) && op.caller == u
  }

  /** Nobody's pointers move by the calls of others; leaving and coming back keeps them; new rows start at 0. */
  lemma PointersKept(c: Chat, call: Call, u: int)
    requires !MovesPointers(call.op, u)
    ensures u in c.members ==> PointersAt(Step(c, call), u, c.members[u].lastRead, c.members[u].deletedBefore)
    ensures u !in c.members && u in Step(c, call).members ==> PointersAt(Step(c, call), u, 0, 0)
  {
  }

  /** Where a member's own calls move its pointers. */
  lemma OwnCallsMove(r: Run, call: Call, u: int)
    requires Created(r) && u in After(r).chat.members && MovesPointers(call.op, u)
    ensures var c, d := After(r).chat, Step(After(r).chat, call);
            var m := c.members[u];
            match call.op
            case Send(_, _) =>
              PointersAt(d, u, if |d.msgs| > |c.msgs| then |d.msgs| else m.lastRead, m.deletedBefore)
            case DeleteConversation(_) => PointersAt(d, u, |c.msgs|, |c.msgs|)
            case MarkRead(how, _, from, ids, elsewhere, all) =>
              && u in d.members && m.lastRead <= d.members[u].lastRead
              && d.members[u].deletedBefore == m.deletedBefore
              && exists p: nat :: ReadsUpTo(how, c, m.lastRead, from, ids, elsewhere, all, p)
                   && d.members[u].lastRead ==
                      if c.lastMessageId > 0 then Max(m.lastRead, Min(p, c.lastMessageId)) else p
            case _ => false
  {
    Always(r);
    match call.op
    case Send(_, _) => SendMoves(After(r).chat, call, u);
    case DeleteConversation(_) => MaxIsLength(After(r).chat.msgs);
    case MarkRead(how, _, from, ids, elsewhere, all) =>
      MarkMoves(After(r).chat, u, how, from, ids, elsewhere, all);
    case _ =>
  }

  lemma SendMoves(c: Chat, call: Call, u: int)
    requires Numbered(c) && u in c.members && call.op.Send? && call.op.caller == u
    ensures var d, m := Step(c, call), c.members[u];
            PointersAt(d, u, if |d.msgs| > |c.msgs| then |d.msgs| else m.lastRead, m.deletedBefore)
  {
    NextIsLength(c);
  }

  lemma MarkMoves(c: Chat, u: int, how: Naming, from: nat, ids: Option<seq<nat>>, elsewhere: set<nat>, all: bool)
    requires Numbered(c) && RowsGrow(c.msgs) && u in c.members
    ensures var d, m := ReadChat(how, c, u, from, ids, elsewhere, all), c.members[u];
            && u in d.members && m.lastRead <= d.members[u].lastRead
            && d.members[u].deletedBefore == m.deletedBefore
            && exists p: nat :: ReadsUpTo(how, c, m.lastRead, from, ids, elsewhere, all, p)
                 && d.members[u].lastRead ==
                    if c.lastMessageId > 0 then Max(m.lastRead, Min(p, c.lastMessageId)) else p
  {
    var t := ReadTarget(how, c, from, ids, elsewhere, all);
    var p := if t.Some? then Max(c.members[u].lastRead, t.value) else c.members[u].lastRead;
    TargetExactly(how, c, from, ids, elsewhere, all);
    assert ReadsUpTo(how, c, c.members[u].lastRead, from, ids, elsewhere, all, p);
  }

  // ---------------------------------------------------------------------------
  // A post and the unread counts

  lemma SentView(c: Chat, s: int, now: nat, gap: nat, v: int)
    requires IsActive(c, s)
    ensures var d := Sent(c, s, now, gap);
            && SameView(c, d, c.msgs, v)
            && d.msgs[..|d.msgs| - 1] == c.msgs
            && (IsActive(d, v) <==> IsActive(c, v))
            && (v != s && IsActive(c, v) ==> d.members[v] == c.members[v])
  {
  }

  /** An active member sees a message that was just sent. */
  lemma SentVisible(w: World, s: int, now: nat, gap: nat, v: int)
    requires RowsSound(w.chat) && |w.trace| == |w.chat.msgs|
    requires Follows(w.chat, w.initial, w.trace, v) && PointersInside(w.chat, v)
    requires IsActive(w.chat, s) && IsActive(w.chat, v)
    ensures var d := Sent(w.chat, s, now, gap);
            Visible(d, v, d.msgs[|d.msgs| - 1])
  {
    NextIsLength(w.chat);
    var n := |w.chat.msgs| + 1;
    assert Covers(w.chat.periods, v, n) <==> Ought(w.initial, w.trace, v, n);
  }

  lemma SenderCount(c: Chat, s: int, now: nat, gap: nat)
    requires Numbered(c) && IsActive(c, s)
    ensures Unread(Sent(c, s, now, gap), s) == 0
  {
    var d := Sent(c, s, now, gap);
    NextIsLength(c);
    NumberedNext(c, Call(Send(s, NoReply), now, gap));
    CountNothing(d, d.msgs, s, d.members[s].lastRead);
  }

  lemma ReceiverCount(w: World, s: int, now: nat, gap: nat, v: int)
    requires RowsSound(w.chat) && |w.trace| == |w.chat.msgs|
    requires Follows(w.chat, w.initial, w.trace, v) && PointersInside(w.chat, v)
    requires v != s && IsActive(w.chat, s) && IsActive(w.chat, v)
    ensures Unread(Sent(w.chat, s, now, gap), v) == Unread(w.chat, v) + 1
  {
    var c := w.chat;
    NextIsLength(c);
    SentView(c, s, now, gap, v);
    SentVisible(w, s, now, gap, v);
    CountSame(c, Sent(c, s, now, gap), c.msgs, v, c.members[v].lastRead);
  }

  /**
   A message sent by s raises the unread count of every other active member by exactly one,
   sets the count of s to zero, and leaves everybody else without one.
   */
  lemma SendCounts(r: Run, s: int, reply: Reply, now: nat, gap: nat, v: int)
    requires Created(r) && SendMessage(After(r).chat, s, reply, now, gap).Ok?
    ensures var c := After(r).chat;
            var d := SendMessage(c, s, reply, now, gap).value;
            Unread(d, v) == if v == s then 0 else if IsActive(c, v) then Unread(c, v) + 1 else 0
  {
    Always(r);
    AlwaysFollows(r, v);
    AlwaysInside(r, v);
    if v == s {
      SenderCount(After(r).chat, s, now, gap);
    } else if IsActive(After(r).chat, v) {
      ReceiverCount(After(r), s, now, gap, v);
    } else {
      SentView(After(r).chat, s, now, gap, v);
    }
  }

  // ---------------------------------------------------------------------------
  // Deleting the conversation

  lemma DeletedView(c: Chat, u: int, v: int, m: Msg)
    requires Numbered(c) && PointersInside(c, u) && u in c.members && v != 0
    ensures Visible(DeleteChat(c, u), v, m) <==> Visible(c, v, m) && !(v == u && m.localId <= |c.msgs|)
  {
    MaxIsLength(c.msgs);
  }

  lemma DeletedCount(c: Chat, u: int, v: int)
    requires Numbered(c) && PointersInside(c, u) && u in c.members && v != 0
    ensures Unread(DeleteChat(c, u), v) == if v == u then 0 else Unread(c, v)
  {
    var d := DeleteChat(c, u);
    MaxIsLength(c.msgs);
    if v == u {
      CountNothing(d, d.msgs, v, |c.msgs|);
    } else if IsActive(c, v) {
      CountSame(c, d, c.msgs, v, c.members[v].lastRead);
    }
  }

  /** Deleting the conversation hides exactly the messages existing then, from that user alone. */
  lemma DeleteChatHides(r: Run, u: int, v: int, m: Msg)
    requires Created(r) && u in After(r).chat.members && v != 0
    ensures var c := After(r).chat;
            var d := DeleteChat(c, u);
            && d.msgs == c.msgs
            && (Visible(d, v, m) <==> Visible(c, v, m) && !(v == u && m.localId <= |c.msgs|))
            && Unread(d, v) == if v == u then 0 else Unread(c, v)
  {
    Always(r);
    AlwaysInside(r, u);
    DeletedView(After(r).chat, u, v, m);
    DeletedCount(After(r).chat, u, v);
  }

  // ---------------------------------------------------------------------------
  // The read receipt

  /** The last message by somebody else up to local id n, 0 if none. */
  function EffectiveRead(ms: seq<Msg>, u: int, n: nat): nat {
    if ms == [] then 0
    else
      var m, rest := ms[|ms| - 1], EffectiveRead(ms[..|ms| - 1], u, n);
      if m.localId <= n && m.from != u then Max(rest, m.localId) else rest
  }

  lemma {:induction false} EffectiveReadIs(ms: seq<Msg>, u: int, n: nat)
    ensures EffectiveRead(ms, u, n) <= n
    ensures forall i :: 0 <= i < |ms| && EffectiveRead(ms, u, n) < ms[i].localId <= n ==> ms[i].from == u
    ensures EffectiveRead(ms, u, n) > 0 ==>
              exists i :: 0 <= i < |ms| && ms[i].localId == EffectiveRead(ms, u, n) && ms[i].from != u
  {
    if ms != [] {
      EffectiveReadIs(ms[..|ms| - 1], u, n);
    }
  }

  /**
   The receipt names a message of somebody else (or 0), and the unread count sent with it is
   the count beyond the id that was marked.
   */
  lemma ReceiptCounts(c: Chat, u: int, n: nat)
    ensures var e := EffectiveRead(c.msgs, u, n);
            && CountBeyond(c, c.msgs, u, e) == CountBeyond(c, c.msgs, u, n)
            && (e > 0 ==> exists i :: 0 <= i < |c.msgs| && c.msgs[i].localId == e && c.msgs[i].from != u)
  {
    EffectiveReadIs(c.msgs, u, n);
    CountGap(c, c.msgs, u, EffectiveRead(c.msgs, u, n), n);
  }
}
