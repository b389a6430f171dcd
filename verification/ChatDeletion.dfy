/**
 What deleting hides, and when restoring undoes it (messages.delete, messages.restore).
 */
module ChatDeletion {
  import opened Wrappers
  import opened ChatModel
  import opened ChatHistory

  lemma {:induction false} AnySelectedIff(how: Naming, c: Chat, ms: seq<Msg>, caller: int, ids: seq<nat>)
    ensures AnySelected(how, c, ms, caller, ids)
            <==> exists i :: 0 <= i < |ms| && Selected(how, c, caller, ids, ms[i])
  {
    if ms != [] {
      AnySelectedIff(how, c, ms[..|ms| - 1], caller, ids);
    }
  }

  /** Deleting for all takes the selected messages from everybody and nothing else from anybody. */
  lemma ForAllHides(how: Naming, c: Chat, caller: int, ids: seq<nat>, now: nat, user: int, i: nat)
    requires user != 0 && i < |c.msgs|
    requires Delete(how, c, caller, ids, true, now).Ok?
    ensures var d := Delete(how, c, caller, ids, true, now).value;
            && |d.msgs| == |c.msgs|
            && (Visible(d, user, d.msgs[i]) <==>
                Visible(c, user, c.msgs[i]) && !Selected(how, c, caller, ids, c.msgs[i]))
  {
    StampAllAt(how, c, c.msgs, caller, ids, now, i);
    AnySelectedIff(how, c, c.msgs, caller, ids);
  }

  /** Deleting for oneself takes the selected messages from the caller alone. */
  lemma PersonalHides(how: Naming, c: Chat, caller: int, ids: seq<nat>, now: nat, user: int, i: nat)
    requires Numbered(c) && user != 0 && i < |c.msgs|
    requires Delete(how, c, caller, ids, false, now).Ok?
    ensures var d := Delete(how, c, caller, ids, false, now).value;
            && d.msgs == c.msgs
            && (Visible(d, user, c.msgs[i]) <==>
                Visible(c, user, c.msgs[i]) && !(user == caller && Selected(how, c, caller, ids, c.msgs[i])))
  {
    HiddenKeysAre(how, c, c.msgs, caller, ids, (user, c.msgs[i].localId));
    AnySelectedIff(how, c, c.msgs, caller, ids);
  }

  // ---------------------------------------------------------------------------
  // Which message an id names

  lemma {:induction false} FirstNamedIsFirst(how: Naming, ms: seq<Msg>, id: nat)
    requires RowsGrow(ms)
    ensures var k := FirstNamed(how, ms, id);
            && (k.None? ==> forall i :: 0 <= i < |ms| ==> !Names(how, ms[i], id))
            && (k.Some? ==> forall i :: 0 <= i < k.value ==> !Names(how, ms[i], id))
  {
    if ms != [] {
      FirstNamedIsFirst(how, ms[..|ms| - 1], id);
    }
  }

  /** Deletion marks do not change which message an id names. */
  lemma {:induction false} FirstNamedKept(how: Naming, a: seq<Msg>, b: seq<Msg>, id: nat)
    requires |a| == |b|
    requires forall i :: 0 <= i < |a| ==> SameBody(a[i], b[i])
    ensures FirstNamed(how, a, id) == FirstNamed(how, b, id)
  {
    if a != [] {
      FirstNamedKept(how, a[..|a| - 1], b[..|b| - 1], id);
    }
  }

  // ---------------------------------------------------------------------------
  // Restore undoes delete

  /** No visible message but the first one named by `id` goes by that id. */
  predicate OnlyFirst(how: Naming, c: Chat, user: int, id: nat) {
    forall i :: 0 <= i < |c.msgs| && Selected(how, c, user, [id], c.msgs[i]) ==> FirstNamed(how, c.msgs, id) == Some(i)
  }

  lemma OneStamped(how: Naming, c: Chat, user: int, id: nat, now: nat, k: nat)
    requires k < |c.msgs| && OnlyFirst(how, c, user, id) && FirstNamed(how, c.msgs, id) == Some(k)
    requires Selected(how, c, user, [id], c.msgs[k])
    ensures StampAll(how, c, c.msgs, user, [id], now) == c.msgs[k := Stamped(c.msgs[k], now)]
  {
    forall i: nat | i < |c.msgs|
      ensures StampAll(how, c, c.msgs, user, [id], now)[i] == c.msgs[k := Stamped(c.msgs[k], now)][i]
    {
      StampAllAt(how, c, c.msgs, user, [id], now, i);
    }
  }

  lemma OneHidden(how: Naming, c: Chat, user: int, id: nat, k: nat)
    requires k < |c.msgs| && OnlyFirst(how, c, user, id) && FirstNamed(how, c.msgs, id) == Some(k)
    requires Selected(how, c, user, [id], c.msgs[k])
    ensures HiddenKeys(how, c, c.msgs, user, [id]) == {(user, c.msgs[k].localId)}
  {
    forall key
      ensures key in HiddenKeys(how, c, c.msgs, user, [id]) <==> key == (user, c.msgs[k].localId)
    {
      HiddenKeysAre(how, c, c.msgs, user, [id], key);
    }
  }

  /** Undoing one stamp gives the rows and the pointer back. */
  lemma UnstampOne(how: Naming, c: Chat, d: Chat, user: int, id: nat, now: nat, k: nat)
    requires Cached(c) && id != 0 && k < |c.msgs|
    requires c.msgs[k].flags == 0 && c.msgs[k].deletedAt == None && c.msgs[k].from == user
    requires d == c.(msgs := c.msgs[k := Stamped(c.msgs[k], now)], lastMessageId := d.lastMessageId)
    requires FirstNamed(how, d.msgs, id) == Some(k) && (user, c.msgs[k].localId) !in c.deleted
    ensures Restore(how, d, user, id) == Ok(c)
  {
    assert Unstamped(d.msgs[k]) == c.msgs[k];
    assert d.msgs[k := c.msgs[k]] == c.msgs;
  }

  lemma ForAllThenRestore(how: Naming, c: Chat, user: int, id: nat, now: nat, k: nat)
    requires RowsSound(c) && user != 0 && id != 0
    requires Delete(how, c, user, [id], true, now).Ok?
    requires k < |c.msgs| && OnlyFirst(how, c, user, id) && FirstNamed(how, c.msgs, id) == Some(k)
    requires Selected(how, c, user, [id], c.msgs[k])
    ensures Restore(how, Delete(how, c, user, [id], true, now).value, user, id) == Ok(c)
  {
    var d := Delete(how, c, user, [id], true, now).value;
    AnySelectedIff(how, c, c.msgs, user, [id]);
    AllDeletableAt(how, c, c.msgs, user, [id], now);
    OneStamped(how, c, user, id, now, k);
    FirstNamedKept(how, c.msgs, d.msgs, id);
    UnstampOne(how, c, d, user, id, now, k);
  }

  lemma PersonalThenRestore(how: Naming, c: Chat, user: int, id: nat, now: nat, k: nat)
    requires RowsSound(c) && user != 0 && id != 0
    requires k < |c.msgs| && OnlyFirst(how, c, user, id) && FirstNamed(how, c.msgs, id) == Some(k)
    requires Selected(how, c, user, [id], c.msgs[k])
    ensures Delete(how, c, user, [id], false, now).Ok?
    ensures Restore(how, Delete(how, c, user, [id], false, now).value, user, id) == Ok(c)
  {
    var d := Delete(how, c, user, [id], false, now).value;
    AnySelectedIff(how, c, c.msgs, user, [id]);
    OneHidden(how, c, user, id, k);
    assert d.deleted - {(user, c.msgs[k].localId)} == c.deleted;
  }

  /** Restoring works on the first message named by the id and leaves the others. */
  lemma RestoreTouchesOne(how: Naming, d: Chat, user: int, id: nat, i: nat)
    requires Numbered(d) && i < |d.msgs| && Restore(how, d, user, id).Ok?
    requires FirstNamed(how, d.msgs, id) != Some(i)
    ensures var e := Restore(how, d, user, id).value;
            && |e.msgs| == |d.msgs|
            && e.msgs[i] == d.msgs[i]
            && ((user, d.msgs[i].localId) in d.deleted ==> (user, d.msgs[i].localId) in e.deleted)
  {
  }

  lemma SecondStaysDeleted(how: Naming, c: Chat, user: int, id: nat, forAll: bool, now: nat, i: nat)
    requires RowsSound(c) && user != 0 && i < |c.msgs|
    requires Selected(how, c, user, [id], c.msgs[i]) && FirstNamed(how, c.msgs, id) != Some(i)
    requires Delete(how, c, user, [id], forAll, now).Ok?
    ensures Restore(how, Delete(how, c, user, [id], forAll, now).value, user, id) != Ok(c)
  {
    var d := Delete(how, c, user, [id], forAll, now).value;
    AnySelectedIff(how, c, c.msgs, user, [id]);
    NumberedDelete(how, c, user, [id], forAll, now);
    StampAllAt(how, c, c.msgs, user, [id], now, i);
    StampAllKeeps(how, c, user, [id], now);
    HiddenKeysAre(how, c, c.msgs, user, [id], (user, c.msgs[i].localId));
    FirstNamedKept(how, c.msgs, d.msgs, id);
    if Restore(how, d, user, id).Ok? {
      RestoreTouchesOne(how, d, user, id, i);
    }
  }

  lemma UndoneExactly(how: Naming, c: Chat, user: int, id: nat, forAll: bool, now: nat)
    requires RowsSound(c) && user != 0
    requires AnySelected(how, c, c.msgs, user, [id])
    requires Delete(how, c, user, [id], forAll, now).Ok?
    ensures Restore(how, Delete(how, c, user, [id], forAll, now).value, user, id) == Ok(c)
            <==> OnlyFirst(how, c, user, id)
  {
    AnySelectedIff(how, c, c.msgs, user, [id]);
    var i: nat :| i < |c.msgs| && Selected(how, c, user, [id], c.msgs[i]);
    if OnlyFirst(how, c, user, id) {
      if forAll {
        ForAllThenRestore(how, c, user, id, now, i);
      } else {
        PersonalThenRestore(how, c, user, id, now, i);
      }
    } else {
      var j: nat :|
        j < |c.msgs| && Selected(how, c, user, [id], c.msgs[j]) && FirstNamed(how, c.msgs, id) != Some(j);
      SecondStaysDeleted(how, c, user, id, forAll, now, j);
    }
  }

  /**
   Main result: deleting the messages an id names and restoring that id gives back the
   whole chat (flags, deletion times, every visible set, the cached pointer) exactly when
   no visible message but the first one goes by that id.
   */
  lemma RestoreUndoesDelete(how: Naming, r: Run, user: int, id: nat, forAll: bool, now: nat)
    requires Created(r) && user != 0
    requires AnySelected(how, After(r).chat, After(r).chat.msgs, user, [id])
    requires Delete(how, After(r).chat, user, [id], forAll, now).Ok?
    ensures var c := After(r).chat;
            Restore(how, Delete(how, c, user, [id], forAll, now).value, user, id) == Ok(c)
            <==> OnlyFirst(how, c, user, id)
  {
    Always(r);
    UndoneExactly(how, After(r).chat, user, id, forAll, now);
  }

  /** Without a peer it never fails: a row id names one message. */
  lemma RestoreByRowUndoesDelete(r: Run, user: int, id: nat, forAll: bool, othersOk: bool, now: nat)
    requires Created(r) && user != 0
    requires AnySelected(ByRow(othersOk), After(r).chat, After(r).chat.msgs, user, [id])
    requires Delete(ByRow(othersOk), After(r).chat, user, [id], forAll, now).Ok?
    ensures var c, how := After(r).chat, ByRow(othersOk);
            Restore(how, Delete(how, c, user, [id], forAll, now).value, user, id) == Ok(c)
  {
    Always(r);
    RowIdNamesOne(ByRow(othersOk), After(r).chat, user, id);
    RestoreUndoesDelete(ByRow(othersOk), r, user, id, forAll, now);
  }

  lemma RowIdNamesOne(how: Naming, c: Chat, user: int, id: nat)
    requires RowsGrow(c.msgs) && how.ByRow?
    ensures OnlyFirst(how, c, user, id)
  {
    FirstNamedIsFirst(how, c.msgs, id);
    forall i: nat | i < |c.msgs| && Selected(how, c, user, [id], c.msgs[i])
      ensures FirstNamed(how, c.msgs, id) == Some(i)
    {
      assert Names(how, c.msgs[i], id);
    }
  }

  /**
   It can fail: a chat whose second message got row id 3 and whose third message has local
   id 3.  Deleting 3 hides both from their author, and restoring 3 brings back only one.
   */
  lemma OneNumberTwoMessages(now: nat)
    ensures var r := Run(1, [], 0, 0, [Call(Send(1, NoReply), 0, 1), Call(Send(1, NoReply), 0, 0)]);
            && Created(r)
            && var c := After(r).chat;
               && |c.msgs| == 3
               && c.msgs[1].id == c.msgs[2].localId == 3
               && Selected(InPeer, c, 1, [3], c.msgs[1]) && Selected(InPeer, c, 1, [3], c.msgs[2])
               && Delete(InPeer, c, 1, [3], false, now).Ok?
               && Restore(InPeer, Delete(InPeer, c, 1, [3], false, now).value, 1, 3) != Ok(c)
  {
    var r := Run(1, [], 0, 0, [Call(Send(1, NoReply), 0, 1), Call(Send(1, NoReply), 0, 0)]);
    var c := TwoSends();
    SeesOwn(c, c.msgs[1]);
    SeesOwn(c, c.msgs[2]);
    AnySelectedIff(InPeer, c, c.msgs, 1, [3]);
    RestoreUndoesDelete(InPeer, r, 1, 3, false, now);
  }

  /** The rows of a chat with one member, who saw and deleted nothing. */
  predicate Alone(c: Chat) {
    && c.deleted == {} && c.periods == [Period(1, 1, None)]
    && 1 in c.members && !c.members[1].left && c.members[1].deletedBefore == 0
  }

  lemma SeesOwn(c: Chat, m: Msg)
    requires Alone(c) && m.deletedAt.None? && m.localId >= 1
    ensures Visible(c, 1, m)
  {
    assert InPeriod(c.periods[0], 1, m.localId);
  }

  lemma StartAlone() returns (c: Chat)
    ensures Created(Run(1, [], 0, 0, [])) && After(Run(1, [], 0, 0, [])).chat == c
    ensures Alone(c) && RowsSound(c) && |c.msgs| == 1 && c.msgs[0].id == 1
  {
    CreateShape(1, [], 0, 0);
    c := After(Run(1, [], 0, 0, [])).chat;
    Always(Run(1, [], 0, 0, []));
  }

  lemma TwoSends() returns (c: Chat)
    ensures var r := Run(1, [], 0, 0, [Call(Send(1, NoReply), 0, 1), Call(Send(1, NoReply), 0, 0)]);
            Created(r) && After(r).chat == c
    ensures Alone(c) && |c.msgs| == 3
    ensures c.msgs[1].id == c.msgs[2].localId == 3 && c.msgs[1].localId == 2
    ensures c.msgs[1].deletedAt == c.msgs[2].deletedAt == None
  {
    var first, second := Call(Send(1, NoReply), 0, 1), Call(Send(1, NoReply), 0, 0);
    var r0, r1, r := Run(1, [], 0, 0, []), Run(1, [], 0, 0, [first]), Run(1, [], 0, 0, [first, second]);
    var c0 := StartAlone();
    SendFromOwner(c0, 1);
    assert r1.calls[..|r1.calls| - 1] == [];
    var c1 := After(r1).chat;
    assert c1 == Sent(c0, 1, 0, 1);
    SendFromOwner(c1, 0);
    assert r.calls[..|r.calls| - 1] == [first];
    c := After(r).chat;
    assert c == Sent(c1, 1, 0, 0);
    assert c.msgs[1] == c.msgs[..2][1];
  }

  lemma SendFromOwner(c: Chat, gap: nat)
    requires RowsSound(c) && c.msgs != [] && Alone(c)
    ensures var d := Sent(c, 1, 0, gap);
            && SendMessage(c, 1, NoReply, 0, gap) == Ok(d)
            && |d.msgs| == |c.msgs| + 1 && d.msgs[..|c.msgs|] == c.msgs
            && d.msgs[|c.msgs|].id == c.msgs[|c.msgs| - 1].id + 1 + gap
            && d.msgs[|c.msgs|].localId == |c.msgs| + 1
            && d.msgs[|c.msgs|].deletedAt == None
            && Alone(d) && RowsSound(d)
  {
    NextIsLength(c);
    LastRowIsLast(c.msgs);
    RowsSoundNext(c, Call(Send(1, NoReply), 0, gap));
  }

  lemma {:induction false} NewestKeptUpdate(ms: seq<Msg>, k: nat, m: Msg)
    requires forall i :: 0 <= i < |ms| ==> ms[i].localId == i + 1
    requires k < |ms| && m.localId == k + 1 && FlaggedDeleted(ms[k]) && !FlaggedDeleted(m)
    ensures NewestKept(ms[k := m]) == Max(NewestKept(ms), k + 1)
  {
    var next := ms[k := m];
    NewestKeptBound(ms);
    NewestKeptBound(next);
    var p, q := NewestKept(ms), NewestKept(next);
    assert !FlaggedDeleted(next[k]);
    assert q > k;
    if p > 0 {
      assert !FlaggedDeleted(next[p - 1]);
    }
    if q - 1 != k {
      assert !FlaggedDeleted(ms[q - 1]);
    }
  }

  lemma ClearedFlags(m: Msg)
    requires m.flags == 192
    ensures Unstamped(m) == m.(flags := 0, deletedAt := None)
    ensures FlaggedDeleted(m) && !FlaggedDeleted(Unstamped(m))
  {
  }

  lemma AuthorRestores(how: Naming, c: Chat, id: nat, k: nat)
    requires Numbered(c) && Cached(c) && id != 0 && FirstNamed(how, c.msgs, id) == Some(k)
    requires c.msgs[k].deletedAt.Some? && c.msgs[k].flags == 192
    requires (c.msgs[k].from, c.msgs[k].localId) !in c.deleted
    ensures Restore(how, c, c.msgs[k].from, id)
            == Ok(c.(msgs := c.msgs[k := c.msgs[k].(flags := 0, deletedAt := None)],
                     lastMessageId := Max(c.lastMessageId, k + 1)))
  {
    ClearedFlags(c.msgs[k]);
    NewestKeptUpdate(c.msgs, k, Unstamped(c.msgs[k]));
  }

  /**
   However much later, the author of a message deleted for all gets it back by restoring
   it: no personal deletion stands in the way, and the pointer moves up to it if needed.
   */
  lemma AuthorCanRestore(how: Naming, r: Run, id: nat, k: nat)
    requires Created(r)
    requires id != 0 && FirstNamed(how, After(r).chat.msgs, id) == Some(k)
    requires var m := After(r).chat.msgs[k]; m.deletedAt.Some? && m.from != 0
    ensures var c := After(r).chat;
            Restore(how, c, c.msgs[k].from, id)
            == Ok(c.(msgs := c.msgs[k := c.msgs[k].(flags := 0, deletedAt := None)],
                     lastMessageId := Max(c.lastMessageId, k + 1)))
  {
    Always(r);
    AuthorRestores(how, After(r).chat, id, k);
  }
}
