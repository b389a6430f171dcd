/**
 The random_id lock of messages.send (src/transport/endpoints/messages/send.go): any
 number of clients, each running GET, SETNX, the posting transaction, and then SET of
 the message id or DEL of the key.  The 15 second lock does not expire during a send.
 */
module SendLock {

  /** Sender, peer and random id together name the Redis key. */
  datatype Key = Key(sender: int, peer: int, random: int)

  /** What the key holds: the word "processing", or the id of the sent message. */
  datatype Cell = Processing | Done(mid: nat)

  datatype Result = Sent(mid: nat) | Busy | Rejected

  datatype Phase =
    | Started                  // before GET
    | SawNothing               // GET found no value, SETNX not tried yet
    | Holding                  // SETNX succeeded, nothing committed
    | Committed(mid: nat)      // transaction committed, SET still to run
    | RolledBack               // send failed, deferred DEL still to run
    | Returned(result: Result)

  datatype Client = Client(key: Key, phase: Phase)

  datatype Message = Message(key: Key, mid: nat)

  datatype Sys = Sys(cells: map<Key, Cell>, clients: map<nat, Client>, messages: seq<Message>)

  const INIT := Sys(map[], map[], [])

  datatype Action =
    | Call(c: nat, key: Key)
    | Get(c: nat)
    | SetNX(c: nat)
    | Commit(c: nat)
    | Fail(c: nat)
    | Publish(c: nat)
    | Release(c: nat)

  predicate At(s: Sys, c: nat, ph: Phase) {
    c in s.clients && s.clients[c].phase == ph
  }

  predicate Can(s: Sys, a: Action) {
    match a
    case Call(c, key) => c !in s.clients
    case Get(c) => At(s, c, Started)
    case SetNX(c) => At(s, c, SawNothing)
    case Commit(c) => At(s, c, Holding)
    case Fail(c) => At(s, c, Holding)
    case Publish(c) => c in s.clients && s.clients[c].phase.Committed?
    case Release(c) => At(s, c, RolledBack)
  }

  function Goto(s: Sys, c: nat, ph: Phase): Sys
    requires c in s.clients
  {
    s.(clients := s.clients[c := s.clients[c].(phase := ph)])
  }

  function Act(s: Sys, a: Action): Sys
    requires Can(s, a)
  {
    match a
    case Call(c, key) => s.(clients := s.clients[c := Client(key, Started)])
    case Get(c) =>
      var key := s.clients[c].key;
      if key !in s.cells then Goto(s, c, SawNothing)
      else
        (match s.cells[key]
         case Processing => Goto(s, c, Returned(Busy))
         case Done(mid) => Goto(s, c, Returned(Sent(mid))))
    case SetNX(c) =>
      var key := s.clients[c].key;
      if key in s.cells then Goto(s, c, Returned(Busy))
      else Goto(s, c, Holding).(cells := s.cells[key := Processing])
    case Commit(c) =>
      var mid := |s.messages| + 1;
      Goto(s, c, Committed(mid)).(messages := s.messages + [Message(s.clients[c].key, mid)])
    case Fail(c) => Goto(s, c, RolledBack)
    case Publish(c) =>
      var mid := s.clients[c].phase.mid;
      Goto(s, c, Returned(Sent(mid))).(cells := s.cells[s.clients[c].key := Done(mid)])
    case Release(c) => Goto(s, c, Returned(Rejected)).(cells := s.cells - {s.clients[c].key})
  }

  /** The runs: actions that are not possible do not happen. */
  function Exec(acts: seq<Action>): Sys {
    if acts == [] then INIT
    else
      var s := Exec(acts[..|acts| - 1]);
      var a := acts[|acts| - 1];
      if Can(s, a) then Act(s, a) else s
  }

  // ---------------------------------------------------------------------------

  /** c is between a successful SETNX and the SET or DEL that ends it. */
  predicate Owns(s: Sys, c: nat, key: Key) {
    && c in s.clients && s.clients[c].key == key
    && (s.clients[c].phase.Holding? || s.clients[c].phase.Committed? || s.clients[c].phase.RolledBack?)
  }

  predicate Posted(s: Sys, key: Key, mid: nat) {
    Message(key, mid) in s.messages
  }

  ghost predicate OneMessagePerKey(s: Sys) {
    forall i, j :: 0 <= i < j < |s.messages| ==> s.messages[i].key != s.messages[j].key
  }

  /** The key says "processing" exactly while some client owns it, and then only one does. */
  ghost predicate OneOwner(s: Sys) {
    && (forall c, key :: Owns(s, c, key) ==> key in s.cells && s.cells[key] == Processing)
    && (forall key :: key in s.cells && s.cells[key] == Processing ==> exists c :: Owns(s, c, key))
    && (forall c, d, key :: Owns(s, c, key) && Owns(s, d, key) ==> c == d)
  }

  /** Where the one message of a key can be: with its uncommitted-to-Redis owner, or in the key. */
  ghost predicate MessageAccounted(s: Sys) {
    && (forall key, mid :: Posted(s, key, mid) ==>
          (key in s.cells && s.cells[key] == Done(mid)) ||
          (exists c :: Owns(s, c, key) && s.clients[c].phase == Committed(mid)))
    && (forall key, mid :: key in s.cells && s.cells[key] == Done(mid) ==> Posted(s, key, mid))
    && (forall c, mid :: At(s, c, Committed(mid)) ==> Posted(s, s.clients[c].key, mid))
  }

  /** A success reports the message of its own key. */
  ghost predicate SuccessesHonest(s: Sys) {
    forall c, mid :: At(s, c, Returned(Sent(mid))) ==> Posted(s, s.clients[c].key, mid)
  }

  ghost predicate Ok(s: Sys) {
    OneMessagePerKey(s) && OneOwner(s) && MessageAccounted(s) && SuccessesHonest(s)
  }

  /** An action changes the owner of at most the acting client's key. */
  lemma OwnersStep(s: Sys, a: Action, c: nat, key: Key)
    requires Ok(s) && Can(s, a) && Owns(Act(s, a), c, key)
    ensures Owns(s, c, key) || (a == SetNX(c) && key !in s.cells)
    ensures key in Act(s, a).cells && Act(s, a).cells[key] == Processing
  {
    if Owns(s, c, key) && (a.Publish? || a.Release?) {
      assert Owns(s, a.c, s.clients[a.c].key);
    }
  }

  lemma OneOwnerStep(s: Sys, a: Action)
    requires Ok(s) && Can(s, a)
    ensures OneOwner(Act(s, a))
  {
    var s' := Act(s, a);
    forall c, key | Owns(s', c, key) ensures key in s'.cells && s'.cells[key] == Processing {
      OwnersStep(s, a, c, key);
    }
    forall c, d, key | Owns(s', c, key) && Owns(s', d, key) ensures c == d {
      OwnersStep(s, a, c, key);
      OwnersStep(s, a, d, key);
    }
    forall key | key in s'.cells && s'.cells[key] == Processing ensures exists c :: Owns(s', c, key) {
      if a.SetNX? && s.clients[a.c].key == key && key !in s.cells {
        assert Owns(s', a.c, key);
      } else {
        var c :| Owns(s, c, key);
        assert Owns(s', c, key);
      }
    }
  }

  /** Nobody has posted under a key whose owner has not committed. */
  lemma NothingPostedYet(s: Sys, c: nat)
    requires Ok(s) && At(s, c, Holding)
    ensures forall mid :: !Posted(s, s.clients[c].key, mid)
  {
    assert Owns(s, c, s.clients[c].key);
  }

  lemma MessagesStep(s: Sys, a: Action)
    requires Ok(s) && Can(s, a)
    ensures OneMessagePerKey(Act(s, a))
  {
    if a.Commit? {
      NothingPostedYet(s, a.c);
      forall i | 0 <= i < |s.messages| ensures s.messages[i].key != s.clients[a.c].key {
        assert Posted(s, s.messages[i].key, s.messages[i].mid);
      }
    }
  }

  lemma AccountedStep(s: Sys, a: Action)
    requires Ok(s) && Can(s, a)
    ensures MessageAccounted(Act(s, a))
  {
    var s' := Act(s, a);
    forall key, mid | Posted(s', key, mid)
      ensures (key in s'.cells && s'.cells[key] == Done(mid)) ||
              (exists c :: Owns(s', c, key) && s'.clients[c].phase == Committed(mid))
    {
      PostedAccountedStep(s, a, key, mid);
    }
    forall key, mid | key in s'.cells && s'.cells[key] == Done(mid) ensures Posted(s', key, mid) {
      DonePostedStep(s, a, key, mid);
    }
    forall c, mid | At(s', c, Committed(mid)) ensures Posted(s', s'.clients[c].key, mid) {
      CommittedPostedStep(s, a, c, mid);
    }
  }

  lemma DonePostedStep(s: Sys, a: Action, key: Key, mid: nat)
    requires Ok(s) && Can(s, a)
    requires key in Act(s, a).cells && Act(s, a).cells[key] == Done(mid)
    ensures Posted(Act(s, a), key, mid)
  {
    assert Posted(s, key, mid);
  }

  lemma CommittedPostedStep(s: Sys, a: Action, c: nat, mid: nat)
    requires Ok(s) && Can(s, a)
    requires At(Act(s, a), c, Committed(mid))
    ensures Posted(Act(s, a), Act(s, a).clients[c].key, mid)
  {
    if a != Commit(c) {
      assert At(s, c, Committed(mid));
      assert Posted(s, s.clients[c].key, mid);
    }
  }

  lemma PostedAccountedStep(s: Sys, a: Action, key: Key, mid: nat)
    requires Ok(s) && Can(s, a) && Posted(Act(s, a), key, mid)
    ensures (key in Act(s, a).cells && Act(s, a).cells[key] == Done(mid)) ||
            (exists c :: Owns(Act(s, a), c, key) && Act(s, a).clients[c].phase == Committed(mid))
  {
    var s' := Act(s, a);
    if !Posted(s, key, mid) {
      assert Owns(s', a.c, key);
    } else if key in s.cells && s.cells[key] == Done(mid) {
      if a.Release? || a.Publish? {
        assert Owns(s, a.c, s.clients[a.c].key);
      }
    } else {
      var c :| Owns(s, c, key) && s.clients[c].phase == Committed(mid);
      if a.Release? {
        assert Owns(s, a.c, s.clients[a.c].key);
      }
      if a != Publish(c) {
        assert Owns(s', c, key) && s'.clients[c].phase == Committed(mid);
      }
    }
  }

  lemma SuccessesStep(s: Sys, a: Action)
    requires Ok(s) && Can(s, a)
    ensures SuccessesHonest(Act(s, a))
  {
    var s' := Act(s, a);
    forall c, mid | At(s', c, Returned(Sent(mid))) ensures Posted(s', s'.clients[c].key, mid) {
      assert Posted(s, s'.clients[c].key, mid);
    }
  }

  lemma {:induction false} RunOk(acts: seq<Action>)
    ensures Ok(Exec(acts))
  {
    if acts != [] {
      var s, a := Exec(acts[..|acts| - 1]), acts[|acts| - 1];
      RunOk(acts[..|acts| - 1]);
      if Can(s, a) {
        OneOwnerStep(s, a);
        MessagesStep(s, a);
        AccountedStep(s, a);
        SuccessesStep(s, a);
      }
    }
  }

  /** At most one message is committed per key, however many clients race. */
  lemma AtMostOneMessage(acts: seq<Action>, key: Key, m: nat, n: nat)
    requires Posted(Exec(acts), key, m) && Posted(Exec(acts), key, n)
    ensures m == n
    ensures multiset(Exec(acts).messages)[Message(key, m)] == 1
  {
    var msgs := Exec(acts).messages;
    RunOk(acts);
    var i :| 0 <= i < |msgs| && msgs[i] == Message(key, m);
    var j :| 0 <= j < |msgs| && msgs[j] == Message(key, n);
    assert msgs == msgs[..i] + [msgs[i]] + msgs[i + 1..];
    assert Message(key, m) !in msgs[..i] && Message(key, m) !in msgs[i + 1..];
  }

  /** Every success returns the id of the one message of its key. */
  lemma SuccessReturnsTheMessage(acts: seq<Action>, c: nat, mid: nat)
    requires At(Exec(acts), c, Returned(Sent(mid)))
    ensures Posted(Exec(acts), Exec(acts).clients[c].key, mid)
    ensures forall other :: Posted(Exec(acts), Exec(acts).clients[c].key, other) ==> other == mid
  {
    RunOk(acts);
    var key := Exec(acts).clients[c].key;
    forall other | Posted(Exec(acts), key, other) ensures other == mid {
      AtMostOneMessage(acts, key, other, mid);
    }
  }

  // ---------------------------------------------------------------------------
  // When a call succeeds and when it is turned away

  predicate Stored(s: Sys, key: Key, mid: nat) {
    key in s.cells && s.cells[key] == Done(mid)
  }

  /** A stored id is never overwritten or deleted. */
  lemma StoredStays(s: Sys, a: Action, key: Key, mid: nat)
    requires Ok(s) && Can(s, a) && Stored(s, key, mid)
    ensures Stored(Act(s, a), key, mid)
  {
    if a.Publish? || a.Release? {
      assert Owns(s, a.c, s.clients[a.c].key);
    }
  }

  lemma {:induction false} StoredForGood(acts: seq<Action>, more: seq<Action>, key: Key, mid: nat)
    requires Stored(Exec(acts), key, mid)
    ensures Stored(Exec(acts + more), key, mid)
  {
    if more == [] {
      assert acts + more == acts;
    } else {
      var front, a := acts + more[..|more| - 1], more[|more| - 1];
      assert (acts + more)[..|acts + more| - 1] == front;
      StoredForGood(acts, more[..|more| - 1], key, mid);
      RunOk(front);
      if Can(Exec(front), a) {
        StoredStays(Exec(front), a, key, mid);
      }
    }
  }

  /** A client that has returned an id has left it stored. */
  lemma {:induction false} SuccessIsStored(acts: seq<Action>, c: nat, mid: nat)
    requires At(Exec(acts), c, Returned(Sent(mid)))
    ensures Stored(Exec(acts), Exec(acts).clients[c].key, mid)
  {
    var front, a := acts[..|acts| - 1], acts[|acts| - 1];
    var s := Exec(front);
    RunOk(front);
    if At(s, c, Returned(Sent(mid))) {
      SuccessIsStored(front, c, mid);
      if Can(s, a) {
        StoredStays(s, a, s.clients[c].key, mid);
      }
    }
  }

  /**
   Main result: once a call under a key has returned the id of its message, every retry under
   that key is answered with this id by its GET, whatever ran in between.
   */
  lemma RetryLearnsTheId(acts: seq<Action>, more: seq<Action>, c: nat, mid: nat, retry: nat)
    requires At(Exec(acts), c, Returned(Sent(mid)))
    requires At(Exec(acts + more), retry, Started)
    requires Exec(acts + more).clients[retry].key == Exec(acts).clients[c].key
    ensures At(Act(Exec(acts + more), Get(retry)), retry, Returned(Sent(mid)))
  {
    SuccessIsStored(acts, c, mid);
    StoredForGood(acts, more, Exec(acts).clients[c].key, mid);
  }

  ghost predicate Owned(s: Sys, key: Key) {
    exists d :: Owns(s, d, key)
  }

  /** What the key holds follows from who owns it and what was posted under it. */
  lemma CellExactly(s: Sys, key: Key)
    requires Ok(s)
    ensures (key in s.cells && s.cells[key] == Processing) <==> Owned(s, key)
    ensures forall mid :: Stored(s, key, mid) <==> Posted(s, key, mid) && !Owned(s, key)
    ensures key !in s.cells <==> !Owned(s, key) && forall mid :: !Posted(s, key, mid)
  {
    if key in s.cells && s.cells[key].Done? {
      assert Posted(s, key, s.cells[key].mid);
    }
  }

  /**
   GET turns a call away exactly while another call owns the key; it answers with an id
   exactly if that message was posted and nobody owns the key; otherwise the call goes on.
   */
  lemma GetExactly(acts: seq<Action>, c: nat)
    requires Can(Exec(acts), Get(c))
    ensures var s, next := Exec(acts), Act(Exec(acts), Get(c));
            var key := s.clients[c].key;
            && (At(next, c, Returned(Busy)) <==> Owned(s, key))
            && (forall mid :: At(next, c, Returned(Sent(mid))) <==> Posted(s, key, mid) && !Owned(s, key))
            && (At(next, c, SawNothing) <==> !Owned(s, key) && forall mid :: !Posted(s, key, mid))
            && next.cells == s.cells && next.messages == s.messages
  {
    var s := Exec(acts);
    var key := s.clients[c].key;
    RunOk(acts);
    CellExactly(s, key);
    forall mid ensures At(Act(s, Get(c)), c, Returned(Sent(mid))) <==> Stored(s, key, mid) {
    }
  }

  /** SETNX gives the key to a call exactly when nobody owns it and nothing was posted under it. */
  lemma SetNXExactly(acts: seq<Action>, c: nat)
    requires Can(Exec(acts), SetNX(c))
    ensures var s, next := Exec(acts), Act(Exec(acts), SetNX(c));
            var key := s.clients[c].key;
            && (Owns(next, c, key) <==> !Owned(s, key) && forall mid :: !Posted(s, key, mid))
            && (Owns(next, c, key) <==> At(next, c, Holding))
            && (!Owns(next, c, key) <==> At(next, c, Returned(Busy)))
            && next.messages == s.messages
  {
    RunOk(acts);
    CellExactly(Exec(acts), Exec(acts).clients[c].key);
  }

  lemma ExecSnoc(acts: seq<Action>, s: Sys, a: Action)
    requires Exec(acts) == s && Can(s, a)
    ensures Exec(acts + [a]) == Act(s, a)
  {
    assert (acts + [a])[..|acts|] == acts;
  }

  /** The state of a run in which client c, new, has just been given the free key. */
  lemma TakesFreeKey(acts: seq<Action>, c: nat, key: Key) returns (s: Sys)
    requires c !in Exec(acts).clients
    requires !Owned(Exec(acts), key) && forall mid :: !Posted(Exec(acts), key, mid)
    ensures s == Exec(acts + [Call(c, key)] + [Get(c)] + [SetNX(c)])
    ensures At(s, c, Holding) && s.clients[c].key == key
    ensures key !in Exec(acts).cells && s.cells == Exec(acts).cells[key := Processing]
    ensures s.messages == Exec(acts).messages
  {
    s := Exec(acts);
    RunOk(acts);
    CellExactly(s, key);
    ExecSnoc(acts, s, Call(c, key));
    s := Act(s, Call(c, key));
    ExecSnoc(acts + [Call(c, key)], s, Get(c));
    s := Act(s, Get(c));
    ExecSnoc(acts + [Call(c, key)] + [Get(c)], s, SetNX(c));
    s := Act(s, SetNX(c));
  }

  lemma CommitsAndPublishes(acts: seq<Action>, s: Sys, c: nat, key: Key)
    requires Exec(acts) == s && At(s, c, Holding) && s.clients[c].key == key
    ensures var next, mid := Exec(acts + [Commit(c)] + [Publish(c)]), |s.messages| + 1;
            && At(next, c, Returned(Sent(mid)))
            && next.messages == s.messages + [Message(key, mid)]
            && next.cells == s.cells[key := Done(mid)]
  {
    ExecSnoc(acts, s, Commit(c));
    ExecSnoc(acts + [Commit(c)], Act(s, Commit(c)), Publish(c));
  }

  lemma FailsAndReleases(acts: seq<Action>, s: Sys, c: nat, key: Key)
    requires Exec(acts) == s && At(s, c, Holding) && s.clients[c].key == key
    ensures var next := Exec(acts + [Fail(c)] + [Release(c)]);
            && At(next, c, Returned(Rejected))
            && next.messages == s.messages
            && next.cells == s.cells - {key}
  {
    ExecSnoc(acts, s, Fail(c));
    ExecSnoc(acts + [Fail(c)], Act(s, Fail(c)), Release(c));
  }

  /** After any run, a call alone on a key that nobody owns and nothing was posted under gets through. */
  lemma LoneCallSends(acts: seq<Action>, c: nat, key: Key)
    requires c !in Exec(acts).clients
    requires !Owned(Exec(acts), key) && forall mid :: !Posted(Exec(acts), key, mid)
    ensures var s := Exec(acts);
            var next := Exec(acts + [Call(c, key)] + [Get(c)] + [SetNX(c)] + [Commit(c)] + [Publish(c)]);
            var mid := |s.messages| + 1;
            && At(next, c, Returned(Sent(mid)))
            && next.messages == s.messages + [Message(key, mid)]
            && next.cells == s.cells[key := Done(mid)]
  {
    var s := TakesFreeKey(acts, c, key);
    CommitsAndPublishes(acts + [Call(c, key)] + [Get(c)] + [SetNX(c)], s, c, key);
  }

  /** If its transaction fails instead, the key is as free as before and nothing was posted. */
  lemma FailedCallFreesKey(acts: seq<Action>, c: nat, key: Key)
    requires c !in Exec(acts).clients
    requires !Owned(Exec(acts), key) && forall mid :: !Posted(Exec(acts), key, mid)
    ensures var s := Exec(acts);
            var next := Exec(acts + [Call(c, key)] + [Get(c)] + [SetNX(c)] + [Fail(c)] + [Release(c)]);
            && At(next, c, Returned(Rejected))
            && next.messages == s.messages
            && next.cells == s.cells
  {
    var s := TakesFreeKey(acts, c, key);
    FailsAndReleases(acts + [Call(c, key)] + [Get(c)] + [SetNX(c)], s, c, key);
    assert Exec(acts).cells[key := Processing] - {key} == Exec(acts).cells;
  }

  /** A call that owns its key can always go on, and returns what it committed. */
  lemma OwnerGoesOn(acts: seq<Action>, c: nat, key: Key)
    requires Owns(Exec(acts), c, key)
    ensures var s := Exec(acts);
            match s.clients[c].phase
            case Holding =>
              && Can(s, Commit(c)) && Can(s, Fail(c))
              && At(Act(s, Commit(c)), c, Committed(|s.messages| + 1))
              && Act(s, Commit(c)).messages == s.messages + [Message(key, |s.messages| + 1)]
              && At(Act(s, Fail(c)), c, RolledBack)
            case Committed(mid) =>
              && Can(s, Publish(c)) && Posted(s, key, mid)
              && At(Act(s, Publish(c)), c, Returned(Sent(mid)))
              && Stored(Act(s, Publish(c)), key, mid)
            case _ =>
              Can(s, Release(c)) && At(Act(s, Release(c)), c, Returned(Rejected))
  {
    RunOk(acts);
    assert forall mid :: At(Exec(acts), c, Committed(mid)) ==> Posted(Exec(acts), key, mid);
  }

  /** The deferred DEL removes the deleting client's own lock and nothing else. */
  lemma ReleasesOwnLock(acts: seq<Action>, c: nat)
    requires Can(Exec(acts), Release(c))
    ensures var s := Exec(acts);
            var key := s.clients[c].key;
            && key in s.cells && s.cells[key] == Processing
            && (forall d :: Owns(s, d, key) ==> d == c)
            && (forall mid :: !Posted(s, key, mid))
            && (forall k :: k != key && k in s.cells ==>
                  k in Act(s, Release(c)).cells && Act(s, Release(c)).cells[k] == s.cells[k])
  {
    var s := Exec(acts);
    RunOk(acts);
    assert Owns(s, c, s.clients[c].key);
  }

  /** Once all calls have returned no key is left at "processing". */
  lemma NeverStuck(acts: seq<Action>, key: Key)
    requires forall c :: c in Exec(acts).clients ==> Exec(acts).clients[c].phase.Returned?
    ensures key in Exec(acts).cells ==>
              Exec(acts).cells[key].Done? && Posted(Exec(acts), key, Exec(acts).cells[key].mid)
    ensures key !in Exec(acts).cells ==> forall mid :: !Posted(Exec(acts), key, mid)
  {
    RunOk(acts);
    assert forall c :: !Owns(Exec(acts), c, key);
  }
}
