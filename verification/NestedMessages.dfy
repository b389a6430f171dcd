/**
 Replies and forwards (src/models/db/message_vk.go): messages are preloaded breadth
 first, one query per round, into a cache keyed by row id and by local id; rendering
 then recurses through the cache down to a depth.

 The query ranges over all chats, and every chat has its own local ids, so one number
 can lead to several rows.  What is rendered is settled exactly when no number that
 rendering follows does (PreloadIsExact).
 */
module NestedMessages {
  import opened Wrappers

  /**
   `forwards` are the comma-separated parts of forward_messages after ParseUint, [] for
   an empty column.  `content` stands for the fields that are rendered as they are.
   */
  datatype Msg = Msg(id: nat, localId: nat, chatId: string, replyTo: Option<nat>, forwards: seq<Option<nat>>,
                     deleted: bool, content: string)

  type Cache = map<nat, Msg>

  predicate HasKey(m: Msg, k: nat) {
    k == m.id || (k == m.localId && k > 0)
  }

  /** Row ids start at 1. */
  ghost predicate RowIdsPositive(store: seq<Msg>) {
    forall m :: m in store ==> m.id > 0
  }

  function AddMsg(cache: Cache, m: Msg): Cache {
    var c := cache[m.id := m];
    if m.localId > 0 then c[m.localId := m] else c
  }

  function AddAll(cache: Cache, msgs: seq<Msg>): Cache {
    if msgs == [] then cache else AddMsg(AddAll(cache, msgs[..|msgs| - 1]), msgs[|msgs| - 1])
  }

  /** The whole store as one cache. */
  function Index(store: seq<Msg>): Cache {
    AddAll(map[], store)
  }

  /** WHERE id IN ids OR local_id IN ids. */
  function Select(store: seq<Msg>, ids: set<nat>): seq<Msg> {
    if store == [] then []
    else
      var m := store[|store| - 1];
      Select(store[..|store| - 1], ids) + (if m.id in ids || m.localId in ids then [m] else [])
  }

  // ---------------------------------------------------------------------------
  // Rendering

  datatype View = View(msg: Msg, reply: Option<View>, fwds: seq<View>)

  /** The two renderers: ToVKApiStructBatch and ToVKApiStructBatchLegacy. */
  datatype Style = Modern | Legacy

  function Render(style: Style, cache: Cache, m: Msg, depth: nat): View
    decreases depth, 0
  {
    match style
    case Modern =>
      var reply :=
        if m.replyTo.Some? && m.replyTo.value > 0 && depth > 0 && m.replyTo.value in cache
        then Some(Render(style, cache, cache[m.replyTo.value], depth - 1)) else None;
      View(m, reply, if depth > 0 then RenderEach(style, cache, m.forwards, depth - 1) else [])
    case Legacy =>
      // a reply counts as a forward, and only when there are no forwards
      if m.deleted || depth == 0 then View(m, None, [])
      else if m.forwards != [] then View(m, None, RenderEach(style, cache, m.forwards, depth - 1))
      else if m.replyTo.Some? && m.replyTo.value > 0 && m.replyTo.value in cache
      then View(m, None, [Render(style, cache, cache[m.replyTo.value], depth - 1)])
      else View(m, None, [])
  }

  /** The forwards, each rendered to the remaining depth. */
  function RenderEach(style: Style, cache: Cache, ids: seq<Option<nat>>, depth: nat): seq<View>
    decreases depth, 1, |ids|
  {
    if ids == [] then []
    else
      var rest := RenderEach(style, cache, ids[1..], depth);
      if ids[0].Some? && ids[0].value in cache
      then [Render(style, cache, cache[ids[0].value], depth)] + rest else rest
  }

  lemma RenderKeepsMsg(style: Style, cache: Cache, m: Msg, depth: nat)
    ensures Render(style, cache, m, depth).msg == m
  {
  }

  lemma {:induction false} RenderEachConcat(
    style: Style, cache: Cache, a: seq<Option<nat>>, b: seq<Option<nat>>, depth: nat)
    ensures RenderEach(style, cache, a + b, depth)
            == RenderEach(style, cache, a, depth) + RenderEach(style, cache, b, depth)
    decreases |a|
  {
    if a == [] {
      assert a + b == b;
    } else {
      assert (a + b)[1..] == a[1..] + b;
      RenderEachConcat(style, cache, a[1..], b, depth);
    }
  }

  /** The forwards come in the order of the column: one view where it stands, none for a number not cached. */
  lemma RenderedInOrder(
    style: Style, cache: Cache, m: Msg, before: seq<Option<nat>>, id: Option<nat>, after: seq<Option<nat>>, depth: nat)
    requires m.forwards == before + [id] + after && depth > 0 && (style.Legacy? ==> !m.deleted)
    ensures Render(style, cache, m, depth).fwds ==
            RenderEach(style, cache, before, depth - 1)
            + (if id.Some? && id.value in cache then [Render(style, cache, cache[id.value], depth - 1)] else [])
            + RenderEach(style, cache, after, depth - 1)
    ensures style.Modern? ==>
              Render(style, cache, m, depth).reply ==
              if m.replyTo.Some? && m.replyTo.value > 0 && m.replyTo.value in cache
              then Some(Render(style, cache, cache[m.replyTo.value], depth - 1)) else None
  {
    RenderEachConcat(style, cache, before + [id], after, depth - 1);
    RenderEachConcat(style, cache, before, [id], depth - 1);
    assert [id][1..] == [];
  }

  lemma {:induction false} EachOneForOne(style: Style, cache: Cache, ids: seq<Option<nat>>, depth: nat, j: nat)
    requires forall i :: 0 <= i < |ids| ==> ids[i].Some? && ids[i].value in cache
    requires j < |ids|
    ensures |RenderEach(style, cache, ids, depth)| == |ids|
    ensures RenderEach(style, cache, ids, depth)[j] == Render(style, cache, cache[ids[j].value], depth)
    decreases |ids|
  {
    if |ids| > 1 {
      EachOneForOne(style, cache, ids[1..], depth, if j > 0 then j - 1 else 0);
    } else {
      assert ids[1..] == [];
    }
  }

  /** Forwards that are all cached are rendered one for one. */
  lemma RenderedOneForOne(style: Style, cache: Cache, m: Msg, depth: nat, j: nat)
    requires forall i :: 0 <= i < |m.forwards| ==> m.forwards[i].Some? && m.forwards[i].value in cache
    requires j < |m.forwards| && depth > 0 && (style.Legacy? ==> !m.deleted)
    ensures var v := Render(style, cache, m, depth);
            && v.msg == m && |v.fwds| == |m.forwards|
            && v.fwds[j] == Render(style, cache, cache[m.forwards[j].value], depth - 1)
  {
    EachOneForOne(style, cache, m.forwards, depth - 1, j);
  }

  /** Levels of nesting below the message itself. */
  function Height(v: View): nat {
    Max(if v.reply.Some? then 1 + Height(v.reply.value) else 0, ListHeight(v.fwds))
  }

  function ListHeight(vs: seq<View>): nat {
    if vs == [] then 0 else Max(1 + Height(vs[0]), ListHeight(vs[1..]))
  }

  lemma {:induction false} RenderHeight(style: Style, cache: Cache, m: Msg, depth: nat)
    ensures Height(Render(style, cache, m, depth)) <= depth
    decreases depth, 1
  {
    if depth > 0 {
      RenderEachHeight(style, cache, m.forwards, depth - 1);
      if m.replyTo.Some? && m.replyTo.value in cache {
        var reply := Render(style, cache, cache[m.replyTo.value], depth - 1);
        RenderHeight(style, cache, cache[m.replyTo.value], depth - 1);
        assert ListHeight([reply]) == 1 + Height(reply);
      }
    }
  }

  lemma {:induction false} RenderEachHeight(style: Style, cache: Cache, ids: seq<Option<nat>>, depth: nat)
    ensures ListHeight(RenderEach(style, cache, ids, depth)) <= depth + 1
    decreases depth, 2, |ids|
  {
    if ids != [] {
      RenderEachHeight(style, cache, ids[1..], depth);
      if ids[0].Some? && ids[0].value in cache {
        var v, rest := Render(style, cache, cache[ids[0].value], depth), RenderEach(style, cache, ids[1..], depth);
        RenderHeight(style, cache, cache[ids[0].value], depth);
        assert ([v] + rest)[1..] == rest;
      }
    }
  }

  // ---------------------------------------------------------------------------
  // What rendering reaches

  /** The numbers the preload asks for. */
  predicate Points(m: Msg, k: nat) {
    k > 0 && (m.replyTo == Some(k) || Some(k) in m.forwards)
  }

  /** The numbers a renderer follows. */
  predicate Follows(style: Style, m: Msg, k: nat) {
    && k > 0
    && match style
       case Modern => m.replyTo == Some(k) || Some(k) in m.forwards
       case Legacy => !m.deleted && if m.forwards != [] then Some(k) in m.forwards else m.replyTo == Some(k)
  }

  predicate Leads(style: Style, m: Msg, n: Msg) {
    Follows(style, m, n.id) || (n.localId > 0 && Follows(style, m, n.localId))
  }

  /** m is a stored message at most d references away from the initial ones. */
  ghost predicate Within(style: Style, store: seq<Msg>, initial: seq<Msg>, d: nat, m: Msg) {
    if d == 0 then m in initial
    else
      || Within(style, store, initial, d - 1, m)
      || (m in store && exists p :: Within(style, store, initial, d - 1, p) && Leads(style, p, m))
  }

  lemma WithinNext(style: Style, store: seq<Msg>, initial: seq<Msg>, d: nat, p: Msg, k: nat, n: Msg)
    requires Within(style, store, initial, d, p) && Follows(style, p, k) && HasKey(n, k) && n in store
    ensures Within(style, store, initial, d + 1, n)
  {
    assert Leads(style, p, n);
  }

  /** At most one row goes by number k. */
  ghost predicate OneNamed(store: seq<Msg>, k: nat) {
    forall m, n :: m in store && n in store && HasKey(m, k) && HasKey(n, k) ==> m == n
  }

  /** No number that rendering follows, less than d references away, leads to two rows. */
  ghost predicate Clear(style: Style, store: seq<Msg>, initial: seq<Msg>, d: nat) {
    forall i: nat, p, k :: i < d && Within(style, store, initial, i, p) && Follows(style, p, k) ==> OneNamed(store, k)
  }

  // ---------------------------------------------------------------------------
  // Caches

  /** Every cached number leads to a stored row that goes by it. */
  ghost predicate Sound(store: seq<Msg>, cache: Cache) {
    forall k :: k in cache ==> cache[k] in store && HasKey(cache[k], k)
  }

  /** Every number m points at that leads anywhere is cached. */
  ghost predicate Resolved(store: seq<Msg>, cache: Cache, m: Msg) {
    forall n, k :: n in store && Points(m, k) && HasKey(n, k) ==> k in cache
  }

  /** The cache holds whatever rendering follows less than d references away. */
  ghost predicate Preloaded(style: Style, store: seq<Msg>, initial: seq<Msg>, d: nat, cache: Cache) {
    Sound(store, cache)
    && forall i: nat, p :: i < d && Within(style, store, initial, i, p) ==> Resolved(store, cache, p)
  }

  lemma {:induction false} SelectSpec(store: seq<Msg>, ids: set<nat>)
    ensures forall m :: m in Select(store, ids) <==> m in store && (m.id in ids || m.localId in ids)
  {
    if store != [] {
      SelectSpec(store[..|store| - 1], ids);
      assert store == store[..|store| - 1] + [store[|store| - 1]];
    }
  }

  lemma {:induction false} AddAllKeys(cache: Cache, msgs: seq<Msg>)
    ensures forall k :: k in cache ==> k in AddAll(cache, msgs)
    ensures forall m, k :: m in msgs && HasKey(m, k) ==> k in AddAll(cache, msgs)
  {
    if msgs != [] {
      AddAllKeys(cache, msgs[..|msgs| - 1]);
      assert msgs == msgs[..|msgs| - 1] + [msgs[|msgs| - 1]];
    }
  }

  lemma AddMsgValue(cache: Cache, m: Msg, k: nat)
    requires k in AddMsg(cache, m)
    ensures if HasKey(m, k) then AddMsg(cache, m)[k] == m else k in cache && AddMsg(cache, m)[k] == cache[k]
  {
  }

  lemma {:induction false} AddAllValues(cache: Cache, msgs: seq<Msg>, k: nat)
    requires k in AddAll(cache, msgs)
    ensures var m := AddAll(cache, msgs)[k];
            (k in cache && m == cache[k]) || (m in msgs && HasKey(m, k))
  {
    if msgs != [] {
      var front, last := msgs[..|msgs| - 1], msgs[|msgs| - 1];
      AddMsgValue(AddAll(cache, front), last, k);
      if !HasKey(last, k) {
        AddAllValues(cache, front, k);
        assert AddAll(cache, front)[k] in front ==> AddAll(cache, front)[k] in msgs;
      }
    }
  }

  lemma AddAllSound(store: seq<Msg>, cache: Cache, msgs: seq<Msg>)
    requires Sound(store, cache)
    requires forall m :: m in msgs ==> m in store
    ensures Sound(store, AddAll(cache, msgs))
  {
    forall k | k in AddAll(cache, msgs)
      ensures AddAll(cache, msgs)[k] in store && HasKey(AddAll(cache, msgs)[k], k)
    {
      AddAllValues(cache, msgs, k);
    }
  }

  // ---------------------------------------------------------------------------
  // The preload

  /** The ids one round has to ask for. */
  ghost predicate Asks(batch: seq<Msg>, cache: Cache, k: nat) {
    k !in cache && exists m :: m in batch && Points(m, k)
  }

  function Needed(batch: seq<Msg>, cache: Cache): set<nat> {
    (set m | m in batch && m.replyTo.Some? && Points(m, m.replyTo.value) && m.replyTo.value !in cache ::
       m.replyTo.value)
    + (set m, o | m in batch && o in m.forwards && o.Some? && Points(m, o.value) && o.value !in cache :: o.value)
  }

  lemma NeededAsks(batch: seq<Msg>, cache: Cache)
    ensures forall k :: k in Needed(batch, cache) <==> Asks(batch, cache, k)
  {
    forall k | Asks(batch, cache, k)
      ensures k in Needed(batch, cache)
    {
      var m :| m in batch && Points(m, k);
      assert m.replyTo == Some(k) || (Some(k) in m.forwards && Some(k).Some?);
    }
  }

  /** Up to `rounds` queries, each for what the last batch points at and the cache lacks. */
  function Rounds(store: seq<Msg>, batch: seq<Msg>, cache: Cache, rounds: nat): Cache
    decreases rounds
  {
    var found := Select(store, Needed(batch, cache));
    if rounds == 0 || found == [] then cache else Rounds(store, found, AddAll(cache, found), rounds - 1)
  }

  function Preload(store: seq<Msg>, initial: seq<Msg>, maxDepth: nat): Cache {
    if initial == [] || maxDepth == 0 then map[] else Rounds(store, initial, AddAll(map[], initial), maxDepth)
  }

  lemma AsksSnoc(batch: seq<Msg>, m: Msg, cache: Cache, k: nat)
    ensures Asks(batch + [m], cache, k) <==> Asks(batch, cache, k) || (k !in cache && Points(m, k))
  {
    if k !in cache && Points(m, k) {
      assert m in batch + [m];
    }
    if Asks(batch, cache, k) {
      var n :| n in batch && Points(n, k);
      assert n in batch + [m];
    }
  }

  method NeededIDs(batch: seq<Msg>, cache: Cache) returns (neededIDs: seq<nat>, neededSet: set<nat>)
    ensures neededSet == Needed(batch, cache)
    ensures neededSet == set k | k in neededIDs
  {
    neededIDs, neededSet := [], {};
    for i := 0 to |batch|
      invariant forall k :: k in neededSet <==> Asks(batch[..i], cache, k)
      invariant neededSet == set k | k in neededIDs
    {
      var m := batch[i];
      assert batch[..i + 1] == batch[..i] + [m];
      ghost var before := neededSet;
      if m.replyTo.Some? && m.replyTo.value > 0 {
        var k := m.replyTo.value;
        if k !in cache && k !in neededSet {
          neededSet := neededSet + {k};
          neededIDs := neededIDs + [k];
        }
      }
      for j := 0 to |m.forwards|
        invariant forall k :: k in neededSet <==>
                    k in before || (k > 0 && k !in cache && (m.replyTo == Some(k) || Some(k) in m.forwards[..j]))
        invariant neededSet == set k | k in neededIDs
      {
        assert m.forwards[..j + 1] == m.forwards[..j] + [m.forwards[j]];
        if m.forwards[j].None? || m.forwards[j].value == 0 {
          continue;
        }
        var k := m.forwards[j].value;
        if k !in cache && k !in neededSet {
          neededSet := neededSet + {k};
          neededIDs := neededIDs + [k];
        }
      }
      assert m.forwards[..|m.forwards|] == m.forwards;
      forall k ensures k in neededSet <==> Asks(batch[..i + 1], cache, k) {
        AsksSnoc(batch[..i], m, cache, k);
      }
    }
    assert batch[..|batch|] == batch;
    NeededAsks(batch, cache);
  }

  lemma {:induction false} SelectNone(store: seq<Msg>)
    ensures Select(store, {}) == []
  {
    if store != [] {
      SelectNone(store[..|store| - 1]);
    }
  }

  lemma OneRound(store: seq<Msg>, batch: seq<Msg>, cache: Cache, rounds: nat)
    requires rounds > 0
    ensures var found := Select(store, Needed(batch, cache));
            Rounds(store, batch, cache, rounds)
            == if found == [] then cache else Rounds(store, found, AddAll(cache, found), rounds - 1)
  {
  }

  method PreloadNestedMessages(store: seq<Msg>, initialMsgs: seq<Msg>, maxDepth: nat) returns (cache: Cache)
    ensures cache == Preload(store, initialMsgs, maxDepth)
  {
    ghost var result := Preload(store, initialMsgs, maxDepth);
    cache := map[];
    if |initialMsgs| == 0 || maxDepth == 0 {
      return;
    }
    cache := AddAll(cache, initialMsgs);
    var currentBatch := initialMsgs;
    for d := 0 to maxDepth
      invariant result == Rounds(store, currentBatch, cache, maxDepth - d)
    {
      OneRound(store, currentBatch, cache, maxDepth - d);
      var neededIDs, neededSet := NeededIDs(currentBatch, cache);
      if |neededIDs| == 0 {
        assert neededSet == {};
        SelectNone(store);
        return;
      }
      var foundMsgs := Select(store, neededSet);
      if |foundMsgs| == 0 {
        return;
      }
      currentBatch := foundMsgs;
      cache := AddAll(cache, foundMsgs);
    }
  }

  // ---------------------------------------------------------------------------
  // What the rounds keep

  /** Between rounds: only the messages of the last batch may still point outside the cache. */
  ghost predicate BatchOk(store: seq<Msg>, cache: Cache, batch: seq<Msg>) {
    && Sound(store, cache)
    && (forall m :: m in batch ==> m in store)
    && (forall k :: k in cache ==> cache[k] in batch || Resolved(store, cache, cache[k]))
  }

  /** After d rounds: what is at most d references away is in the batch or fully cached. */
  ghost predicate ReachOk(style: Style, store: seq<Msg>, initial: seq<Msg>, d: nat, cache: Cache, batch: seq<Msg>) {
    && (forall i: nat, p :: i < d && Within(style, store, initial, i, p) ==> Resolved(store, cache, p))
    && (forall p :: Within(style, store, initial, d, p) ==> p in batch || Resolved(store, cache, p))
  }

  /** What a round knows: the ids asked for, and the rows found. */
  ghost predicate Asked(store: seq<Msg>, cache: Cache, batch: seq<Msg>, found: seq<Msg>) {
    forall m :: m in found <==> m in store && exists k :: Asks(batch, cache, k) && HasKey(m, k)
  }

  lemma SelectAsked(store: seq<Msg>, cache: Cache, batch: seq<Msg>)
    ensures Asked(store, cache, batch, Select(store, Needed(batch, cache)))
  {
    var needed := Needed(batch, cache);
    NeededAsks(batch, cache);
    SelectSpec(store, needed);
    forall m | m in store
      ensures (m.id in needed || m.localId in needed) <==> exists k :: Asks(batch, cache, k) && HasKey(m, k)
    {
      if m.id in needed {
        assert Asks(batch, cache, m.id) && HasKey(m, m.id);
      } else if m.localId in needed {
        assert Asks(batch, cache, m.localId) && HasKey(m, m.localId);
      }
    }
  }

  lemma ResolvedGrows(store: seq<Msg>, cache: Cache, msgs: seq<Msg>, m: Msg)
    requires Resolved(store, cache, m)
    ensures Resolved(store, AddAll(cache, msgs), m)
  {
    AddAllKeys(cache, msgs);
  }

  /** A round resolves the batch it started from. */
  lemma BatchResolved(store: seq<Msg>, cache: Cache, batch: seq<Msg>, found: seq<Msg>, m: Msg)
    requires Asked(store, cache, batch, found) && m in batch
    ensures Resolved(store, AddAll(cache, found), m)
  {
    AddAllKeys(cache, found);
    forall n, k | n in store && Points(m, k) && HasKey(n, k)
      ensures k in AddAll(cache, found)
    {
      if k !in cache {
        assert Asks(batch, cache, k);
      }
    }
  }

  lemma BatchStep(store: seq<Msg>, cache: Cache, batch: seq<Msg>, found: seq<Msg>)
    requires BatchOk(store, cache, batch) && Asked(store, cache, batch, found)
    ensures BatchOk(store, AddAll(cache, found), found)
  {
    var next := AddAll(cache, found);
    AddAllSound(store, cache, found);
    forall k | k in next
      ensures next[k] in found || Resolved(store, next, next[k])
    {
      AddAllValues(cache, found, k);
      if next[k] !in found {
        SettledAfter(store, cache, batch, found, next[k]);
      }
    }
  }

  lemma SettledAfter(store: seq<Msg>, cache: Cache, batch: seq<Msg>, found: seq<Msg>, m: Msg)
    requires Asked(store, cache, batch, found)
    requires m in batch || Resolved(store, cache, m)
    ensures Resolved(store, AddAll(cache, found), m)
  {
    if m in batch {
      BatchResolved(store, cache, batch, found, m);
    } else {
      ResolvedGrows(store, cache, found, m);
    }
  }

  /** One reference further: the row is already resolved, or the round has just found it. */
  lemma NextReached(
    style: Style, store: seq<Msg>, cache: Cache, batch: seq<Msg>, found: seq<Msg>, p: Msg, k: nat, n: Msg)
    requires BatchOk(store, cache, batch) && Asked(store, cache, batch, found) && OneNamed(store, k)
    requires p in batch || Resolved(store, cache, p)
    requires Follows(style, p, k) && HasKey(n, k) && n in store
    ensures n in found || Resolved(store, AddAll(cache, found), n)
  {
    if k in cache {
      assert cache[k] == n;
      SettledAfter(store, cache, batch, found, n);
    } else {
      assert Points(p, k);
      assert Asks(batch, cache, k);
    }
  }

  lemma ReachStep(
    style: Style, store: seq<Msg>, initial: seq<Msg>, d: nat, max: nat,
    cache: Cache, batch: seq<Msg>, found: seq<Msg>)
    requires BatchOk(store, cache, batch) && Asked(store, cache, batch, found)
    requires Clear(style, store, initial, max) && d < max
    requires ReachOk(style, store, initial, d, cache, batch)
    ensures ReachOk(style, store, initial, d + 1, AddAll(cache, found), found)
  {
    var next := AddAll(cache, found);
    forall i: nat, p | i < d + 1 && Within(style, store, initial, i, p)
      ensures Resolved(store, next, p)
    {
      SettledAfter(store, cache, batch, found, p);
    }
    forall n | Within(style, store, initial, d + 1, n)
      ensures n in found || Resolved(store, next, n)
    {
      if !Within(style, store, initial, d, n) {
        var p :| Within(style, store, initial, d, p) && Leads(style, p, n);
        var k := if Follows(style, p, n.id) then n.id else n.localId;
        NextReached(style, store, cache, batch, found, p, k, n);
      }
    }
  }

  /** A round that finds nothing has reached everything there is. */
  lemma {:induction false} NothingNew(
    style: Style, store: seq<Msg>, initial: seq<Msg>, d: nat, max: nat, cache: Cache, batch: seq<Msg>)
    requires BatchOk(store, cache, batch) && Asked(store, cache, batch, [])
    requires Clear(style, store, initial, max) && d <= max
    requires ReachOk(style, store, initial, d, cache, batch)
    ensures ReachOk(style, store, initial, max, cache, [])
    decreases max - d
  {
    assert AddAll(cache, []) == cache;
    if d < max {
      ReachStep(style, store, initial, d, max, cache, batch, []);
      BatchStep(store, cache, batch, []);
      NothingNew(style, store, initial, d + 1, max, cache, []);
    } else {
      forall p | Within(style, store, initial, d, p)
        ensures Resolved(store, cache, p)
      {
        SettledAfter(store, cache, batch, [], p);
      }
    }
  }

  lemma StartOk(store: seq<Msg>, initial: seq<Msg>)
    requires forall m :: m in initial ==> m in store
    ensures BatchOk(store, AddAll(map[], initial), initial)
    ensures forall style :: ReachOk(style, store, initial, 0, AddAll(map[], initial), initial)
  {
    AddAllSound(store, map[], initial);
    forall k | k in AddAll(map[], initial)
      ensures AddAll(map[], initial)[k] in initial
    {
      AddAllValues(map[], initial, k);
    }
  }

  /** The cache and the last batch between two rounds. */
  datatype Round = Round(cache: Cache, batch: seq<Msg>)

  /** Everything known between rounds. */
  ghost predicate RoundOk(style: Style, store: seq<Msg>, initial: seq<Msg>, d: nat, r: Round) {
    match r
    case Round(cache, batch) => BatchOk(store, cache, batch) && ReachOk(style, store, initial, d, cache, batch)
  }

  function NextRound(store: seq<Msg>, r: Round): Round {
    var found := Select(store, Needed(r.batch, r.cache));
    Round(AddAll(r.cache, found), found)
  }

  lemma RoundStep(style: Style, store: seq<Msg>, initial: seq<Msg>, d: nat, max: nat, r: Round)
    requires RoundOk(style, store, initial, d, r)
    requires Clear(style, store, initial, max) && d < max
    ensures RoundOk(style, store, initial, d + 1, NextRound(store, r))
  {
    var found := Select(store, Needed(r.batch, r.cache));
    SelectAsked(store, r.cache, r.batch);
    BatchStep(store, r.cache, r.batch, found);
    ReachStep(style, store, initial, d, max, r.cache, r.batch, found);
  }

  lemma RoundStop(style: Style, store: seq<Msg>, initial: seq<Msg>, d: nat, max: nat, r: Round)
    requires RoundOk(style, store, initial, d, r)
    requires Clear(style, store, initial, max) && d <= max
    requires d == max || NextRound(store, r).batch == []
    ensures Preloaded(style, store, initial, max, r.cache)
  {
    if d < max {
      SelectAsked(store, r.cache, r.batch);
      NothingNew(style, store, initial, d, max, r.cache, r.batch);
    }
  }

  lemma {:induction false} RoundsReach(
    style: Style, store: seq<Msg>, initial: seq<Msg>, d: nat, max: nat, r: Round, result: Cache)
    requires RoundOk(style, store, initial, d, r)
    requires Clear(style, store, initial, max) && d <= max
    requires result == Rounds(store, r.batch, r.cache, max - d)
    ensures Preloaded(style, store, initial, max, result)
    decreases max - d
  {
    var next := NextRound(store, r);
    if d == max || next.batch == [] {
      RoundStop(style, store, initial, d, max, r);
    } else {
      RoundStep(style, store, initial, d, max, r);
      OneRound(store, r.batch, r.cache, max - d);
      RoundsReach(style, store, initial, d + 1, max, next, result);
    }
  }

  lemma {:induction false} NothingWithin(style: Style, store: seq<Msg>, d: nat)
    ensures forall m :: !Within(style, store, [], d, m)
  {
    if d > 0 {
      NothingWithin(style, store, d - 1);
    }
  }

  /** The preload caches whatever a renderer reaches, if that is clear. */
  lemma PreloadReaches(style: Style, store: seq<Msg>, initial: seq<Msg>, d: nat)
    requires forall m :: m in initial ==> m in store
    requires Clear(style, store, initial, d)
    ensures Preloaded(style, store, initial, d, Preload(store, initial, d))
  {
    if initial == [] {
      forall i: nat, p ensures !Within(style, store, initial, i, p) {
        NothingWithin(style, store, i);
      }
    } else if d > 0 {
      StartOk(store, initial);
      RoundsReach(style, store, initial, 0, d, Round(AddAll(map[], initial), initial), Preload(store, initial, d));
    }
  }

  // ---------------------------------------------------------------------------
  // Rendering from one sufficient cache is rendering from another

  lemma IndexPreloaded(style: Style, store: seq<Msg>, other: seq<Msg>, initial: seq<Msg>, d: nat)
    requires forall m :: m in store <==> m in other
    ensures Preloaded(style, store, initial, d, Index(other))
  {
    AddAllKeys(map[], other);
    AddAllSound(store, map[], other);
  }

  /** A number that rendering follows within reach is resolved alike by both caches. */
  lemma SameTarget(style: Style, store: seq<Msg>, initial: seq<Msg>, d: nat, a: Cache, b: Cache, m: Msg, i: nat, k: nat)
    requires Clear(style, store, initial, d)
    requires Preloaded(style, store, initial, d, a) && Preloaded(style, store, initial, d, b)
    requires Within(style, store, initial, i, m) && i < d && Follows(style, m, k)
    ensures k in a <==> k in b
    ensures k in a ==> a[k] == b[k] && Within(style, store, initial, i + 1, a[k])
  {
    assert Points(m, k);
    if k in a {
      WithinNext(style, store, initial, i, m, k, a[k]);
    }
  }

  lemma {:induction false} RenderSame(
    style: Style, store: seq<Msg>, initial: seq<Msg>, d: nat, a: Cache, b: Cache, m: Msg, i: nat, depth: nat)
    requires RowIdsPositive(store) && Clear(style, store, initial, d)
    requires Preloaded(style, store, initial, d, a) && Preloaded(style, store, initial, d, b)
    requires Within(style, store, initial, i, m) && i + depth <= d
    ensures Render(style, a, m, depth) == Render(style, b, m, depth)
    decreases depth, 1
  {
    if depth > 0 && (style.Modern? || !m.deleted) {
      if style.Modern? || m.forwards != [] {
        RenderEachSame(style, store, initial, d, a, b, m, m.forwards, i, depth - 1);
      }
      if m.replyTo.Some? && m.replyTo.value > 0 && (style.Modern? || m.forwards == []) {
        SameTarget(style, store, initial, d, a, b, m, i, m.replyTo.value);
        if m.replyTo.value in a {
          RenderSame(style, store, initial, d, a, b, a[m.replyTo.value], i + 1, depth - 1);
        }
      }
    }
  }

  lemma {:induction false} RenderEachSame(
    style: Style, store: seq<Msg>, initial: seq<Msg>, d: nat, a: Cache, b: Cache, m: Msg,
    ids: seq<Option<nat>>, i: nat, depth: nat)
    requires RowIdsPositive(store) && Clear(style, store, initial, d)
    requires Preloaded(style, store, initial, d, a) && Preloaded(style, store, initial, d, b)
    requires Within(style, store, initial, i, m) && i + depth < d
    requires style.Modern? || !m.deleted
    requires forall o :: o in ids ==> o in m.forwards
    ensures RenderEach(style, a, ids, depth) == RenderEach(style, b, ids, depth)
    decreases depth, 2, |ids|
  {
    if ids != [] {
      RenderEachSame(style, store, initial, d, a, b, m, ids[1..], i, depth);
      assert ids[0] in ids;
      if ids[0].Some? && ids[0].value > 0 {
        SameTarget(style, store, initial, d, a, b, m, i, ids[0].value);
        if ids[0].value in a {
          RenderSame(style, store, initial, d, a, b, a[ids[0].value], i + 1, depth);
        }
      }
    }
  }

  /** Main result: d rounds of preload are enough to render any initial message to depth d. */
  lemma PreloadIsEnough(style: Style, store: seq<Msg>, initial: seq<Msg>, d: nat, m: Msg)
    requires RowIdsPositive(store) && forall n :: n in initial ==> n in store
    requires Clear(style, store, initial, d)
    requires m in initial
    ensures Render(style, Preload(store, initial, d), m, d) == Render(style, Index(store), m, d)
  {
    PreloadReaches(style, store, initial, d);
    IndexPreloaded(style, store, store, initial, d);
    RenderSame(style, store, initial, d, Preload(store, initial, d), Index(store), m, 0, d);
  }

  // ---------------------------------------------------------------------------
  // And only then

  /** From depth s on, the two caches render q differently. */
  ghost predicate Differs(style: Style, a: Cache, b: Cache, q: Msg, s: nat) {
    forall e: nat :: e >= s ==> Render(style, a, q, e) != Render(style, b, q, e)
  }

  lemma {:induction false} RenderEachDiffers(
    style: Style, a: Cache, b: Cache, ids: seq<Option<nat>>, k: nat, depth: nat)
    requires a.Keys == b.Keys && k in a && Some(k) in ids
    requires Render(style, a, a[k], depth) != Render(style, b, b[k], depth)
    ensures RenderEach(style, a, ids, depth) != RenderEach(style, b, ids, depth)
  {
    var va, vb := RenderEach(style, a, ids, depth), RenderEach(style, b, ids, depth);
    var ra, rb := RenderEach(style, a, ids[1..], depth), RenderEach(style, b, ids[1..], depth);
    if ids[0] == Some(k) {
      assert va[0] != vb[0];
    } else {
      RenderEachDiffers(style, a, b, ids[1..], k, depth);
      if ids[0].Some? && ids[0].value in a {
        assert va[1..] == ra && vb[1..] == rb;
      }
    }
  }

  lemma FollowedDiffers(style: Style, a: Cache, b: Cache, p: Msg, k: nat, s: nat)
    requires a.Keys == b.Keys && k in a && Follows(style, p, k)
    requires forall e: nat :: e >= s ==> Render(style, a, a[k], e) != Render(style, b, b[k], e)
    ensures Differs(style, a, b, p, s + 1)
  {
    forall e: nat | e >= s + 1
      ensures Render(style, a, p, e) != Render(style, b, p, e)
    {
      assert Render(style, a, a[k], e - 1) != Render(style, b, b[k], e - 1);
      if Some(k) in p.forwards {
        RenderEachDiffers(style, a, b, p.forwards, k, e - 1);
      }
    }
  }

  /** Cache a holds every row of the store under every number it goes by, up to clashes. */
  ghost predicate Full(store: seq<Msg>, a: Cache) {
    Sound(store, a) && forall m, k :: m in store && HasKey(m, k) ==> k in a
  }

  lemma DiffersBefore(
    style: Style, store: seq<Msg>, initial: seq<Msg>, i: nat, a: Cache, b: Cache, p: Msg, q: Msg, s: nat)
    requires Full(store, a) && Full(store, b) && a.Keys == b.Keys && q in store
    requires Clear(style, store, initial, i + 1) && Within(style, store, initial, i, p)
    requires Leads(style, p, q) && Differs(style, a, b, q, s)
    ensures Differs(style, a, b, p, s + 1)
  {
    var k := if Follows(style, p, q.id) then q.id else q.localId;
    assert OneNamed(store, k) && HasKey(q, k);
    assert a[k] == q && b[k] == q;
    FollowedDiffers(style, a, b, p, k, s);
  }

  lemma ClearLess(style: Style, store: seq<Msg>, initial: seq<Msg>, i: nat)
    requires Clear(style, store, initial, i + 1)
    ensures Clear(style, store, initial, i)
  {
  }

  lemma {:induction false} DiffersFromRoot(
    style: Style, store: seq<Msg>, initial: seq<Msg>, i: nat, a: Cache, b: Cache, q: Msg, s: nat) returns (root: Msg)
    requires Full(store, a) && Full(store, b) && a.Keys == b.Keys
    requires Clear(style, store, initial, i) && Within(style, store, initial, i, q) && Differs(style, a, b, q, s)
    ensures root in initial && Differs(style, a, b, root, s + i)
    decreases i
  {
    if i == 0 {
      root := q;
    } else {
      ClearLess(style, store, initial, i - 1);
      if Within(style, store, initial, i - 1, q) {
        root := DiffersFromRoot(style, store, initial, i - 1, a, b, q, s);
      } else {
        var p :| Within(style, store, initial, i - 1, p) && Leads(style, p, q);
        DiffersBefore(style, store, initial, i - 1, a, b, p, q, s);
        root := DiffersFromRoot(style, store, initial, i - 1, a, b, p, s + 1);
      }
    }
  }

  /** The nearest number that rendering follows to two rows. */
  lemma {:induction false} FirstClash(style: Style, store: seq<Msg>, initial: seq<Msg>, d: nat)
    returns (i: nat, p: Msg, k: nat)
    requires !Clear(style, store, initial, d)
    ensures i < d && Clear(style, store, initial, i)
    ensures Within(style, store, initial, i, p) && Follows(style, p, k) && !OneNamed(store, k)
  {
    if d > 0 && !Clear(style, store, initial, d - 1) {
      i, p, k := FirstClash(style, store, initial, d - 1);
    } else {
      i, p, k :| i < d && Within(style, store, initial, i, p) && Follows(style, p, k) && !OneNamed(store, k);
      assert Clear(style, store, initial, i);
    }
  }

  /** The same rows, with m coming last. */
  lemma MoveLast(store: seq<Msg>, m: Msg) returns (other: seq<Msg>)
    requires m in store
    ensures multiset(other) == multiset(store) && other != [] && other[|other| - 1] == m
  {
    var j :| 0 <= j < |store| && store[j] == m;
    var front, back := store[..j], store[j + 1..];
    assert store == front + [m] + back;
    other := front + back + [m];
  }

  lemma IndexFull(store: seq<Msg>, other: seq<Msg>)
    requires multiset(other) == multiset(store)
    ensures Full(store, Index(other))
    ensures forall k :: k in Index(other) <==> exists m :: m in store && HasKey(m, k)
  {
    forall m ensures m in store <==> m in other {
      assert m in multiset(store) <==> m in multiset(other);
    }
    AddAllKeys(map[], other);
    AddAllSound(store, map[], other);
  }

  /** Rendering comes out the same in whatever order the rows are read. */
  ghost predicate Settled(style: Style, store: seq<Msg>, initial: seq<Msg>, d: nat, cache: Cache) {
    forall m, other :: m in initial && multiset(other) == multiset(store) ==>
      Render(style, cache, m, d) == Render(style, Index(other), m, d)
  }

  /** Two orders of the rows under which p renders differently. */
  lemma ClashDiffers(style: Style, store: seq<Msg>, p: Msg, k: nat) returns (a: seq<Msg>, b: seq<Msg>)
    requires Follows(style, p, k) && !OneNamed(store, k)
    ensures multiset(a) == multiset(store) && multiset(b) == multiset(store)
    ensures Differs(style, Index(a), Index(b), p, 1)
  {
    var m, n :| m in store && n in store && HasKey(m, k) && HasKey(n, k) && m != n;
    a := MoveLast(store, m);
    b := MoveLast(store, n);
    SameKeys(store, a, b);
    assert Index(a)[k] == m && Index(b)[k] == n;
    forall e: nat ensures Render(style, Index(a), m, e) != Render(style, Index(b), n, e) {
      RenderKeepsMsg(style, Index(a), m, e);
      RenderKeepsMsg(style, Index(b), n, e);
    }
    FollowedDiffers(style, Index(a), Index(b), p, k, 0);
  }

  lemma SameKeys(store: seq<Msg>, a: seq<Msg>, b: seq<Msg>)
    requires multiset(a) == multiset(store) && multiset(b) == multiset(store)
    ensures Full(store, Index(a)) && Full(store, Index(b)) && Index(a).Keys == Index(b).Keys
  {
    IndexFull(store, a);
    IndexFull(store, b);
  }

  lemma ClashUnsettles(style: Style, store: seq<Msg>, initial: seq<Msg>, d: nat, cache: Cache)
    requires !Clear(style, store, initial, d)
    ensures !Settled(style, store, initial, d, cache)
  {
    var i, p, k := FirstClash(style, store, initial, d);
    var a, b := ClashDiffers(style, store, p, k);
    SameKeys(store, a, b);
    var root := DiffersFromRoot(style, store, initial, i, Index(a), Index(b), p, 1);
    assert Render(style, Index(a), root, d) != Render(style, Index(b), root, d);
  }

  /**
   Exactly when: rendering every initial message from the preloaded cache is rendering it
   from the whole store, in whatever order the rows are read, if and only if no number
   that rendering follows on the way leads to two rows.
   */
  lemma PreloadIsExact(style: Style, store: seq<Msg>, initial: seq<Msg>, d: nat)
    requires RowIdsPositive(store) && forall n :: n in initial ==> n in store
    ensures Settled(style, store, initial, d, Preload(store, initial, d)) <==> Clear(style, store, initial, d)
  {
    var cache := Preload(store, initial, d);
    if Clear(style, store, initial, d) {
      PreloadReaches(style, store, initial, d);
      forall m, other | m in initial && multiset(other) == multiset(store)
        ensures Render(style, cache, m, d) == Render(style, Index(other), m, d)
      {
        forall x ensures x in store <==> x in other {
          assert x in multiset(store) <==> x in multiset(other);
        }
        IndexPreloaded(style, store, other, initial, d);
        RenderSame(style, store, initial, d, cache, Index(other), m, 0, d);
      }
    } else {
      ClashUnsettles(style, store, initial, d, cache);
    }
  }

  /** The tree is never higher than the depth, clashes and reference cycles included. */
  lemma PreloadedHeight(style: Style, store: seq<Msg>, initial: seq<Msg>, d: nat, m: Msg)
    ensures Height(Render(style, Preload(store, initial, d), m, d)) <= d
  {
    RenderHeight(style, Preload(store, initial, d), m, d);
  }

  /**
   A clash: the second message of chat c1 replies to the first, and what is rendered
   under it is the first message of chat c2.
   */
  lemma ReplyFromAnotherChat() returns (store: seq<Msg>, m: Msg)
    ensures RowIdsPositive(store) && m in store && m.chatId == "c1"
    ensures exists n :: n in store && n.chatId == m.chatId && m.replyTo == Some(n.localId) == Some(n.id)
    ensures forall style :: !Clear(style, store, [m], 1)
    ensures var v := Render(Modern, Preload(store, [m], 1), m, 1);
            v.reply.Some? && v.reply.value.msg in store && v.reply.value.msg.chatId == "c2"
  {
    var first, foreign := Msg(1, 1, "c1", None, [], false, ""), Msg(2, 1, "c2", None, [], false, "");
    m := Msg(3, 2, "c1", Some(1), [], false, "");
    store := [first, foreign, m];
    ClashPreload(first, foreign, m);
    forall style ensures !Clear(style, store, [m], 1) {
      assert Within(style, store, [m], 0, m) && Follows(style, m, 1);
      assert first in store && foreign in store && HasKey(first, 1) && HasKey(foreign, 1);
    }
  }

  lemma ClashPreload(first: Msg, foreign: Msg, m: Msg)
    requires first.id == first.localId == foreign.localId == 1 && foreign.id == 2
    requires m.id == 3 && m.localId == 2 && m.replyTo == Some(1) && m.forwards == []
    ensures var cache := Preload([first, foreign, m], [m], 1);
            1 in cache && cache[1] == foreign
  {
    var store, start := [first, foreign, m], AddAll(map[], [m]);
    AddOne(map[], m);
    ClashNeeded(m, start);
    ClashSelect(first, foreign, m);
    RoundsOnce(store, [m], start);
    assert [first, foreign][..|[first, foreign]| - 1] == [first];
    assert AddAll(start, [first, foreign]) == AddMsg(AddAll(start, [first]), foreign);
  }

  lemma ClashNeeded(m: Msg, cache: Cache)
    requires m.replyTo == Some(1) && m.forwards == [] && 1 !in cache
    ensures Needed([m], cache) == {1}
  {
    NeededAsks([m], cache);
    assert Points(m, 1) && m in [m];
    forall k ensures k in Needed([m], cache) <==> k == 1 {
    }
  }

  lemma ClashSelect(first: Msg, foreign: Msg, m: Msg)
    requires first.id == foreign.localId == 1 && m.id != 1 && m.localId != 1
    ensures Select([first, foreign, m], {1}) == [first, foreign]
  {
    var store := [first, foreign, m];
    assert store[..|store| - 1] == [first, foreign];
    assert [first, foreign][..|[first, foreign]| - 1] == [first] && [first][..|[first]| - 1] == [];
    assert Select([first], {1}) == [first];
    assert Select([first, foreign], {1}) == [first, foreign];
  }

  lemma AddOne(cache: Cache, m: Msg)
    ensures AddAll(cache, [m]) == AddMsg(cache, m)
  {
    assert [m][..|[m]| - 1] == [];
    assert AddAll(cache, []) == cache;
  }

  lemma RoundsOnce(store: seq<Msg>, batch: seq<Msg>, cache: Cache)
    ensures Rounds(store, batch, cache, 1) == AddAll(cache, Select(store, Needed(batch, cache)))
  {
  }

  lemma RenderBare(style: Style, cache: Cache, m: Msg, depth: nat)
    requires depth == 0 || (m.replyTo.None? && m.forwards == [])
    ensures Render(style, cache, m, depth) == View(m, None, [])
  {
    assert depth > 0 ==> RenderEach(style, cache, m.forwards, depth - 1) == [];
  }

  /** Rendering one message, with its shortcut for messages that point nowhere. */
  method ToVKApiStruct(store: seq<Msg>, m: Msg, depth: nat) returns (v: View)
    requires RowIdsPositive(store) && m in store
    ensures v == Render(Modern, Preload(store, [m], depth), m, depth)
    ensures Clear(Modern, store, [m], depth) ==> v == Render(Modern, Index(store), m, depth)
  {
    if depth == 0 || (m.replyTo.None? && m.forwards == []) {
      v := Render(Modern, map[], m, depth);
      RenderBare(Modern, map[], m, depth);
      RenderBare(Modern, Preload(store, [m], depth), m, depth);
      RenderBare(Modern, Index(store), m, depth);
    } else {
      var cache := PreloadNestedMessages(store, [m], depth);
      if Clear(Modern, store, [m], depth) {
        PreloadIsEnough(Modern, store, [m], depth, m);
      }
      v := Render(Modern, cache, m, depth);
    }
  }

  // ---------------------------------------------------------------------------
  // The legacy rendering of one message

  /** The legacy shortcut looks at the forwards alone: a message without any is rendered bare. */
  function LegacySingle(store: seq<Msg>, m: Msg, depth: nat): View {
    if depth == 0 || m.forwards == [] then View(m, None, [])
    else Render(Legacy, Preload(store, [m], depth), m, depth)
  }

  method ToVKApiStructLegacy(store: seq<Msg>, m: Msg, depth: nat) returns (v: View)
    ensures v == LegacySingle(store, m, depth)
  {
    if depth == 0 || m.forwards == [] {
      v := Render(Legacy, map[], m, depth);
    } else {
      var cache := PreloadNestedMessages(store, [m], depth);
      v := Render(Legacy, cache, m, depth);
    }
  }

  lemma {:induction false} RoundsKeys(store: seq<Msg>, batch: seq<Msg>, cache: Cache, rounds: nat)
    ensures forall k :: k in cache ==> k in Rounds(store, batch, cache, rounds)
    decreases rounds
  {
    var found := Select(store, Needed(batch, cache));
    if rounds > 0 && found != [] {
      AddAllKeys(cache, found);
      RoundsKeys(store, found, AddAll(cache, found), rounds - 1);
    }
  }

  lemma {:induction false} RoundsSound(store: seq<Msg>, batch: seq<Msg>, cache: Cache, rounds: nat)
    requires Sound(store, cache)
    ensures Sound(store, Rounds(store, batch, cache, rounds))
    decreases rounds
  {
    var found := Select(store, Needed(batch, cache));
    if rounds > 0 && found != [] {
      SelectSpec(store, Needed(batch, cache));
      AddAllSound(store, cache, found);
      RoundsSound(store, found, AddAll(cache, found), rounds - 1);
    }
  }

  lemma RootSound(store: seq<Msg>, m: Msg, depth: nat)
    requires m in store
    ensures Sound(store, Preload(store, [m], depth))
  {
    AddAllSound(store, map[], [m]);
    RoundsSound(store, [m], AddAll(map[], [m]), depth);
  }

  lemma RootResolved(store: seq<Msg>, m: Msg, depth: nat)
    requires m in store && depth > 0
    ensures Resolved(store, Preload(store, [m], depth), m)
  {
    var start := AddAll(map[], [m]);
    var found := Select(store, Needed([m], start));
    SelectAsked(store, start, [m]);
    assert m in [m];
    BatchResolved(store, start, [m], found, m);
    if found == [] {
      assert AddAll(start, found) == start;
      RoundsKeys(store, [m], start, depth);
    } else {
      RoundsKeys(store, found, AddAll(start, found), depth - 1);
    }
  }

  /** The preload caches a number its only initial message points at exactly when a row goes by it. */
  lemma RootTarget(store: seq<Msg>, m: Msg, depth: nat, k: nat)
    requires m in store && depth > 0 && Points(m, k)
    ensures k in Preload(store, [m], depth) <==> exists n :: n in store && HasKey(n, k)
  {
    RootSound(store, m, depth);
    RootResolved(store, m, depth);
  }

  /** A reply that rendering shows: there is depth for it, and no forwards stand in its place. */
  predicate ShowsReply(m: Msg, depth: nat) {
    depth > 0 && !m.deleted && m.forwards == [] && m.replyTo.Some? && m.replyTo.value > 0
  }

  /**
   Exactly when: the legacy rendering of one message is its rendering from the preload, as
   in a list of messages, if and only if it has no reply to show, or no row goes by the
   number it replies to.
   */
  lemma LegacySingleExactly(store: seq<Msg>, m: Msg, depth: nat)
    requires m in store
    ensures LegacySingle(store, m, depth) == Render(Legacy, Preload(store, [m], depth), m, depth)
            <==> (ShowsReply(m, depth) ==> forall n :: n in store ==> !HasKey(n, m.replyTo.value))
  {
    if ShowsReply(m, depth) {
      RootTarget(store, m, depth, m.replyTo.value);
    }
  }

  /** Two rows are enough: the second message replies to the first, and the reply is not rendered. */
  lemma LegacyDropsReply(depth: nat) returns (store: seq<Msg>, m: Msg)
    requires depth > 0
    ensures RowIdsPositive(store) && m in store && Clear(Legacy, store, [m], depth)
    ensures LegacySingle(store, m, depth).fwds == []
    ensures |Render(Legacy, Preload(store, [m], depth), m, depth).fwds| == 1
  {
    var first := Msg(1, 1, "c1", None, [], false, "");
    m := Msg(2, 2, "c1", Some(1), [], false, "");
    store := [first, m];
    assert first in store && HasKey(first, 1);
    RootTarget(store, m, depth, 1);
    assert forall k: nat :: OneNamed(store, k);
  }
}
