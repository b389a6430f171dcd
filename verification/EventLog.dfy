/**
 The long-poll event log of one user: a counter and a sorted set of stored
 events, bounded to the newest 200 (src/repo/redis/longpoll.go).

 A Redis sorted set is kept as its members in ascending order of score, which is
 the order ZRANGE reports.  Every score is a fresh value of the counter, so no two
 members tie (lemma ZAddKeepsOrder).
 */
module EventLog {
  import opened Wrappers

  const LOG_CAP: nat := 200

  /** The type tag of a stored event, and whether the event registry can decode it. */
  datatype Kind = Registered(name: string) | Unregistered(name: string)

  /** The stored payload: it is also the key of the sorted set. */
  datatype Event = Event(kind: Kind, data: nat)

  predicate Known(e: Event) {
    e.kind.Registered?
  }

  datatype Entry = Entry(member: Event, score: nat)

  type ZSet = seq<Entry>

  ghost predicate Ordered(z: ZSet) {
    forall i, j :: 0 <= i < j < |z| ==> z[i].score < z[j].score
  }

  ghost predicate DistinctMembers(z: ZSet) {
    forall i, j :: 0 <= i < j < |z| ==> z[i].member != z[j].member
  }

  /** ZREM: the set without `m`. */
  function ZRem(z: ZSet, m: Event): ZSet {
    if z == [] then []
    else (if z[0].member == m then [] else [z[0]]) + ZRem(z[1..], m)
  }

  /** Puts `x` where its score belongs. */
  function Insert(z: ZSet, x: Entry): ZSet {
    if z == [] then [x]
    else if x.score < z[0].score then [x] + z
    else [z[0]] + Insert(z[1..], x)
  }

  /** ZADD: an existing member moves to its new score. */
  function ZAdd(z: ZSet, m: Event, score: nat): ZSet {
    Insert(ZRem(z, m), Entry(m, score))
  }

  /** ZREMRANGEBYRANK key 0 -(n+1): only the n highest scores stay. */
  function TrimTo(z: ZSet, n: nat): ZSet {
    if |z| <= n then z else z[|z| - n..]
  }

  /** ZRANGEBYSCORE key (ts +inf. */
  function RangeAbove(z: ZSet, ts: nat): ZSet {
    if z == [] then []
    else (if z[0].score > ts then [z[0]] else []) + RangeAbove(z[1..], ts)
  }

  /** The counter and the sorted set of one user. */
  datatype Log = Log(ts: nat, entries: ZSet)

  function Push(l: Log, e: Event): Log {
    Log(l.ts + 1, TrimTo(ZAdd(l.entries, e, l.ts + 1), LOG_CAP))
  }

  /** GetLongPollServer starts the counter of a user who has none. */
  function OpenServer(l: Log): Log {
    if l.ts == 0 then Log(1, l.entries) else l
  }

  predicate IsTooOld(l: Log, cursor: nat) {
    l.entries != [] && cursor + 1 < l.entries[0].score
  }

  /** The entries a poll hands to the client: decodable ones above the cursor. */
  function Delivered(l: Log, cursor: nat): ZSet {
    KnownOnly(RangeAbove(l.entries, cursor))
  }

  function KnownOnly(z: ZSet): ZSet {
    if z == [] then []
    else KnownOnly(z[..|z| - 1]) + (if Known(z[|z| - 1].member) then [z[|z| - 1]] else [])
  }

  function Members(z: ZSet): seq<Event> {
    seq(|z|, i requires 0 <= i < |z| => z[i].member)
  }

  function HighestScore(z: ZSet): nat {
    if z == [] then 0 else Max(HighestScore(z[..|z| - 1]), z[|z| - 1].score)
  }

  datatype PollResult = TooOld(ts: nat) | Updates(events: seq<Event>, ts: nat)

  function Poll(l: Log, cursor: nat): PollResult {
    if IsTooOld(l, cursor) then TooOld(l.ts)
    else
      var got := Delivered(l, cursor);
      Updates(Members(got), Max(cursor, Max(l.ts, HighestScore(got))))
  }

  /** A poll writes the counter back when it saw a higher score. */
  function AfterPoll(l: Log, cursor: nat): Log {
    if IsTooOld(l, cursor) then l
    else l.(ts := Max(l.ts, HighestScore(Delivered(l, cursor))))
  }

  // ---------------------------------------------------------------------------
  // The stored log and the operations on it

  class UserLog {
    var ts: nat
    var entries: ZSet

    ghost function Value(): Log
      reads this
    {
      Log(ts, entries)
    }

    constructor ()
      ensures Value() == Log(0, [])
    {
      ts, entries := 0, [];
    }

    /** INCR on the counter key. */
    method Incr() returns (newTS: nat)
      modifies this`ts
      ensures ts == newTS == old(ts) + 1
    {
      ts := ts + 1;
      newTS := ts;
    }

    /** The pipelined ZADD and ZREMRANGEBYRANK of a push that drew `newTS`. */
    method AddAndTrim(e: Event, newTS: nat)
      modifies this`entries
      ensures entries == TrimTo(ZAdd(old(entries), e, newTS), LOG_CAP)
    {
      entries := ZAdd(entries, e, newTS);
      if |entries| > LOG_CAP {
        entries := entries[|entries| - LOG_CAP..];
      }
    }

    /** PushEvent and PushEphemeralEvent, run without interference. */
    method PushEvent(e: Event) returns (newTS: nat)
      modifies this
      ensures Value() == Push(old(Value()), e)
      ensures newTS == ts
    {
      newTS := Incr();
      AddAndTrim(e, newTS);
    }

    /** The part of GetLongPollServer that touches the counter. */
    method GetLongPollServer() returns (cursor: nat)
      modifies this`ts
      ensures Value() == OpenServer(old(Value()))
      ensures cursor == ts && cursor >= 1
    {
      cursor := ts;
      if cursor == 0 {
        cursor := Incr();
      }
    }

    /** The loop of GetUpdates: decode what can be decoded and note the highest ts among it. */
    static method DecodeAll(res: ZSet) returns (events: seq<Event>, highestFetchedTS: nat)
      ensures events == Members(KnownOnly(res))
      ensures highestFetchedTS == HighestScore(KnownOnly(res))
    {
      events, highestFetchedTS := [], 0;
      for i := 0 to |res|
        invariant events == Members(KnownOnly(res[..i]))
        invariant highestFetchedTS == HighestScore(KnownOnly(res[..i]))
      {
        assert res[..i + 1] == res[..i] + [res[i]];
        KnownOnlySnoc(res[..i], res[i]);
        if Known(res[i].member) {
          MembersSnoc(KnownOnly(res[..i]), res[i]);
          HighestScoreSnoc(KnownOnly(res[..i]), res[i]);
          events := events + [res[i].member];
          if res[i].score > highestFetchedTS {
            highestFetchedTS := res[i].score;
          }
        }
      }
      assert res[..|res|] == res;
    }

    method GetUpdates(lastTS: nat) returns (r: PollResult)
      modifies this`ts
      ensures r == Poll(old(Value()), lastTS)
      ensures Value() == AfterPoll(old(Value()), lastTS)
    {
      if |entries| > 0 && lastTS + 1 < entries[0].score {
        return TooOld(ts);
      }
      var res := RangeAbove(entries, lastTS);
      var events, highestFetchedTS := DecodeAll(res);
      var newTS := ts;
      if highestFetchedTS > newTS {
        newTS := highestFetchedTS;
        ts := newTS;
      }
      if newTS < lastTS {
        newTS := lastTS;
      }
      r := Updates(events, newTS);
    }
  }

  // ---------------------------------------------------------------------------
  // What the sorted-set commands do

  lemma {:induction false} ZRemMembers(z: ZSet, m: Event)
    ensures forall x :: x in ZRem(z, m) <==> x in z && x.member != m
    ensures |ZRem(z, m)| <= |z|
  {
    if z != [] {
      ZRemMembers(z[1..], m);
      assert z == [z[0]] + z[1..];
    }
  }

  lemma {:induction false} ZRemAbsent(z: ZSet, m: Event)
    requires forall x :: x in z ==> x.member != m
    ensures ZRem(z, m) == z
  {
    if z != [] {
      assert z[0] in z && forall x :: x in z[1..] ==> x in z;
      ZRemAbsent(z[1..], m);
      assert z == [z[0]] + z[1..];
    }
  }

  /** Prepending a smaller score keeps the order. */
  lemma OrderedCons(x: Entry, z: ZSet)
    requires Ordered(z)
    requires forall y :: y in z ==> x.score < y.score
    ensures Ordered([x] + z)
  {
    forall i, j | 0 <= i < j < |[x] + z| ensures ([x] + z)[i].score < ([x] + z)[j].score {
      assert ([x] + z)[j] == z[j - 1];
      assert i > 0 ==> ([x] + z)[i] == z[i - 1];
    }
  }

  lemma OrderedTail(z: ZSet)
    requires Ordered(z) && z != []
    ensures Ordered(z[1..])
    ensures forall y :: y in z[1..] ==> y in z && z[0].score < y.score
  {
  }

  lemma {:induction false} ZRemOrdered(z: ZSet, m: Event)
    requires Ordered(z)
    ensures Ordered(ZRem(z, m))
  {
    if z != [] {
      OrderedTail(z);
      ZRemOrdered(z[1..], m);
      ZRemMembers(z[1..], m);
      if z[0].member != m {
        OrderedCons(z[0], ZRem(z[1..], m));
      }
    }
  }

  lemma {:induction false} InsertMembers(z: ZSet, x: Entry)
    ensures |Insert(z, x)| == |z| + 1
    ensures forall y :: y in Insert(z, x) <==> y == x || y in z
  {
    if z != [] {
      InsertMembers(z[1..], x);
      assert z == [z[0]] + z[1..];
    }
  }

  lemma {:induction false} InsertOrdered(z: ZSet, x: Entry)
    requires Ordered(z)
    requires forall y :: y in z ==> y.score != x.score
    ensures Ordered(Insert(z, x))
  {
    if z != [] {
      OrderedTail(z);
      assert z[0] in z;
      InsertMembers(z[1..], x);
      if x.score < z[0].score {
        OrderedCons(x, z);
      } else {
        InsertOrdered(z[1..], x);
        OrderedCons(z[0], Insert(z[1..], x));
      }
    }
  }

  /** A score above all others goes last. */
  lemma {:induction false} InsertNewest(z: ZSet, x: Entry)
    requires forall y :: y in z ==> y.score < x.score
    ensures Insert(z, x) == z + [x]
  {
    if z != [] {
      InsertNewest(z[1..], x);
      assert z == [z[0]] + z[1..];
    }
  }

  /** ZADD at a score nobody holds keeps the order total: scores never tie, members never repeat. */
  lemma ZAddKeepsOrder(z: ZSet, m: Event, score: nat)
    requires Ordered(z)
    requires forall y :: y in z ==> y.score != score
    ensures Ordered(ZAdd(z, m, score))
    ensures forall y :: y in ZAdd(z, m, score) <==> y == Entry(m, score) || (y in z && y.member != m)
  {
    ZRemMembers(z, m);
    ZRemOrdered(z, m);
    InsertMembers(ZRem(z, m), Entry(m, score));
    InsertOrdered(ZRem(z, m), Entry(m, score));
  }

  lemma MembersHas(z: ZSet, x: Entry)
    requires x in z
    ensures x.member in Members(z)
  {
    var i :| 0 <= i < |z| && z[i] == x;
    assert Members(z)[i] == x.member;
  }

  lemma MembersSnoc(z: ZSet, x: Entry)
    ensures Members(z + [x]) == Members(z) + [x.member]
  {
  }

  lemma {:induction false} RangeAboveSpec(z: ZSet, ts: nat)
    ensures forall x :: x in RangeAbove(z, ts) <==> x in z && x.score > ts
  {
    if z != [] {
      RangeAboveSpec(z[1..], ts);
      assert z == [z[0]] + z[1..];
    }
  }

  lemma {:induction false} RangeAboveOrdered(z: ZSet, ts: nat)
    requires Ordered(z)
    ensures Ordered(RangeAbove(z, ts))
  {
    if z != [] {
      OrderedTail(z);
      RangeAboveOrdered(z[1..], ts);
      RangeAboveSpec(z[1..], ts);
      if z[0].score > ts {
        OrderedCons(z[0], RangeAbove(z[1..], ts));
      }
    }
  }

  lemma KnownOnlySnoc(z: ZSet, x: Entry)
    ensures KnownOnly(z + [x]) == if Known(x.member) then KnownOnly(z) + [x] else KnownOnly(z)
  {
    assert (z + [x])[..|z|] == z;
  }

  lemma {:induction false} KnownOnlySpec(z: ZSet)
    ensures forall x :: x in KnownOnly(z) <==> x in z && Known(x.member)
  {
    if z != [] {
      KnownOnlySpec(z[..|z| - 1]);
      assert z == z[..|z| - 1] + [z[|z| - 1]];
    }
  }

  lemma {:induction false} KnownOnlyOrdered(z: ZSet)
    requires Ordered(z)
    ensures Ordered(KnownOnly(z))
  {
    if z != [] {
      var front := z[..|z| - 1];
      KnownOnlyOrdered(front);
      KnownOnlySpec(front);
      forall y | y in KnownOnly(front) ensures y.score < z[|z| - 1].score {
        assert y in front;
      }
    }
  }

  lemma HighestScoreSnoc(z: ZSet, x: Entry)
    ensures HighestScore(z + [x]) == Max(HighestScore(z), x.score)
  {
    assert (z + [x])[..|z|] == z;
  }

  lemma {:induction false} HighestScoreSpec(z: ZSet)
    ensures forall x :: x in z ==> x.score <= HighestScore(z)
    ensures z != [] ==> exists x :: x in z && x.score == HighestScore(z)
    ensures z == [] ==> HighestScore(z) == 0
  {
    if z != [] {
      HighestScoreSpec(z[..|z| - 1]);
      assert z == z[..|z| - 1] + [z[|z| - 1]];
    }
  }

  /** A poll delivers exactly the decodable entries above its cursor, in order of position. */
  lemma DeliveredSpec(l: Log, cursor: nat)
    ensures forall x :: x in Delivered(l, cursor) <==> x in l.entries && x.score > cursor && Known(x.member)
    ensures Ordered(l.entries) ==> Ordered(Delivered(l, cursor))
  {
    RangeAboveSpec(l.entries, cursor);
    KnownOnlySpec(RangeAbove(l.entries, cursor));
    if Ordered(l.entries) {
      RangeAboveOrdered(l.entries, cursor);
      KnownOnlyOrdered(RangeAbove(l.entries, cursor));
    }
  }

  /** Ordered lists with the same entries are the same list. */
  lemma {:induction false} OrderedUnique(a: ZSet, b: ZSet)
    requires Ordered(a) && Ordered(b)
    requires forall x :: x in a <==> x in b
    ensures a == b
  {
    assert a != [] ==> a[0] in a;
    assert b != [] ==> b[0] in b;
    if a != [] {
      SameLast(a, b);
      var m, n := |a| - 1, |b| - 1;
      forall x ensures x in a[..m] <==> x in b[..n] {
        InFront(a, x);
        InFront(b, x);
      }
      OrderedUnique(a[..m], b[..n]);
      assert a == a[..m] + [a[m]] && b == b[..n] + [b[n]];
    }
  }

  lemma InFront(a: ZSet, x: Entry)
    requires Ordered(a) && a != []
    ensures x in a[..|a| - 1] <==> x in a && x != a[|a| - 1]
  {
    assert a == a[..|a| - 1] + [a[|a| - 1]];
    if x in a[..|a| - 1] {
      var i :| 0 <= i < |a| - 1 && a[i] == x;
    }
  }

  lemma SameLast(a: ZSet, b: ZSet)
    requires Ordered(a) && Ordered(b) && a != [] && b != []
    requires forall x :: x in a <==> x in b
    ensures a[|a| - 1] == b[|b| - 1]
  {
    var x, y := a[|a| - 1], b[|b| - 1];
    assert x in b && y in a;
    var i :| 0 <= i < |b| && b[i] == x;
    var j :| 0 <= j < |a| && a[j] == y;
    assert i < |b| - 1 ==> x.score < y.score;
    assert j < |a| - 1 ==> y.score < x.score;
  }
}
