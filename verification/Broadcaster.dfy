/**
 The in-process broadcaster (src/transport/broadcaster/broadcaster.go): per user, the
 channels of the requests that are being held open.  Each channel has one slot.
 */
module Broadcaster {

  /** A `chan struct{}` of capacity one. */
  class Channel {
    var token: bool

    constructor ()
      ensures !token
    {
      token := false;
    }
  }

  /** `s` without the first occurrence of `x`. */
  function RemoveFirst<T(==)>(s: seq<T>, x: T): seq<T> {
    if s == [] then []
    else if s[0] == x then s[1..]
    else [s[0]] + RemoveFirst(s[1..], x)
  }

  ghost predicate Distinct<T>(s: seq<T>) {
    forall i, j :: 0 <= i < j < |s| ==> s[i] != s[j]
  }

  lemma {:induction false} RemoveFirstMultiset<T>(s: seq<T>, x: T)
    requires x in s
    ensures multiset(RemoveFirst(s, x)) == multiset(s) - multiset{x}
  {
    if s[0] == x {
      assert s == [s[0]] + s[1..];
    } else {
      RemoveFirstMultiset(s[1..], x);
      assert s == [s[0]] + s[1..];
    }
  }

  lemma {:induction false} RemoveFirstDistinct<T>(s: seq<T>, x: T)
    requires Distinct(s)
    ensures Distinct(RemoveFirst(s, x))
    ensures forall y :: y in RemoveFirst(s, x) <==> y in s && y != x
  {
    if s != [] {
      assert s == [s[0]] + s[1..];
      RemoveFirstDistinct(s[1..], x);
      var r := RemoveFirst(s, x);
      if s[0] != x {
        forall i, j | 0 <= i < j < |r| ensures r[i] != r[j] {
          assert r[j] == RemoveFirst(s[1..], x)[j - 1];
          assert r[j] in RemoveFirst(s[1..], x);
          assert i > 0 ==> r[i] == RemoveFirst(s[1..], x)[i - 1];
        }
      }
    }
  }

  lemma {:induction false} RemoveFirstAt<T>(s: seq<T>, x: T, i: nat)
    requires i < |s| && s[i] == x && x !in s[..i]
    ensures RemoveFirst(s, x) == s[..i] + s[i + 1..]
  {
    if i > 0 {
      assert s[0] in s[..i];
      assert s[1..][..i - 1] == s[..i][1..];
      RemoveFirstAt(s[1..], x, i - 1);
    }
  }

  class Broadcaster {
    var subscribers: map<int, seq<Channel>>

    ghost predicate Valid()
      reads this
    {
      forall u, v, i, j |
        u in subscribers && v in subscribers && 0 <= i < |subscribers[u]| && 0 <= j < |subscribers[v]| ::
        subscribers[u][i] == subscribers[v][j] ==> u == v && i == j
    }

    function SubscribersOf(userID: int): seq<Channel>
      reads this
    {
      if userID in subscribers then subscribers[userID] else []
    }

    constructor ()
      ensures Valid() && subscribers == map[]
    {
      subscribers := map[];
    }

    /** A new empty channel joins the user's list, at its end. */
    method Subscribe(userID: int) returns (ch: Channel)
      requires Valid()
      modifies this
      ensures Valid()
      ensures fresh(ch) && !ch.token
      ensures subscribers == old(subscribers)[userID := old(SubscribersOf(userID)) + [ch]]
    {
      ch := new Channel();
      subscribers := subscribers[userID := SubscribersOf(userID) + [ch]];
    }

    /** The channel leaves the list; the order of the others stays. */
    method Unsubscribe(userID: int, ch: Channel)
      requires Valid()
      modifies this
      ensures Valid()
      ensures ch in old(SubscribersOf(userID)) ==>
                subscribers == old(subscribers)[userID := RemoveFirst(old(SubscribersOf(userID)), ch)]
      ensures ch !in old(SubscribersOf(userID)) ==> subscribers == old(subscribers)
      ensures ch !in SubscribersOf(userID)
    {
      var subs := SubscribersOf(userID);
      for i := 0 to |subs|
        invariant subscribers == old(subscribers)
        invariant ch !in subs[..i]
      {
        if subs[i] == ch {
          RemoveFirstAt(subs, ch, i);
          RemoveFirstDistinct(subs, ch);
          subscribers := subscribers[userID := subs[..i] + subs[i + 1..]];
          break;
        }
      }
    }

    /** Every channel of the user holds a token afterwards; no send ever blocks. */
    method Notify(userID: int)
      requires Valid()
      modifies set ch | ch in SubscribersOf(userID)
      ensures forall ch :: ch in SubscribersOf(userID) ==> ch.token
    {
      var subs := SubscribersOf(userID);
      for i := 0 to |subs|
        invariant forall ch :: ch in subs[..i] ==> ch.token
      {
        if !subs[i].token {
          subs[i].token := true;
        }
      }
    }
  }
}
