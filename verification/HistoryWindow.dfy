/**
 The page that messages.getHistory selects (src/transport/endpoints/history/get.go),
 over the local ids of the messages a user can see, in ascending order.
 */
module HistoryWindow {
  import opened Wrappers

  ghost predicate Ascending(v: seq<nat>) {
    (forall i :: 0 <= i < |v| ==> v[i] > 0) && forall i, j :: 0 <= i < j < |v| ==> v[i] < v[j]
  }

  /** WHERE local_id <= x. */
  function AtMost(v: seq<nat>, x: nat): seq<nat> {
    if v == [] then [] else (if v[0] <= x then [v[0]] else []) + AtMost(v[1..], x)
  }

  /** WHERE local_id >= x. */
  function AtLeast(v: seq<nat>, x: nat): seq<nat> {
    if v == [] then [] else (if v[0] >= x then [v[0]] else []) + AtLeast(v[1..], x)
  }

  /** ORDER BY local_id DESC of an ascending list. */
  function Descending(v: seq<nat>): (r: seq<nat>)
    ensures |r| == |v|
  {
    if v == [] then [] else Descending(v[1..]) + [v[0]]
  }

  /** LIMIT n OFFSET off: an offset that is not positive is left out of the query. */
  function Slice(s: seq<nat>, off: int, n: nat): seq<nat> {
    var from := Min(Max(off, 0), |s|);
    s[from..Min(from + n, |s|)]
  }

  function ClampCount(count: int): (n: nat)
    ensures 1 <= n <= 200
    ensures (1 <= count <= 200 ==> n == count) && (count > 200 ==> n == 200) && (count < 1 ==> n == 20)
  {
    if count > 200 then 200 else if count < 1 then 20 else count
  }

  // ---------------------------------------------------------------------------
  // What a page is, by position in reading order

  /** rev reads from the oldest message, otherwise from the newest. */
  function ReadingOrder(v: seq<nat>, rev: bool): seq<nat> {
    if rev then v else Descending(v)
  }

  /** How many messages a reader meets up to and including the start id. */
  function Passed(r: seq<nat>, rev: bool, start: nat): (n: nat)
    ensures n <= |r|
  {
    if r == [] then 0
    else if (if rev then r[0] <= start else r[0] >= start) then 1 + Passed(r[1..], rev, start)
    else 0
  }

  /** How many messages a reader meets before the start id. */
  function Skipped(r: seq<nat>, rev: bool, start: nat): (n: nat)
    ensures n <= |r|
  {
    if r == [] then 0
    else if (if rev then r[0] < start else r[0] > start) then 1 + Skipped(r[1..], rev, start)
    else 0
  }

  /** Where the window of a request begins in reading order. */
  function WindowStart(v: seq<nat>, start: nat, offset: int, rev: bool): (n: nat)
    ensures n <= |v|
  {
    var r := ReadingOrder(v, rev);
    if start == 0 then 0
    else if offset < 0 then Passed(r, rev, start) - Min(-offset, Passed(r, rev, start))
    else Skipped(r, rev, start)
  }

  function Window(v: seq<nat>, start: nat, offset: int, rev: bool): seq<nat> {
    ReadingOrder(v, rev)[WindowStart(v, start, offset, rev)..]
  }

  function Page(v: seq<nat>, start: nat, offset: int, rev: bool, count: nat): seq<nat> {
    Slice(Window(v, start, offset, rev), offset, count)
  }

  method GetHistory(visible: seq<nat>, startLocalID: nat, offset: int, rev: bool, count: int)
    returns (page: seq<nat>, totalCount: nat)
    requires Ascending(visible)
    ensures page == Page(visible, startLocalID, offset, rev, ClampCount(count))
    ensures totalCount == |Window(visible, startLocalID, offset, rev)|
  {
    var limit := ClampCount(count);
    var query := visible;
    var off := offset;
    if startLocalID > 0 {
      if off < 0 {
        var absOffset := -off;
        if rev {
          var sub := Descending(AtMost(visible, startLocalID));
          if absOffset - 1 < |sub| {
            var minID := sub[absOffset - 1];
            query := AtLeast(visible, minID);
          }
        } else {
          var sub := AtLeast(visible, startLocalID);
          if absOffset - 1 < |sub| {
            var maxID := sub[absOffset - 1];
            query := AtMost(visible, maxID);
          }
        }
        off := 0;
        AnchoredWindow(visible, startLocalID, absOffset, rev, query);
      } else {
        OpenWindow(visible, startLocalID, offset, rev);
        if rev {
          query := AtLeast(visible, startLocalID);
        } else {
          query := AtMost(visible, startLocalID);
        }
      }
    }
    totalCount := |query|;
    var ordered := if rev then query else Descending(query);
    page := Slice(ordered, off, limit);
  }

  // ---------------------------------------------------------------------------
  // Filters of an ascending list are its ends

  lemma {:induction false} AtMostNone(v: seq<nat>, x: nat)
    requires forall i :: 0 <= i < |v| ==> v[i] > x
    ensures AtMost(v, x) == []
  {
    if v != [] {
      AtMostNone(v[1..], x);
    }
  }

  lemma {:induction false} AtLeastAll(v: seq<nat>, x: nat)
    requires forall i :: 0 <= i < |v| ==> v[i] >= x
    ensures AtLeast(v, x) == v
  {
    if v != [] {
      AtLeastAll(v[1..], x);
      assert v == [v[0]] + v[1..];
    }
  }

  /** v splits at n into what is at most x and what is above. */
  lemma {:induction false} SplitAbove(v: seq<nat>, x: nat, n: nat)
    requires Ascending(v) && n <= |v|
    requires forall i :: 0 <= i < n ==> v[i] <= x
    requires forall i :: n <= i < |v| ==> v[i] > x
    ensures AtMost(v, x) == v[..n]
  {
    if n == 0 {
      AtMostNone(v, x);
    } else {
      SplitAbove(v[1..], x, n - 1);
      assert v[..n] == [v[0]] + v[1..][..n - 1];
    }
  }

  lemma {:induction false} SplitBelow(v: seq<nat>, x: nat, n: nat)
    requires Ascending(v) && n <= |v|
    requires forall i :: 0 <= i < n ==> v[i] < x
    requires forall i :: n <= i < |v| ==> v[i] >= x
    ensures AtLeast(v, x) == v[n..]
  {
    if n == 0 {
      AtLeastAll(v, x);
      assert v[0..] == v;
    } else {
      SplitBelow(v[1..], x, n - 1);
      assert v[1..][n - 1..] == v[n..];
    }
  }

  lemma AtLeastFrom(v: seq<nat>, i: nat)
    requires Ascending(v) && i < |v|
    ensures AtLeast(v, v[i]) == v[i..]
  {
    SplitBelow(v, v[i], i);
  }

  lemma AtMostUpTo(v: seq<nat>, i: nat)
    requires Ascending(v) && i < |v|
    ensures AtMost(v, v[i]) == v[..i + 1]
  {
    SplitAbove(v, v[i], i + 1);
  }

  ghost predicate Reads(r: seq<nat>, rev: bool) {
    forall i, j :: 0 <= i < j < |r| ==> if rev then r[i] < r[j] else r[i] > r[j]
  }

  /** The passed messages are a prefix of the reading order, the others lie beyond the start. */
  lemma {:induction false} PassedPrefix(r: seq<nat>, rev: bool, start: nat)
    requires Reads(r, rev)
    ensures var n := Passed(r, rev, start);
            && (forall i :: 0 <= i < n ==> if rev then r[i] <= start else r[i] >= start)
            && (forall i :: n <= i < |r| ==> if rev then r[i] > start else r[i] < start)
  {
    if r != [] && (if rev then r[0] <= start else r[0] >= start) {
      PassedPrefix(r[1..], rev, start);
      assert forall i :: 1 <= i < |r| ==> r[i] == r[1..][i - 1];
    }
  }

  lemma {:induction false} SkippedPrefix(r: seq<nat>, rev: bool, start: nat)
    requires Reads(r, rev)
    ensures var n := Skipped(r, rev, start);
            && (forall i :: 0 <= i < n ==> if rev then r[i] < start else r[i] > start)
            && (forall i :: n <= i < |r| ==> if rev then r[i] >= start else r[i] <= start)
  {
    if r != [] && (if rev then r[0] < start else r[0] > start) {
      SkippedPrefix(r[1..], rev, start);
      assert forall i :: 1 <= i < |r| ==> r[i] == r[1..][i - 1];
    }
  }

  lemma PassedSpec(v: seq<nat>, rev: bool, start: nat)
    requires Ascending(v)
    ensures var b := Passed(ReadingOrder(v, rev), rev, start);
            if rev then AtMost(v, start) == v[..b] else AtLeast(v, start) == v[|v| - b..]
  {
    var r := ReadingOrder(v, rev);
    var b := Passed(r, rev, start);
    ReadingOrderReads(v, rev);
    PassedPrefix(r, rev, start);
    if rev {
      SplitAbove(v, start, b);
    } else {
      DescendingAt(v);
      forall i | 0 <= i < |v| ensures v[i] == r[|v| - 1 - i] {
      }
      SplitBelow(v, start, |v| - b);
    }
  }

  lemma SkippedSpec(v: seq<nat>, rev: bool, start: nat)
    requires Ascending(v)
    ensures var c := Skipped(ReadingOrder(v, rev), rev, start);
            if rev then AtLeast(v, start) == v[c..] else AtMost(v, start) == v[..|v| - c]
  {
    var r := ReadingOrder(v, rev);
    var c := Skipped(r, rev, start);
    ReadingOrderReads(v, rev);
    SkippedPrefix(r, rev, start);
    if rev {
      SplitBelow(v, start, c);
    } else {
      DescendingAt(v);
      forall i | 0 <= i < |v| ensures v[i] == r[|v| - 1 - i] {
      }
      SplitAbove(v, start, |v| - c);
    }
  }

  lemma OldestPart(v: seq<nat>, b: nat, k: nat)
    requires Ascending(v) && 0 < k <= b <= |v|
    ensures AtLeast(v, Descending(v[..b])[k - 1]) == v[b - k..]
  {
    DescendingAt(v[..b]);
    AtLeastFrom(v, b - k);
  }

  lemma NewestPart(v: seq<nat>, b: nat, k: nat)
    requires Ascending(v) && 0 < k <= b <= |v|
    ensures Descending(AtMost(v, v[|v| - b..][k - 1])) == Descending(v)[b - k..]
  {
    var i := |v| - b + k - 1;
    AtMostUpTo(v, i);
    DescendingPrefix(v, i + 1);
  }

  /** The messages the anchoring subquery lists, nearest to the farthest end first. */
  function AnchorCandidates(v: seq<nat>, start: nat, rev: bool): seq<nat> {
    if rev then Descending(AtMost(v, start)) else AtLeast(v, start)
  }

  /** The subquery picks the message k places back, and the filter starts the window there. */
  lemma OldestWindow(v: seq<nat>, start: nat, k: nat, query: seq<nat>)
    requires Ascending(v) && k > 0
    requires var sub := Descending(AtMost(v, start));
             query == if k > |sub| then v else AtLeast(v, sub[k - 1])
    ensures var b := Passed(v, true, start);
            query == v[b - Min(k, b)..]
  {
    PassedSpec(v, true, start);
    var b := Passed(v, true, start);
    if k <= b {
      OldestPart(v, b, k);
    } else {
      assert v[0..] == v;
    }
  }

  lemma NewestWindow(v: seq<nat>, start: nat, k: nat, query: seq<nat>)
    requires Ascending(v) && k > 0
    requires var sub := AtLeast(v, start);
             query == if k > |sub| then v else AtMost(v, sub[k - 1])
    ensures var b := Passed(Descending(v), false, start);
            Descending(query) == Descending(v)[b - Min(k, b)..]
  {
    PassedSpec(v, false, start);
    var b := Passed(Descending(v), false, start);
    if k <= b {
      NewestPart(v, b, k);
    } else {
      assert Descending(v)[0..] == Descending(v);
    }
  }

  lemma AnchoredWindow(v: seq<nat>, start: nat, k: nat, rev: bool, query: seq<nat>)
    requires Ascending(v) && start > 0 && k > 0
    requires var sub := AnchorCandidates(v, start, rev);
             query == if k > |sub| then v else if rev then AtLeast(v, sub[k - 1]) else AtMost(v, sub[k - 1])
    ensures ReadingOrder(query, rev) == Window(v, start, -(k as int), rev)
  {
    if rev {
      OldestWindow(v, start, k, query);
    } else {
      NewestWindow(v, start, k, query);
    }
  }

  lemma OpenWindow(v: seq<nat>, start: nat, offset: int, rev: bool)
    requires Ascending(v) && start > 0 && offset >= 0
    ensures ReadingOrder(if rev then AtLeast(v, start) else AtMost(v, start), rev) == Window(v, start, offset, rev)
  {
    OpenQuery(v, start, rev);
  }

  lemma {:induction false} DescendingAt(v: seq<nat>)
    ensures forall i :: 0 <= i < |v| ==> Descending(v)[i] == v[|v| - 1 - i]
  {
    if v != [] {
      DescendingAt(v[1..]);
    }
  }

  lemma {:induction false} DescendingPrefix(v: seq<nat>, n: nat)
    requires n <= |v|
    ensures Descending(v[..n]) == Descending(v)[|v| - n..]
  {
    if n > 0 {
      DescendingPrefix(v[1..], n - 1);
      assert v[..n][1..] == v[1..][..n - 1];
    }
  }

  lemma OpenQuery(v: seq<nat>, start: nat, rev: bool)
    requires Ascending(v)
    ensures ReadingOrder(if rev then AtLeast(v, start) else AtMost(v, start), rev)
            == ReadingOrder(v, rev)[Skipped(ReadingOrder(v, rev), rev, start)..]
  {
    SkippedSpec(v, rev, start);
    if !rev {
      DescendingPrefix(v, |v| - Skipped(ReadingOrder(v, rev), rev, start));
    }
  }

  // ---------------------------------------------------------------------------
  // Main results

  /**
   Anchored pages, in either direction: with offset -k, let b be the number of visible
   messages at or before the start id in reading order.  The last of them (the start
   message itself, if visible: AnchorIsStart) is the min(k, b)-th of the page, and the first one beyond
   the start id follows it; each is on the page exactly when its place fits the count.
   */
  lemma AnchorPosition(v: seq<nat>, start: nat, k: nat, rev: bool, count: nat)
    requires Ascending(v) && start > 0 && k > 0 && count > 0
    ensures var r := ReadingOrder(v, rev);
            var b := Passed(r, rev, start);
            var page := Page(v, start, -(k as int), rev, count);
            && (b > 0 ==> PlacedAt(page, r[b - 1], Min(k, b) - 1, count))
            && (b < |r| ==> PlacedAt(page, r[b], Min(k, b), count))
  {
    var r := ReadingOrder(v, rev);
    ReadingOrderReads(v, rev);
    AnchoredPage(v, start, k, rev, count);
    AnchorPlaces(r, rev, Passed(r, rev, start), k, count, Page(v, start, -(k as int), rev, count));
  }

  /** When the start message is visible it is the last one passed, so the anchor is the start itself. */
  lemma AnchorIsStart(v: seq<nat>, start: nat, rev: bool)
    requires Ascending(v) && start in v
    ensures var r := ReadingOrder(v, rev);
            var b := Passed(r, rev, start);
            b > 0 && r[b - 1] == start
  {
    ReadingOrderReads(v, rev);
    StartIsPassed(ReadingOrder(v, rev), start, rev);
  }

  lemma AnchorPlaces(r: seq<nat>, rev: bool, b: nat, k: nat, count: nat, page: seq<nat>)
    requires Reads(r, rev) && b <= |r| && k > 0
    requires page == r[b - Min(k, b)..][..Min(count, |r| - (b - Min(k, b)))]
    ensures b > 0 ==> PlacedAt(page, r[b - 1], Min(k, b) - 1, count)
    ensures b < |r| ==> PlacedAt(page, r[b], Min(k, b), count)
  {
    var from := b - Min(k, b);
    if b < |r| {
      PlaceInPage(r, rev, from, count, b);
    }
    if b > 0 {
      PlaceInPage(r, rev, from, count, b - 1);
    }
  }

  lemma AnchoredPage(v: seq<nat>, start: nat, k: nat, rev: bool, count: nat)
    requires start > 0 && k > 0
    ensures var r := ReadingOrder(v, rev);
            var from := Passed(r, rev, start) - Min(k, Passed(r, rev, start));
            Page(v, start, -(k as int), rev, count) == r[from..][..Min(count, |r| - from)]
  {
  }

  /** x is on the page exactly when place i fits the count, and then it is at place i. */
  predicate PlacedAt(page: seq<nat>, x: nat, i: int, count: nat) {
    (x in page <==> i < count) && (i < count ==> 0 <= i < |page| && page[i] == x)
  }

  lemma ReadingOrderReads(v: seq<nat>, rev: bool)
    requires Ascending(v)
    ensures Reads(ReadingOrder(v, rev), rev)
    ensures forall x :: x in v <==> x in ReadingOrder(v, rev)
  {
    var r := ReadingOrder(v, rev);
    if !rev {
      DescendingAt(v);
      forall i, j | 0 <= i < j < |r| ensures r[i] > r[j] {
        assert v[|v| - 1 - j] < v[|v| - 1 - i];
      }
      forall x ensures x in v <==> x in r {
        if x in v {
          var i :| 0 <= i < |v| && v[i] == x;
          assert r[|v| - 1 - i] == x;
        }
      }
    }
  }

  /** An element of a list without repetitions is in a slice of it exactly when its place is. */
  lemma PlaceInPage(r: seq<nat>, rev: bool, from: nat, count: nat, i: nat)
    requires Reads(r, rev) && from <= i < |r|
    ensures PlacedAt(r[from..][..Min(count, |r| - from)], r[i], i - from, count)
  {
    var page := r[from..][..Min(count, |r| - from)];
    forall j | 0 <= j < |page| ensures page[j] == r[i] <==> j == i - from {
      assert page[j] == r[from + j];
    }
  }

  lemma StartIsPassed(r: seq<nat>, start: nat, rev: bool)
    requires Reads(r, rev) && start in r
    ensures var b := Passed(r, rev, start);
            b > 0 && r[b - 1] == start
  {
    var b := Passed(r, rev, start);
    PassedPrefix(r, rev, start);
    var j :| 0 <= j < |r| && r[j] == start;
    assert j < b;
  }

  /** The offset of page n, counting from 0. */
  function OffsetOf(count: nat, n: nat): nat {
    if n == 0 then 0 else OffsetOf(count, n - 1) + count
  }

  lemma {:induction false} OffsetIsProduct(count: nat, n: nat)
    ensures OffsetOf(count, n) == n * count
  {
    if n > 0 {
      OffsetIsProduct(count, n - 1);
    }
  }

  /** The pages at offsets 0, count, 2 * count, ... one after another. */
  function Pages(v: seq<nat>, start: nat, rev: bool, count: nat, n: nat): seq<nat> {
    if n == 0 then []
    else Pages(v, start, rev, count, n - 1) + Page(v, start, OffsetOf(count, n - 1), rev, count)
  }

  /** Consecutive pages tile the window: n of them are its first n * count messages, each once. */
  lemma PagesTile(v: seq<nat>, start: nat, rev: bool, count: nat, n: nat)
    requires Ascending(v) && count > 0
    ensures var w := Window(v, start, 0, rev);
            && Pages(v, start, rev, count, n) == w[..Min(n * count, |w|)]
            && (n * count >= |w| ==> Pages(v, start, rev, count, n) == w)
            && Reads(w, rev)
  {
    ReadingOrderReads(v, rev);
    OffsetIsProduct(count, n);
    PagesPrefix(v, start, rev, count, n);
  }

  lemma {:induction false} PagesPrefix(v: seq<nat>, start: nat, rev: bool, count: nat, n: nat)
    ensures var w := Window(v, start, 0, rev);
            Pages(v, start, rev, count, n) == w[..Min(OffsetOf(count, n), |w|)]
  {
    if n > 0 {
      var off := OffsetOf(count, n - 1);
      PagesPrefix(v, start, rev, count, n - 1);
      OnePageMore(Window(v, start, 0, rev), count, off);
      PageOfWindow(v, start, rev, count, off);
    }
  }

  lemma PageOfWindow(v: seq<nat>, start: nat, rev: bool, count: nat, off: nat)
    ensures Page(v, start, off, rev, count) == Slice(Window(v, start, 0, rev), off, count)
  {
  }

  lemma OnePageMore(w: seq<nat>, count: nat, off: nat)
    ensures w[..Min(off, |w|)] + Slice(w, off, count) == w[..Min(off + count, |w|)]
  {
    var from := Min(off, |w|);
    assert w[..from] + w[from..Min(from + count, |w|)] == w[..Min(off + count, |w|)];
  }

  /** Any page, wherever it starts: joined to what lies before it, it is the window up to its end. */
  lemma PageContinues(v: seq<nat>, start: nat, off: nat, rev: bool, count: nat)
    ensures var w := Window(v, start, 0, rev);
            && w[..Min(off, |w|)] + Page(v, start, off, rev, count) == w[..Min(off + count, |w|)]
            && Page(v, 0, -(off as int), rev, count) == Page(v, 0, 0, rev, count)
  {
    PageOfWindow(v, start, rev, count, off);
    OnePageMore(Window(v, start, 0, rev), count, off);
  }

  /** The window holds exactly the visible messages from the start id on, in reading direction. */
  lemma WindowMembers(v: seq<nat>, start: nat, rev: bool, x: nat)
    requires Ascending(v)
    ensures x in Window(v, start, 0, rev) <==>
            x in v && (start == 0 || if rev then x >= start else x <= start)
  {
    var r := ReadingOrder(v, rev);
    var from := WindowStart(v, start, 0, rev);
    ReadingOrderReads(v, rev);
    if start > 0 {
      SkippedPrefix(r, rev, start);
    }
    if x in v && (start == 0 || if rev then x >= start else x <= start) {
      var i :| 0 <= i < |r| && r[i] == x;
      assert i >= from;
      assert r[from..][i - from] == x;
    }
  }
}
