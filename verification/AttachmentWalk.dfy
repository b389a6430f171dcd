/**
 messages.getHistoryAttachments (src/transport/endpoints/history/getAttach.go): pages
 of attachments of one media type, cut between messages, over a fixed list of rows.
 */
module AttachmentWalk {
  import opened Wrappers
  import SearchIndex

  /** One element of a parsed attachments column. */
  datatype Raw =
    | RawString(text: string)
    | RawObject(kind: Option<string>, data: nat)
    | RawOther

  /** A visible message whose attachments column passed the query; `raw` is [] for a blank column. */
  datatype Row = Row(id: nat, localId: nat, raw: seq<Raw>)

  datatype Hit = Hit(messageId: nat, attachment: Raw)

  // ---------------------------------------------------------------------------
  // Which attachments match

  predicate EndsType(c: char) {
    '0' <= c <= '9' || c == '-'
  }

  /** Index of the first digit or minus sign, 0 if there is none. */
  function TypeEnd(s: string, j: nat): (end: nat)
    requires j <= |s|
    ensures end <= |s|
    ensures (forall i :: j <= i < |s| ==> !EndsType(s[i])) ==> end == 0
    ensures (exists i :: j <= i < |s| && EndsType(s[i])) ==>
              j <= end < |s| && EndsType(s[end]) && forall i :: j <= i < end ==> !EndsType(s[i])
    decreases |s| - j
  {
    if j == |s| then 0 else if EndsType(s[j]) then j else TypeEnd(s, j + 1)
  }

  /** The media type asked for, and how the server lower-cases. */
  datatype Query = Query(mediaType: string, lower: SearchIndex.LowerCase)

  function AttType(item: Raw, q: Query): string
    requires !item.RawOther?
  {
    match item
    case RawString(s) =>
      var end := TypeEnd(s, 0);
      q.lower(if end > 0 then s[..end] else s)
    case RawObject(kind, _) =>
      if kind.Some? then q.lower(kind.value) else ""
  }

  predicate Matches(item: Raw, q: Query) {
    && !item.RawOther?
    && var attType := AttType(item, q);
       || attType == q.mediaType
       || (q.mediaType == "link" && (attType == "share" || attType == "link"))
       || (q.mediaType == "doc" && (attType == "doc" || attType == "graffiti"))
       || (q.mediaType == "audio_message" && (attType == "audio_message" || attType == "audiomessage"))
  }

  /** The type of an attachment string is what stands before its first digit or minus sign. */
  lemma TypeOfString(letters: string, rest: string, q: Query)
    requires letters != [] && rest != [] && EndsType(rest[0])
    requires forall i :: 0 <= i < |letters| ==> !EndsType(letters[i])
    ensures AttType(RawString(letters + rest), q) == q.lower(letters)
  {
    var s := letters + rest;
    assert s[|letters|] == rest[0];
    assert forall i :: 0 <= i < |letters| ==> s[i] == letters[i];
    assert s[..|letters|] == letters;
  }

  /** A string that starts with a digit or has none is its own type. */
  lemma TypeOfWholeString(s: string, q: Query)
    requires (s != [] && EndsType(s[0])) || forall i :: 0 <= i < |s| ==> !EndsType(s[i])
    ensures AttType(RawString(s), q) == q.lower(s)
  {
  }

  /** The attachment types a media type stands for. */
  function Accepted(mediaType: string): set<string> {
    {mediaType} + (if mediaType == "link" then {"share"} else {})
    + (if mediaType == "doc" then {"graffiti"} else {})
    + (if mediaType == "audio_message" then {"audiomessage"} else {})
  }

  /** A string such as "photo1_2" or "doc-3_4" matches by the part before the numbers, an object by its type. */
  lemma MatchesExactly(letters: string, rest: string, kind: Option<string>, data: nat, q: Query)
    requires letters != [] && rest != [] && EndsType(rest[0])
    requires forall i :: 0 <= i < |letters| ==> !EndsType(letters[i])
    ensures Matches(RawString(letters + rest), q) <==> q.lower(letters) in Accepted(q.mediaType)
    ensures Matches(RawObject(kind, data), q) <==>
            (if kind.Some? then q.lower(kind.value) else "") in Accepted(q.mediaType)
    ensures !Matches(RawOther, q)
  {
    TypeOfString(letters, rest, q);
  }

  function MessageId(m: Row): nat {
    if m.id == 0 then m.localId else m.id
  }

  /** The matching attachments of a prefix of one message's list. */
  function HitsIn(m: Row, raw: seq<Raw>, q: Query): seq<Hit> {
    if raw == [] then []
    else
      var last := raw[|raw| - 1];
      HitsIn(m, raw[..|raw| - 1], q)
      + (if Matches(last, q) then [Hit(MessageId(m), last)] else [])
  }

  function Hits(m: Row, q: Query): seq<Hit> {
    HitsIn(m, m.raw, q)
  }

  /** The matching attachments of all rows, in order. */
  function AllHits(rows: seq<Row>, q: Query): seq<Hit> {
    if rows == [] then [] else AllHits(rows[..|rows| - 1], q) + Hits(rows[|rows| - 1], q)
  }

  lemma {:induction false} HitsInConcat(m: Row, a: seq<Raw>, b: seq<Raw>, q: Query)
    ensures HitsIn(m, a + b, q) == HitsIn(m, a, q) + HitsIn(m, b, q)
  {
    if b == [] {
      assert a + b == a;
    } else {
      assert (a + b)[..|a + b| - 1] == a + b[..|b| - 1];
      HitsInConcat(m, a, b[..|b| - 1], q);
    }
  }

  /** The hits of a message, attachment by attachment in order, under its row id (or its number). */
  lemma HitsInOrder(m: Row, before: seq<Raw>, item: Raw, after: seq<Raw>, q: Query)
    requires m.raw == before + [item] + after
    ensures Hits(m, q) ==
            HitsIn(m, before, q)
            + (if Matches(item, q) then [Hit(if m.id > 0 then m.id else m.localId, item)] else [])
            + HitsIn(m, after, q)
    ensures HitsIn(m, [], q) == []
  {
    HitsInConcat(m, before + [item], after, q);
    HitsInConcat(m, before, [item], q);
    assert [item][..0] == [];
  }

  // ---------------------------------------------------------------------------
  // One page

  function ClampCount(count: int): (n: nat)
    ensures 1 <= n <= 200
    ensures (1 <= count <= 200 ==> n == count) && (count > 200 ==> n == 200) && (count < 1 ==> n == 30)
  {
    if count > 200 then 200 else if count < 1 then 30 else count
  }

  function FetchLimit(count: nat): nat {
    Min(count * 5, 500)
  }

  /** ORDER BY ... LIMIT limit OFFSET offset. */
  function Fetch(rows: seq<Row>, offset: int, limit: nat): seq<Row> {
    var from := Min(Max(offset, 0), |rows|);
    rows[from..Min(from + limit, |rows|)]
  }

  /** How many rows a page takes: up to and including the one that fills it. */
  function Taken(msgs: seq<Row>, q: Query, count: nat, done: nat): nat
    requires done <= |msgs|
    decreases |msgs| - done
  {
    if done == |msgs| then done
    else if |AllHits(msgs[..done + 1], q)| >= count then done + 1
    else Taken(msgs, q, count, done + 1)
  }

  datatype PageOf = PageOf(items: seq<Hit>, nextFrom: Option<int>)

  function Page(rows: seq<Row>, q: Query, count: nat, offset: int): PageOf
    requires count > 0
  {
    var msgs := Fetch(rows, offset, FetchLimit(count));
    TakenBound(msgs, q, count, 0);
    var n := Taken(msgs, q, count, 0);
    var items := AllHits(msgs[..n], q);
    PageOf(items,
           if n == 0 || (|msgs| < FetchLimit(count) && |items| < count) then None else Some(offset + n))
  }

  lemma {:induction false} TakenBound(msgs: seq<Row>, q: Query, count: nat, done: nat)
    requires done <= |msgs|
    ensures done <= Taken(msgs, q, count, done) <= |msgs|
    ensures done < |msgs| ==> Taken(msgs, q, count, done) > done
    decreases |msgs| - done
  {
    if done < |msgs| && |AllHits(msgs[..done + 1], q)| < count {
      TakenBound(msgs, q, count, done + 1);
    }
  }

  /** The inner loop: what one row adds to the page. */
  method AppendMatches(historyItems: seq<Hit>, m: Row, q: Query) returns (items: seq<Hit>)
    ensures items == historyItems + Hits(m, q)
  {
    items := historyItems;
    for j := 0 to |m.raw|
      invariant items == historyItems + HitsIn(m, m.raw[..j], q)
    {
      assert m.raw[..j + 1][..j] == m.raw[..j];
      if Matches(m.raw[j], q) {
        items := items + [Hit(MessageId(m), m.raw[j])];
      }
    }
    assert m.raw[..|m.raw|] == m.raw;
  }

  /** The outer loop: take rows until the page is full. */
  method FillPage(msgs: seq<Row>, q: Query, count: nat)
    returns (historyItems: seq<Hit>, messagesProcessed: nat)
    ensures messagesProcessed == Taken(msgs, q, count, 0) <= |msgs|
    ensures historyItems == AllHits(msgs[..messagesProcessed], q)
  {
    historyItems, messagesProcessed := [], 0;
    while messagesProcessed < |msgs|
      invariant messagesProcessed <= |msgs|
      invariant historyItems == AllHits(msgs[..messagesProcessed], q)
      invariant Taken(msgs, q, count, 0) == Taken(msgs, q, count, messagesProcessed)
    {
      var m := msgs[messagesProcessed];
      messagesProcessed := messagesProcessed + 1;
      assert msgs[..messagesProcessed][..messagesProcessed - 1] == msgs[..messagesProcessed - 1];
      historyItems := AppendMatches(historyItems, m, q);
      if |historyItems| >= count {
        break;
      }
    }
  }

  method GetHistoryAttachments(rows: seq<Row>, q: Query, requested: int, offset: int)
    returns (historyItems: seq<Hit>, nextFrom: Option<int>)
    ensures PageOf(historyItems, nextFrom) == Page(rows, q, ClampCount(requested), offset)
  {
    var count := ClampCount(requested);
    var fetchLimit := Min(count * 5, 500);
    var msgs := Fetch(rows, offset, fetchLimit);
    var messagesProcessed;
    historyItems, messagesProcessed := FillPage(msgs, q, count);
    nextFrom := None;
    if |msgs| > 0 && messagesProcessed > 0 {
      nextFrom := Some(offset + messagesProcessed);
    }
    if |msgs| < fetchLimit && |historyItems| < count {
      nextFrom := None;
    }
  }

  // ---------------------------------------------------------------------------
  // Following next_from

  /** All pages a client gets by following next_from until there is none. */
  function Walk(rows: seq<Row>, q: Query, count: nat, offset: nat): seq<Hit>
    requires count > 0
    decreases |rows| - offset
  {
    NextMovesOn(rows, q, count, offset);
    var p := Page(rows, q, count, offset);
    match p.nextFrom
    case None => p.items
    case Some(next) => p.items + Walk(rows, q, count, next)
  }

  /** A page that names a next offset lies before it, inside the list: the walk ends. */
  lemma NextMovesOn(rows: seq<Row>, q: Query, count: nat, offset: nat)
    requires count > 0
    ensures var p := Page(rows, q, count, offset);
            p.nextFrom.Some? ==> offset < |rows| && offset < p.nextFrom.value <= |rows|
  {
    var msgs := Fetch(rows, offset, FetchLimit(count));
    TakenBound(msgs, q, count, 0);
  }

  lemma {:induction false} AllHitsConcat(a: seq<Row>, b: seq<Row>, q: Query)
    ensures AllHits(a + b, q) == AllHits(a, q) + AllHits(b, q)
  {
    if b == [] {
      assert a + b == a;
    } else {
      assert (a + b)[..|a + b| - 1] == a + b[..|b| - 1];
      AllHitsConcat(a, b[..|b| - 1], q);
    }
  }

  /** A page stops early only when it is full. */
  lemma {:induction false} TakenFull(msgs: seq<Row>, q: Query, count: nat, done: nat)
    requires done <= |msgs|
    requires |AllHits(msgs[..done], q)| < count
    ensures var n := Taken(msgs, q, count, done);
            && done <= n <= |msgs|
            && (n < |msgs| ==> |AllHits(msgs[..n], q)| >= count)
            && (n > done ==> |AllHits(msgs[..n - 1], q)| < count)
    decreases |msgs| - done
  {
    if done < |msgs| {
      var hits := AllHits(msgs[..done + 1], q);
      if |hits| < count {
        TakenFull(msgs, q, count, done + 1);
      } else {
        assert Taken(msgs, q, count, done) == done + 1;
      }
    }
  }

  lemma FetchTake(rows: seq<Row>, offset: nat, limit: nat, n: nat)
    requires offset <= |rows| && n <= |Fetch(rows, offset, limit)|
    ensures offset + n <= |rows| && Fetch(rows, offset, limit)[..n] == rows[offset..offset + n]
  {
    var to := Min(offset + limit, |rows|);
    assert Fetch(rows, offset, limit) == rows[offset..to];
    assert rows[offset..to][..n] == rows[offset..offset + n];
  }

  /** A page holds the matches of the rows it takes, and is the last one only at the end. */
  lemma PageTakes(rows: seq<Row>, q: Query, count: nat, offset: nat) returns (next: nat)
    requires count > 0 && offset <= |rows|
    ensures offset <= next <= |rows|
    ensures var p := Page(rows, q, count, offset);
            && p.items == AllHits(rows[offset..next], q)
            && (p.nextFrom.Some? ==> p.nextFrom.value == next > offset)
            && (p.nextFrom.None? ==> next == |rows|)
  {
    var msgs := Fetch(rows, offset, FetchLimit(count));
    TakenBound(msgs, q, count, 0);
    TakenFull(msgs, q, count, 0);
    var n := Taken(msgs, q, count, 0);
    next := offset + n;
    FetchTake(rows, offset, FetchLimit(count), n);
  }

  /**
   Main result: the concatenated pages are exactly the matching attachments of the
   remaining rows, in order and each once, from wherever the walk starts.
   */
  lemma {:induction false} WalkIsComplete(rows: seq<Row>, q: Query, count: nat, offset: nat)
    requires count > 0 && offset <= |rows|
    ensures Walk(rows, q, count, offset) == AllHits(rows[offset..], q)
    decreases |rows| - offset
  {
    var next := PageTakes(rows, q, count, offset);
    var here, later := rows[offset..next], rows[next..];
    assert rows[offset..] == here + later;
    AllHitsConcat(here, later, q);
    if Page(rows, q, count, offset).nextFrom.Some? {
      WalkIsComplete(rows, q, count, next);
    } else {
      assert later == [];
    }
  }

  /**
   A page that is not full has looked at all rows left or at five times as many as asked for,
   500 at most; it is the last exactly when no row was left, or it is not full and fewer were.
   */
  lemma PageEndsExactly(rows: seq<Row>, q: Query, count: nat, offset: nat) returns (next: nat)
    requires count > 0 && offset <= |rows|
    ensures offset <= next <= |rows|
    ensures var p := Page(rows, q, count, offset);
            && p.items == AllHits(rows[offset..next], q)
            && (|p.items| < count ==> next - offset == Min(|rows| - offset, Min(5 * count, 500)))
            && (p.nextFrom.None? <==>
                offset == |rows| || (|p.items| < count && |rows| - offset < Min(5 * count, 500)))
            && (p.nextFrom.Some? ==> p.nextFrom.value == next)
  {
    var msgs := Fetch(rows, offset, FetchLimit(count));
    TakenBound(msgs, q, count, 0);
    TakenFull(msgs, q, count, 0);
    var n := Taken(msgs, q, count, 0);
    next := offset + n;
    FetchTake(rows, offset, FetchLimit(count), n);
  }

  /** No page is cut inside a message, and none goes on after it is full. */
  lemma PageIsTight(rows: seq<Row>, q: Query, count: nat, offset: nat)
    requires count > 0
    ensures var msgs := Fetch(rows, offset, FetchLimit(count));
            var n := Taken(msgs, q, count, 0);
            && n <= |msgs|
            && Page(rows, q, count, offset).items == AllHits(msgs[..n], q)
            && (n > 0 ==> |AllHits(msgs[..n - 1], q)| < count)
            && (n < |msgs| ==> |Page(rows, q, count, offset).items| >= count)
  {
    TakenFull(Fetch(rows, offset, FetchLimit(count)), q, count, 0);
  }
}
