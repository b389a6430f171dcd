/**
 The blind word index (src/repo/search/indexations.go), its upkeep by sends and edits,
 and the two searches over it.  The keyed hash is a free constructor, hence injective;
 lower-casing is a parameter.
 */
module SearchIndex {
  import opened Wrappers

  datatype Digest = Digest(word: string)

  datatype Row = Row(messageID: nat, chatID: string, wordHash: Digest)

  // ---------------------------------------------------------------------------
  // Words

  predicate IsSpace(c: char) {
    || '\U{9}' <= c <= '\U{d}' || c == ' ' || c == '\U{85}' || c == '\U{a0}'
    || c == '\U{1680}' || '\U{2000}' <= c <= '\U{200a}' || c == '\U{2028}' || c == '\U{2029}'
    || c == '\U{202f}' || c == '\U{205f}' || c == '\U{3000}'
  }

  /** strings.Fields, with the word being read so far. */
  function FieldsFrom(s: string, word: string): seq<string> {
    if s == [] then (if word == [] then [] else [word])
    else if IsSpace(s[0]) then (if word == [] then [] else [word]) + FieldsFrom(s[1..], [])
    else FieldsFrom(s[1..], word + [s[0]])
  }

  function Fields(text: string): seq<string> {
    FieldsFrom(text, [])
  }

  /** s[i..j] is a run of non-space characters that cannot be longer. */
  predicate IsRun(s: string, i: nat, j: nat) {
    && i < j <= |s|
    && (forall k :: i <= k < j ==> !IsSpace(s[k]))
    && (i == 0 || IsSpace(s[i - 1]))
    && (j == |s| || IsSpace(s[j]))
  }

  datatype Span = Span(start: nat, end: nat)

  /** The spans cut out the words, left to right, and each is a longest run. */
  ghost predicate CutsOut(s: string, spans: seq<Span>, words: seq<string>) {
    && |spans| == |words|
    && (forall n :: 0 <= n < |spans| ==> IsRun(s, spans[n].start, spans[n].end))
    && (forall n :: 0 <= n < |spans| ==> words[n] == s[spans[n].start..spans[n].end])
    && (forall n, m :: 0 <= n < m < |spans| ==> spans[n].end < spans[m].start)
  }

  ghost predicate AllRunsFrom(s: string, b: nat, spans: seq<Span>) {
    && (forall i: nat, j: nat :: b <= i && IsRun(s, i, j) ==> Span(i, j) in spans)
    && forall x :: x in spans ==> b <= x.start
  }

  /** A run that starts inside a word being read starts where the word does, and ends where it does. */
  lemma RunOfWord(s: string, b: nat, p: nat, i: nat, j: nat)
    requires b <= p <= |s| && (forall k :: b <= k < p ==> !IsSpace(s[k]))
    requires p == |s| || IsSpace(s[p])
    requires IsRun(s, i, j) && b <= i
    ensures i >= p + 1 || (i == b && j == p)
  {
  }

  lemma SpansCons(s: string, x: Span, spans: seq<Span>, words: seq<string>)
    requires CutsOut(s, spans, words) && IsRun(s, x.start, x.end)
    requires forall y :: y in spans ==> x.end < y.start
    ensures CutsOut(s, [x] + spans, [s[x.start..x.end]] + words)
  {
  }

  /** The word s[b..p], if there is one, before the later ones. */
  function Extended(b: nat, p: nat, later: seq<Span>): seq<Span> {
    if b < p then [Span(b, p)] + later else later
  }

  lemma RunsFrom(s: string, b: nat, p: nat, later: seq<Span>)
    requires b <= p <= |s| && (forall k :: b <= k < p ==> !IsSpace(s[k]))
    requires p == |s| || IsSpace(s[p])
    requires AllRunsFrom(s, p + 1, later)
    ensures AllRunsFrom(s, b, Extended(b, p, later))
  {
    forall i: nat, j: nat | b <= i && IsRun(s, i, j) ensures i >= p + 1 || (i == b < p && j == p) {
      RunOfWord(s, b, p, i, j);
    }
  }

  lemma CutsExtended(s: string, b: nat, p: nat, later: seq<Span>, words: seq<string>)
    requires b <= p <= |s| && (forall k :: b <= k < p ==> !IsSpace(s[k]))
    requires (p == |s| || IsSpace(s[p])) && (b == 0 || IsSpace(s[b - 1]))
    requires CutsOut(s, later, words) && AllRunsFrom(s, p + 1, later)
    ensures CutsOut(s, Extended(b, p, later), (if b < p then [s[b..p]] else []) + words)
  {
    if b < p {
      SpansCons(s, Span(b, p), later, words);
    } else {
      assert [] + words == words;
    }
  }

  lemma FieldsUnfold(s: string, b: nat, p: nat)
    requires b <= p <= |s|
    ensures FieldsFrom(s[p..], s[b..p]) ==
            if p < |s| && !IsSpace(s[p]) then FieldsFrom(s[p + 1..], s[b..p + 1])
            else (if b < p then [s[b..p]] else []) + (if p < |s| then FieldsFrom(s[p + 1..], []) else [])
  {
    if p < |s| {
      assert s[b..p] + [s[p]] == s[b..p + 1] && s[p..][1..] == s[p + 1..];
    }
  }

  /** The words read from position p on, s[b..p] being the beginning of the first. */
  lemma {:induction false} FieldsFromSpans(s: string, b: nat, p: nat) returns (spans: seq<Span>)
    requires b <= p <= |s| && (forall k :: b <= k < p ==> !IsSpace(s[k]))
    requires b == 0 || IsSpace(s[b - 1])
    ensures CutsOut(s, spans, FieldsFrom(s[p..], s[b..p]))
    ensures AllRunsFrom(s, b, spans)
    decreases |s| - p
  {
    FieldsUnfold(s, b, p);
    if p < |s| && !IsSpace(s[p]) {
      spans := FieldsFromSpans(s, b, p + 1);
    } else {
      var later := [];
      if p < |s| {
        later := FieldsFromSpans(s, p + 1, p + 1);
        assert s[p + 1..p + 1] == [];
      }
      RunsFrom(s, b, p, later);
      CutsExtended(s, b, p, later, if p < |s| then FieldsFrom(s[p + 1..], []) else []);
      spans := Extended(b, p, later);
    }
  }

  /** The words of a text are its longest runs of non-space characters: all of them, in order. */
  lemma FieldsAreRuns(text: string) returns (spans: seq<Span>)
    ensures CutsOut(text, spans, Fields(text))
    ensures forall i: nat, j: nat :: IsRun(text, i, j) ==> Span(i, j) in spans
  {
    spans := FieldsFromSpans(text, 0, 0);
    assert text[0..] == text && text[0..0] == [];
  }

  /** strings.ToLower: any lower-casing of words that changes nothing the second time. */
  type LowerCase = f: string -> string | Idempotent(f) witness (w: string) => w

  ghost predicate Idempotent(f: string -> string) {
    forall w :: f(f(w)) == f(w)
  }

  function Utf8Width(c: char): nat {
    if c < '\U{80}' then 1 else if c < '\U{800}' then 2 else if c < '\U{10000}' then 3 else 4
  }

  /** len(word) in Go counts bytes. */
  function ByteLength(word: string): nat {
    if word == [] then 0 else Utf8Width(word[0]) + ByteLength(word[1..])
  }

  lemma ByteLengthBounds(word: string)
    ensures ByteLength(word) >= |word|
  {
  }

  /** A word is long enough unless it is empty or a single ASCII character. */
  lemma LongExactly(word: string)
    ensures ByteLength(word) >= 2 <==> |word| >= 2 || (|word| == 1 && word[0] >= '\U{80}')
  {
    ByteLengthBounds(word);
    assert |word| == 1 ==> ByteLength(word[1..]) == 0;
  }

  function HashWord(lower: LowerCase, word: string): Digest {
    Digest(lower(word))
  }

  lemma LowerTwice(lower: LowerCase, word: string)
    ensures lower(lower(word)) == lower(word)
  {
  }

  /** The lower-cased words of a word list that the index keeps. */
  function KeptWords(lower: LowerCase, words: seq<string>): set<string> {
    set w | w in words && ByteLength(lower(w)) >= 2 :: lower(w)
  }

  function IndexRows(lower: LowerCase, messageID: nat, chatID: string, text: string): set<Row> {
    set w | w in KeptWords(lower, Fields(text)) :: Row(messageID, chatID, Digest(w))
  }

  ghost predicate NoDuplicates<T>(s: seq<T>) {
    forall i, j :: 0 <= i < j < |s| ==> s[i] != s[j]
  }

  method GenerateBlindIndexes(lower: LowerCase, messageID: nat, chatID: string, text: string)
    returns (indexes: seq<Row>)
    ensures NoDuplicates(indexes)
    ensures (set r | r in indexes) == IndexRows(lower, messageID, chatID, text)
  {
    var words := Fields(text);
    indexes := [];
    var seen: set<string> := {};
    for i := 0 to |words|
      invariant NoDuplicates(indexes)
      invariant seen == KeptWords(lower, words[..i])
      invariant forall r :: r in indexes <==>
                  r.messageID == messageID && r.chatID == chatID && r.wordHash.word in seen
    {
      assert words[..i + 1] == words[..i] + [words[i]];
      var word := lower(words[i]);
      LowerTwice(lower, words[i]);
      if word in seen || ByteLength(word) < 2 {
        continue;
      }
      indexes := indexes + [Row(messageID, chatID, HashWord(lower, word))];
      seen := seen + {word};
    }
    assert words[..|words|] == words;
    forall r ensures r in indexes <==> r in IndexRows(lower, messageID, chatID, text) {
      assert r == Row(r.messageID, r.chatID, Digest(r.wordHash.word));
    }
  }

  // ---------------------------------------------------------------------------
  // Queries

  /** SELECT message_id ... WHERE word_hash IN hashes GROUP BY message_id HAVING COUNT(DISTINCT word_hash) = want. */
  function CountingQuery(index: set<Row>, hashes: set<Digest>, want: nat): set<nat> {
    set r | r in index && r.wordHash in hashes
            && |Matched(index, r.messageID, hashes)| == want :: r.messageID
  }

  function Matched(index: set<Row>, messageID: nat, hashes: set<Digest>): set<Digest> {
    set r | r in index && r.messageID == messageID && r.wordHash in hashes :: r.wordHash
  }

  function InChat(index: set<Row>, chatID: string): set<Row> {
    set r | r in index && r.chatID == chatID
  }

  function AllHashes(lower: LowerCase, words: seq<string>): set<Digest> {
    set w | w in words :: HashWord(lower, w)
  }

  function KeptHashes(lower: LowerCase, words: seq<string>): set<Digest> {
    set w | w in KeptWords(lower, words) :: Digest(w)
  }

  /** What messages.search asks inside one chat: one-byte words stay in the query. */
  function SearchInChat(lower: LowerCase, index: set<Row>, chatID: string, query: string): set<nat> {
    var hashes := AllHashes(lower, Fields(query));
    if Fields(query) == [] then {} else CountingQuery(InChat(index, chatID), hashes, |hashes|)
  }

  lemma DistinctCardinality<T>(s: seq<T>)
    requires NoDuplicates(s)
    ensures |set x | x in s| == |s|
    decreases |s|
  {
    if s != [] {
      var front := s[..|s| - 1];
      DistinctCardinality(front);
      assert (set x | x in s) == (set x | x in front) + {s[|s| - 1]};
    }
  }

  method SearchMessages(lower: LowerCase, index: set<Row>, chatID: string, query: string) returns (ids: set<nat>)
    ensures ids == SearchInChat(lower, index, chatID, query)
  {
    var words := Fields(query);
    if |words| == 0 {
      return {};
    }
    var hashes: seq<Digest> := [];
    var seen: set<string> := {};
    for i := 0 to |words|
      invariant NoDuplicates(hashes)
      invariant forall w :: w in seen <==> exists j :: 0 <= j < i && w == lower(words[j])
      invariant forall d :: d in hashes <==> d.word in seen
    {
      var word := lower(words[i]);
      LowerTwice(lower, words[i]);
      if word !in seen {
        hashes := hashes + [HashWord(lower, word)];
        seen := seen + {word};
      }
    }
    var distinct := set d | d in hashes;
    assert distinct == AllHashes(lower, words) by {
      forall d ensures d in distinct <==> d in AllHashes(lower, words) {
        if d in distinct {
          var j :| 0 <= j < |words| && d.word == lower(words[j]);
          assert d == HashWord(lower, words[j]);
        }
      }
    }
    DistinctCardinality(hashes);
    ids := CountingQuery(InChat(index, chatID), distinct, |hashes|);
  }

  /** The hash list of the searches over all chats of a user: one-byte words are dropped. */
  method PrepareHashes(lower: LowerCase, query: string) returns (hashes: seq<Digest>)
    ensures NoDuplicates(hashes)
    ensures (set d | d in hashes) == KeptHashes(lower, Fields(query))
  {
    var words := Fields(query);
    hashes := [];
    var seen: set<string> := {};
    for i := 0 to |words|
      invariant NoDuplicates(hashes)
      invariant seen == KeptWords(lower, words[..i])
      invariant forall d :: d in hashes <==> d.word in seen
    {
      assert words[..i + 1] == words[..i] + [words[i]];
      var word := lower(words[i]);
      LowerTwice(lower, words[i]);
      if word !in seen && ByteLength(word) >= 2 {
        hashes := hashes + [HashWord(lower, word)];
        seen := seen + {word};
      }
    }
    assert words[..|words|] == words;
    forall d ensures d in hashes <==> d in KeptHashes(lower, words) {
      assert d == Digest(d.word);
    }
  }

  /** Having as many distinct matches as there are hashes is having them all. */
  lemma CountingMeansAll(index: set<Row>, hashes: set<Digest>, messageID: nat)
    requires hashes != {}
    ensures messageID in CountingQuery(index, hashes, |hashes|) <==>
            forall d :: d in hashes ==> exists c :: Row(messageID, c, d) in index
  {
    var m := Matched(index, messageID, hashes);
    forall d | d in hashes ensures d in m <==> exists c :: Row(messageID, c, d) in index {
      if c :| Row(messageID, c, d) in index {
        assert Row(messageID, c, d).wordHash in m;
      }
      if d in m {
        var r :| r in index && r.messageID == messageID && r.wordHash == d;
        assert r == Row(messageID, r.chatID, d);
      }
    }
    assert m <= hashes;
    if |m| == |hashes| {
      SubsetOfSameSize(m, hashes);
    }
    assert hashes <= m <==> m == hashes;
    var d :| d in hashes;
    assert d in m ==> exists r :: r in index && r.messageID == messageID && r.wordHash == d;
  }

  lemma SubsetOfSameSize<T>(a: set<T>, b: set<T>)
    requires a <= b && |a| == |b|
    ensures a == b
  {
    if x :| x in b && x !in a {
      SubsetSize(a, b - {x});
    }
  }

  lemma SubsetSize<T>(a: set<T>, b: set<T>)
    requires a <= b
    ensures |a| <= |b|
  {
    if a != {} {
      var x :| x in a;
      SubsetSize(a - {x}, b - {x});
    }
  }

  // ---------------------------------------------------------------------------
  // Sends and edits

  /** `indexed` is false for a service message until its author edits it. */
  datatype Stored = Stored(chatID: string, text: string, indexed: bool)

  datatype Table = Table(messages: map<nat, Stored>, index: set<Row>)

  datatype Op =
    | Send(id: nat, chatID: string, text: string)
    | Service(id: nat, chatID: string, text: string)
    | EditText(id: nat, text: string)
    | EditOther(id: nat)  // an edit request without a text parameter

  predicate Possible(t: Table, op: Op) {
    match op
    case Send(id, _, _) => id !in t.messages
    case Service(id, _, _) => id !in t.messages
    case EditText(id, _) => id in t.messages
    case EditOther(id) => id in t.messages
  }

  function Apply(lower: LowerCase, t: Table, op: Op): Table
    requires Possible(t, op)
  {
    match op
    case Send(id, chatID, text) =>
      Table(t.messages[id := Stored(chatID, text, true)], t.index + IndexRows(lower, id, chatID, text))
    case Service(id, chatID, text) =>
      t.(messages := t.messages[id := Stored(chatID, text, false)])
    case EditText(id, text) =>
      var chatID := t.messages[id].chatID;
      Table(t.messages[id := Stored(chatID, text, true)],
            (set r | r in t.index && r.messageID != id) + IndexRows(lower, id, chatID, text))
    case EditOther(id) => t
  }

  function Run(lower: LowerCase, ops: seq<Op>): Table {
    if ops == [] then Table(map[], {})
    else
      var t := Run(lower, ops[..|ops| - 1]);
      var op := ops[|ops| - 1];
      if Possible(t, op) then Apply(lower, t, op) else t
  }

  class MessageTable {
    const lower: LowerCase
    var messages: map<nat, Stored>
    var index: set<Row>

    ghost function Value(): Table
      reads this
    {
      Table(messages, index)
    }

    constructor (lower: LowerCase)
      ensures this.lower == lower && Value() == Table(map[], {})
    {
      this.lower := lower;
      messages, index := map[], {};
    }

    /** The index part of the posting transaction: an empty text writes no rows. */
    method SendMessage(id: nat, chatID: string, text: string)
      requires id !in messages
      modifies this
      ensures Value() == Apply(lower, old(Value()), Send(id, chatID, text))
    {
      messages := messages[id := Stored(chatID, text, true)];
      if text != "" {
        var indexes := GenerateBlindIndexes(lower, id, chatID, text);
        index := index + (set r | r in indexes);
      } else {
        assert IndexRows(lower, id, chatID, text) == {};
      }
    }

    method CreateServiceMessage(id: nat, chatID: string, text: string)
      requires id !in messages
      modifies this
      ensures Value() == Apply(lower, old(Value()), Service(id, chatID, text))
    {
      messages := messages[id := Stored(chatID, text, false)];
    }

    /** Edit replaces text and rows together, or touches neither. */
    method Edit(id: nat, newText: Option<string>)
      requires id in messages
      modifies this
      ensures Value()
              == Apply(lower, old(Value()), if newText.Some? then EditText(id, newText.value) else EditOther(id))
    {
      if newText.Some? {
        var chatID := messages[id].chatID;
        messages := messages[id := Stored(chatID, newText.value, true)];
        index := set r | r in index && r.messageID != id;
        var indexes := GenerateBlindIndexes(lower, id, chatID, newText.value);
        index := index + (set r | r in indexes);
      }
    }
  }

  ghost predicate IndexExact(lower: LowerCase, t: Table) {
    && (forall r :: r in t.index ==> r.messageID in t.messages)
    && forall id: nat, r: Row :: id in t.messages && r.messageID == id ==>
         (r in t.index <==>
          t.messages[id].indexed && r in IndexRows(lower, id, t.messages[id].chatID, t.messages[id].text))
  }

  /** Over every run each message's rows are exactly the kept words of its current text. */
  lemma {:induction false} IndexFollowsText(lower: LowerCase, ops: seq<Op>)
    ensures IndexExact(lower, Run(lower, ops))
  {
    if ops != [] {
      IndexFollowsText(lower, ops[..|ops| - 1]);
    }
  }

  /** What a send, a service message or an edit with a text leaves stored. */
  function Leaves(before: Table, op: Op): Stored
    requires Possible(before, op) && !op.EditOther?
  {
    match op
    case Send(_, chatID, text) => Stored(chatID, text, true)
    case Service(_, chatID, text) => Stored(chatID, text, false)
    case EditText(id, text) => Stored(before.messages[id].chatID, text, true)
  }

  /** The last of these to concern a message decides: its chat, its text, and whether it is indexed. */
  lemma {:induction false} LastTextCounts(lower: LowerCase, ops: seq<Op>, k: nat)
    requires k < |ops| && Possible(Run(lower, ops[..k]), ops[k]) && !ops[k].EditOther?
    requires forall j :: k < j < |ops| ==> !(ops[j].EditText? && ops[j].id == ops[k].id)
    ensures var t := Run(lower, ops);
            ops[k].id in t.messages && t.messages[ops[k].id] == Leaves(Run(lower, ops[..k]), ops[k])
  {
    var n := |ops| - 1;
    if k < n {
      assert ops[..n][..k] == ops[..k];
      LastTextCounts(lower, ops[..n], k);
    }
  }

  // ---------------------------------------------------------------------------
  // Search against a direct reading of the texts

  predicate HasWord(lower: LowerCase, text: string, word: string) {
    exists v :: v in Fields(text) && lower(v) == lower(word)
  }

  predicate HasEveryWord(lower: LowerCase, text: string, query: string) {
    forall w :: w in Fields(query) ==> HasWord(lower, text, w)
  }

  predicate AllWordsLong(lower: LowerCase, query: string) {
    forall w :: w in Fields(query) ==> ByteLength(lower(w)) >= 2
  }

  /** The direct test: the indexed messages of the chat that contain every query word. */
  function Matching(lower: LowerCase, t: Table, chatID: string, query: string): set<nat> {
    set id | id in t.messages && t.messages[id].chatID == chatID && t.messages[id].indexed
             && HasEveryWord(lower, t.messages[id].text, query)
  }

  lemma RowMeansWord(lower: LowerCase, t: Table, id: nat, chatID: string, w: string)
    requires IndexExact(lower, t)
    ensures Row(id, chatID, HashWord(lower, w)) in t.index <==>
            && id in t.messages && t.messages[id].chatID == chatID && t.messages[id].indexed
            && ByteLength(lower(w)) >= 2 && HasWord(lower, t.messages[id].text, w)
  {
    var r := Row(id, chatID, HashWord(lower, w));
    if id in t.messages {
      var text := t.messages[id].text;
      assert r in IndexRows(lower, id, t.messages[id].chatID, text) <==>
             chatID == t.messages[id].chatID && lower(w) in KeptWords(lower, Fields(text));
    }
  }

  lemma SearchInChatSpec(lower: LowerCase, t: Table, chatID: string, query: string, id: nat)
    requires IndexExact(lower, t) && Fields(query) != []
    ensures id in SearchInChat(lower, t.index, chatID, query) <==>
            id in Matching(lower, t, chatID, query) && AllWordsLong(lower, query)
  {
    var words := Fields(query);
    var hashes := AllHashes(lower, words);
    assert HashWord(lower, words[0]) in hashes;
    CountingMeansAll(InChat(t.index, chatID), hashes, id);
    forall w | w in words
      ensures (exists c :: Row(id, c, HashWord(lower, w)) in InChat(t.index, chatID)) <==>
              Row(id, chatID, HashWord(lower, w)) in t.index
    {
    }
    forall w | w in words ensures HashWord(lower, w) in hashes {
    }
    forall w | w in words {
      RowMeansWord(lower, t, id, chatID, w);
    }
    assert words[0] in words;
  }

  lemma SearchIsMatching(lower: LowerCase, t: Table, chatID: string, query: string)
    requires IndexExact(lower, t)
    requires Fields(query) != [] && AllWordsLong(lower, query)
    ensures SearchInChat(lower, t.index, chatID, query) == Matching(lower, t, chatID, query)
  {
    forall id ensures id in SearchInChat(lower, t.index, chatID, query) <==> id in Matching(lower, t, chatID, query) {
      SearchInChatSpec(lower, t, chatID, query, id);
    }
  }

  ghost predicate SearchAgreesAlways(lower: LowerCase, query: string) {
    forall ops, chatID ::
      SearchInChat(lower, Run(lower, ops).index, chatID, query) == Matching(lower, Run(lower, ops), chatID, query)
  }

  /**
   Exactly when: in-chat search agrees with the direct test, over every run and chat, if and
   only if all query words have at least two bytes.  A one-byte word is never indexed but
   stays in the query, so nothing is found, not even a message whose text is the query.
   */
  lemma SearchAgreesExactly(lower: LowerCase, query: string)
    ensures SearchAgreesAlways(lower, query) <==> Fields(query) != [] && AllWordsLong(lower, query)
  {
    if Fields(query) != [] && AllWordsLong(lower, query) {
      forall ops, chatID
        ensures SearchInChat(lower, Run(lower, ops).index, chatID, query)
                == Matching(lower, Run(lower, ops), chatID, query)
      {
        IndexFollowsText(lower, ops);
        SearchIsMatching(lower, Run(lower, ops), chatID, query);
      }
    } else {
      var ops := [Send(1, "c1", query)];
      assert ops[..|ops| - 1] == [] && Run(lower, []) == Table(map[], {});
      assert Possible(Run(lower, []), ops[0]);
      var t := Run(lower, ops);
      assert t == Apply(lower, Table(map[], {}), ops[0]);
      IndexFollowsText(lower, ops);
      assert t.messages == map[1 := Stored("c1", query, true)];
      assert 1 in Matching(lower, t, "c1", query);
      if Fields(query) != [] {
        SearchInChatSpec(lower, t, "c1", query, 1);
      }
      assert SearchInChat(lower, t.index, "c1", query) != Matching(lower, t, "c1", query);
    }
  }

  function InChats(index: set<Row>, chats: set<string>): set<Row> {
    set r | r in index && r.chatID in chats
  }

  /** What messages.search asks over the chats of a member: one-byte words are dropped. */
  function SearchInChats(lower: LowerCase, index: set<Row>, chats: set<string>, query: string): set<nat> {
    var hashes := KeptHashes(lower, Fields(query));
    if hashes == {} then {} else CountingQuery(InChats(index, chats), hashes, |hashes|)
  }

  /** What it asks for the system caller: the same over every chat. */
  function SearchEverywhere(lower: LowerCase, index: set<Row>, query: string): set<nat> {
    var hashes := KeptHashes(lower, Fields(query));
    if hashes == {} then {} else CountingQuery(index, hashes, |hashes|)
  }

  /** Every query word of at least two bytes, and there is one, occurs in the text. */
  predicate HasEveryLongWord(lower: LowerCase, text: string, query: string) {
    && KeptHashes(lower, Fields(query)) != {}
    && forall w :: w in Fields(query) && ByteLength(lower(w)) >= 2 ==> HasWord(lower, text, w)
  }

  /** The search over a member's chats finds exactly the indexed messages there that have every long query word. */
  lemma MemberSearchFindsExactly(lower: LowerCase, ops: seq<Op>, chats: set<string>, query: string, id: nat)
    ensures var t := Run(lower, ops);
            id in SearchInChats(lower, t.index, chats, query) <==>
            && id in t.messages && t.messages[id].indexed && t.messages[id].chatID in chats
            && HasEveryLongWord(lower, t.messages[id].text, query)
  {
    var t := Run(lower, ops);
    var words := Fields(query);
    var hashes := KeptHashes(lower, words);
    IndexFollowsText(lower, ops);
    if hashes != {} {
      CountingMeansAll(InChats(t.index, chats), hashes, id);
      forall d | d in hashes
        ensures (exists c :: Row(id, c, d) in InChats(t.index, chats)) <==>
                && id in t.messages && t.messages[id].indexed && t.messages[id].chatID in chats
                && HasWord(lower, t.messages[id].text, d.word)
      {
        KeptRow(lower, t, chats, id, words, d.word);
      }
      KeptWordsCovered(lower, if id in t.messages then t.messages[id].text else "", words);
      var d :| d in hashes;
    }
  }

  /** The same for the search over all chats. */
  lemma GlobalSearchFindsExactly(lower: LowerCase, ops: seq<Op>, query: string, id: nat)
    ensures var t := Run(lower, ops);
            id in SearchEverywhere(lower, t.index, query) <==>
            && id in t.messages && t.messages[id].indexed
            && HasEveryLongWord(lower, t.messages[id].text, query)
  {
    var t := Run(lower, ops);
    var chats := (set r | r in t.index :: r.chatID)
                 + (if id in t.messages then {t.messages[id].chatID} else {});
    MemberSearchFindsExactly(lower, ops, chats, query, id);
    assert InChats(t.index, chats) == t.index;
  }

  /** A service message that was never edited is not indexed, and no search by text finds it. */
  lemma UnindexedNeverFound(lower: LowerCase, ops: seq<Op>, chatID: string, chats: set<string>, query: string, id: nat)
    requires id in Run(lower, ops).messages && !Run(lower, ops).messages[id].indexed
    ensures id !in SearchInChat(lower, Run(lower, ops).index, chatID, query)
    ensures id !in SearchInChats(lower, Run(lower, ops).index, chats, query)
  {
    IndexFollowsText(lower, ops);
    MemberSearchFindsExactly(lower, ops, chats, query, id);
    if Fields(query) != [] {
      SearchInChatSpec(lower, Run(lower, ops), chatID, query, id);
    }
  }

  lemma KeptRow(lower: LowerCase, t: Table, chats: set<string>, id: nat, words: seq<string>, w: string)
    requires IndexExact(lower, t) && w in KeptWords(lower, words)
    ensures (exists c :: Row(id, c, Digest(w)) in InChats(t.index, chats)) <==>
            && id in t.messages && t.messages[id].indexed && t.messages[id].chatID in chats
            && HasWord(lower, t.messages[id].text, w)
  {
    var v :| v in words && w == lower(v);
    LowerTwice(lower, v);
    assert HashWord(lower, w) == Digest(w);
    forall c ensures Row(id, c, Digest(w)) in t.index ==> id in t.messages && c == t.messages[id].chatID {
      RowMeansWord(lower, t, id, c, w);
    }
    if id in t.messages {
      var chatID := t.messages[id].chatID;
      RowMeansWord(lower, t, id, chatID, w);
      assert Row(id, chatID, Digest(w)) in InChats(t.index, chats) <==>
             Row(id, chatID, Digest(w)) in t.index && chatID in chats;
    }
  }

  lemma KeptWordsCovered(lower: LowerCase, text: string, words: seq<string>)
    ensures (forall d :: d in KeptHashes(lower, words) ==> HasWord(lower, text, d.word)) <==>
            forall w :: w in words && ByteLength(lower(w)) >= 2 ==> HasWord(lower, text, w)
  {
    forall w ensures HasWord(lower, text, lower(w)) <==> HasWord(lower, text, w) {
      LowerTwice(lower, w);
    }
    forall w | w in words && ByteLength(lower(w)) >= 2 ensures Digest(lower(w)) in KeptHashes(lower, words) {
      assert lower(w) in KeptWords(lower, words);
    }
  }
}
