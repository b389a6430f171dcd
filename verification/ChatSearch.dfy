/**
 What a member of a group chat finds by searching it (messages.search with a chat): the
 word index and the visibility filter together, over every run of the chat and of the
 texts.
 */
module ChatSearch {
  import opened Wrappers
  import opened ChatModel
  import opened ChatHistory
  import opened ChatPresence
  import Search = SearchIndex

  /** The messages the search answer holds: id IN (index hits), then the visibility filter. */
  function Hits(c: Chat, u: int, ids: set<nat>): set<Msg> {
    set m | m in c.msgs && m.id in ids && Visible(c, u, m)
  }

  /** The text stored for a row of this chat is indexed and has every word of the query. */
  predicate TextMatches(lower: Search.LowerCase, t: Search.Table, chatID: string, query: string, id: nat) {
    && id in t.messages && t.messages[id].chatID == chatID && t.messages[id].indexed
    && Search.HasEveryWord(lower, t.messages[id].text, query)
  }

  lemma IndexHits(lower: Search.LowerCase, ops: seq<Search.Op>, chatID: string, query: string, id: nat)
    requires Search.Fields(query) != [] && Search.AllWordsLong(lower, query)
    ensures var t := Search.Run(lower, ops);
            id in Search.SearchInChat(lower, t.index, chatID, query) <==> TextMatches(lower, t, chatID, query, id)
  {
    Search.IndexFollowsText(lower, ops);
    Search.SearchIsMatching(lower, Search.Run(lower, ops), chatID, query);
  }

  /**
   Main result: the search in a chat finds message n for a user, member or not, exactly when
   its text has every query word and the filter should let the user see it.  All query words
   have two bytes or more.
   */
  lemma SearchFindsExactly(
    lower: Search.LowerCase, ops: seq<Search.Op>, chatID: string, query: string, r: Run, u: int, n: nat)
    requires Search.Fields(query) != [] && Search.AllWordsLong(lower, query)
    requires Created(r) && 1 <= n <= |After(r).trace|
    ensures var w, t := After(r), Search.Run(lower, ops);
            && |w.trace| == |w.chat.msgs|
            && var m := w.chat.msgs[n - 1];
               (m in Hits(w.chat, u, Search.SearchInChat(lower, t.index, chatID, query)) <==>
                 TextMatches(lower, t, chatID, query, m.id) && MaySee(w, u, n))
  {
    var w, t := After(r), Search.Run(lower, ops);
    VisibleExactly(r, u, n);
    var m := w.chat.msgs[n - 1];
    var ids := Search.SearchInChat(lower, t.index, chatID, query);
    IndexHits(lower, ops, chatID, query, m.id);
    HitsHas(w.chat, u, ids, n - 1);
  }

  /**
   The search asks for no membership: a user who never was in the chat finds every message
   of it with a matching text, up to deletions.
   */
  lemma OutsiderFindsExactly(
    lower: Search.LowerCase, ops: seq<Search.Op>, chatID: string, query: string, r: Run, u: int, n: nat)
    requires Search.Fields(query) != [] && Search.AllWordsLong(lower, query)
    requires Created(r) && 1 <= n <= |After(r).trace|
    requires u != 0 && u !in After(r).chat.members
    ensures var w, t := After(r), Search.Run(lower, ops);
            && |w.trace| == |w.chat.msgs|
            && var m := w.chat.msgs[n - 1];
               (m in Hits(w.chat, u, Search.SearchInChat(lower, t.index, chatID, query)) <==>
                 TextMatches(lower, t, chatID, query, m.id) && m.deletedAt.None? && (u, n) !in w.chat.deleted)
  {
    SearchFindsExactly(lower, ops, chatID, query, r, u, n);
    OutsiderSeesExactly(r, u, n);
    VisibleExactly(r, u, n);
  }

  lemma HitsHas(c: Chat, u: int, ids: set<nat>, i: nat)
    requires i < |c.msgs|
    ensures c.msgs[i] in Hits(c, u, ids) <==> c.msgs[i].id in ids && Visible(c, u, c.msgs[i])
  {
    assert c.msgs[i] in c.msgs;
  }
}
