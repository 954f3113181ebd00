/** The article listing as a client sees it: opaque cursors, handed back as they came. */
module EncodedWalk {
  import opened Wrappers
  import opened Keyset
  import opened Articles
  import opened Cursors

  /** How cursors are written and for which filters. */
  datatype Coding = Coding(codec: Codec, filtersKey: string)

  datatype TextResponse = Rejected | Listed(rows: seq<Key>, next: Option<string>, resultCount: nat)

  function EncodeNext(coding: Coding, sort: Sort, next: Cursor): string {
    match next
    case NewestCursor(at, id) => EncodeArticleCursor(coding.codec, sort, coding.filtersKey, 0, at, id)
    case ScoreCursor(score, at, id) => EncodeArticleCursor(coding.codec, sort, coding.filtersKey, score, at, id)
  }

  /** list_articles: decode the cursor, list, encode the next cursor. */
  function ListByText<A>(coding: Coding, store: Store<A>, filter: (nat, Item<A>) -> bool, sort: Sort,
                         token: Option<string>, limit: nat): TextResponse
    requires limit > 0
  {
    var cursor := if token.Some? then DecodeArticleCursor(coding.codec, token.value, sort, coding.filtersKey) else None;
    if token.Some? && cursor.None? then Rejected
    else
      match ListArticles(store, filter, sort, cursor, limit)
      case InvalidCursor => Rejected
      case Articles(rows, next, count) =>
        Listed(rows, if next.Some? then Some(EncodeNext(coding, sort, next.value)) else None, count)
  }

  /** Follow the texts; stores[i] is the database when the i-th page is requested. */
  function WalkByText<A>(coding: Coding, stores: seq<Store<A>>, filter: (nat, Item<A>) -> bool, sort: Sort,
                         token: Option<string>, limit: nat): ArticleWalk
    requires limit > 0
  {
    if stores == [] then ArticleWalk([], false)
    else
      match ListByText(coding, stores[0], filter, sort, token, limit)
      case Rejected => ArticleWalk([], false)
      case Listed(rows, next, _) =>
        if next.None? then ArticleWalk(Ids(rows), true)
        else
          var later := WalkByText(coding, stores[1..], filter, sort, next, limit);
          ArticleWalk(Ids(rows) + later.ids, later.finished)
  }

  function TokenOf(coding: Coding, sort: Sort, cursor: Option<Cursor>): Option<string> {
    if cursor.Some? then Some(EncodeNext(coding, sort, cursor.value)) else None
  }

  /** A cursor that fits the sort comes back from its text. */
  lemma TextReadsBack(coding: Coding, sort: Sort, cursor: Cursor)
    requires ArticleLaws(coding.codec) && CursorFits(sort, cursor)
    ensures DecodeArticleCursor(coding.codec, EncodeNext(coding, sort, cursor), sort, coding.filtersKey) == Some(cursor)
  {
    hide EncodeArticleCursor, DecodeArticleCursor;
    match cursor
    case NewestCursor(at, id) => ArticleCursorRoundTrip(coding.codec, sort, coding.filtersKey, 0, at, id);
    case ScoreCursor(score, at, id) => ArticleCursorRoundTrip(coding.codec, sort, coding.filtersKey, score, at, id);
  }

  /** A page asked for by text is the page asked for by cursor, with the next cursor as text. */
  lemma PageByText<A>(coding: Coding, store: Store<A>, filter: (nat, Item<A>) -> bool, sort: Sort,
                      cursor: Option<Cursor>, limit: nat)
    requires limit > 0 && ArticleLaws(coding.codec) && (cursor.Some? ==> CursorFits(sort, cursor.value))
    ensures var response := ListArticles(store, filter, sort, cursor, limit);
            && response.Articles? && (response.next.Some? ==> CursorFits(sort, response.next.value))
            && ListByText(coding, store, filter, sort, TokenOf(coding, sort, cursor), limit)
               == Listed(response.rows, TokenOf(coding, sort, response.next), response.resultCount)
  {
    hide ListArticles, EncodeNext, DecodeArticleCursor, ArticleLaws, PageOf, MatchingKeys, CursorFits;
    RequestIsPage(store, filter, sort, cursor, limit);
    if cursor.Some? { TextReadsBack(coding, sort, cursor.value); }
  }

  /** Walking by texts is walking by cursors. */
  lemma {:induction false} TextWalkIsWalk<A>(coding: Coding, stores: seq<Store<A>>, filter: (nat, Item<A>) -> bool, sort: Sort,
                                             cursor: Option<Cursor>, limit: nat)
    requires limit > 0 && ArticleLaws(coding.codec) && (cursor.Some? ==> CursorFits(sort, cursor.value))
    ensures WalkByText(coding, stores, filter, sort, TokenOf(coding, sort, cursor), limit)
         == WalkArticles(stores, filter, sort, cursor, limit)
  {
    hide ListArticles, ListByText, EncodeNext, ArticleLaws, CursorFits;
    if stores != [] {
      PageByText(coding, stores[0], filter, sort, cursor, limit);
      var response := ListArticles(stores[0], filter, sort, cursor, limit);
      if response.next.Some? { TextWalkIsWalk(coding, stores[1..], filter, sort, response.next, limit); }
    }
  }

  /** Whatever changes between the pages: an item that matches at every request with the same sort key is returned
      exactly once by a finished walk that hands back the opaque cursors. */
  lemma StableItemReturnedOnceByText<A>(coding: Coding, stores: seq<Store<A>>, filter: (nat, Item<A>) -> bool, sort: Sort,
                                        limit: nat, id: nat, key: Key)
    requires limit > 0 && ArticleLaws(coding.codec)
    requires WalkByText(coding, stores, filter, sort, None, limit).finished
    requires forall i :: 0 <= i < |stores| ==>
               id in stores[i] && Matches(filter, id, stores[i][id]) && SortKey(sort, id, stores[i][id]) == key
    ensures OccursOnce(WalkByText(coding, stores, filter, sort, None, limit).ids, id)
  {
    hide WalkByText, WalkArticles, ArticleLaws;
    TextWalkIsWalk(coding, stores, filter, sort, None, limit);
    StableItemReturnedOnce(stores, filter, sort, limit, id, key);
  }

  /** A request is rejected exactly when its text is no cursor of this sort and filter. */
  lemma RejectedExactly<A>(coding: Coding, store: Store<A>, filter: (nat, Item<A>) -> bool, sort: Sort,
                           token: Option<string>, limit: nat)
    requires limit > 0
    ensures ListByText(coding, store, filter, sort, token, limit) == Rejected <==>
              token.Some? && DecodeArticleCursor(coding.codec, token.value, sort, coding.filtersKey) == None
  {
    if token.Some? { DecodedFits(coding, sort, token.value); }
    var cursor := if token.Some? then DecodeArticleCursor(coding.codec, token.value, sort, coding.filtersKey) else None;
    hide DecodeArticleCursor, ListArticles, CursorFits, PageOf, MatchingKeys, EncodeNext;
    if !(token.Some? && cursor.None?) { RequestIsPage(store, filter, sort, cursor, limit); }
  }

  lemma DecodedFits(coding: Coding, sort: Sort, token: string)
    ensures var cursor := DecodeArticleCursor(coding.codec, token, sort, coding.filtersKey);
            cursor.Some? ==> CursorFits(sort, cursor.value)
  {}

  /** Whatever changes between the pages: every item a client collects was, at one of its requests, not cleared and
      passed the filter. */
  lemma WalkByTextPlainly<A>(coding: Coding, stores: seq<Store<A>>, filter: (nat, Item<A>) -> bool, sort: Sort, limit: nat, id: nat)
    requires limit > 0 && ArticleLaws(coding.codec) && id in WalkByText(coding, stores, filter, sort, None, limit).ids
    ensures exists i :: 0 <= i < |stores| && id in stores[i] && stores[i][id].clearedAt == None && filter(id, stores[i][id])
  {
    hide WalkByText, WalkArticles, ArticleLaws;
    TextWalkIsWalk(coding, stores, filter, sort, None, limit);
    WalkPlainly(stores, filter, sort, None, limit, id);
  }
}
