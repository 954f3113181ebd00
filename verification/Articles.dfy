/** The article listing: a filter, two sort orders, and a keyset cursor. */
module Articles {
  import opened Wrappers
  import opened Keyset

  /** A content item; `content` stands for everything a filter can look at besides the sort columns. */
  datatype Item<+A> = Item(publishedAt: Option<int>, sortAt: int, score: int, clearedAt: Option<int>, content: A)

  type Store<+A> = map<nat, Item<A>>

  datatype Sort = Newest | Score

  datatype Cursor = NewestCursor(at: int, id: nat) | ScoreCursor(score: int, at: int, id: nat)

  /** coalesce(published_at, sort_at) */
  function DisplayAt<A>(item: Item<A>): int {
    if item.publishedAt.Some? then item.publishedAt.value else item.sortAt
  }

  predicate Active<A>(item: Item<A>) { item.clearedAt.None? }

  predicate Matches<A>(filter: (nat, Item<A>) -> bool, id: nat, item: Item<A>) { Active(item) && filter(id, item) }

  predicate CursorFits(sort: Sort, cursor: Cursor) { sort.Newest? <==> cursor.NewestCursor? }

  /** The WHERE clause a cursor adds. */
  predicate BehindCursor<A>(cursor: Cursor, id: nat, item: Item<A>) {
    match cursor
    case NewestCursor(at, last) =>
      DisplayAt(item) < at || (DisplayAt(item) == at && id < last)
    case ScoreCursor(score, at, last) =>
      || item.score < score
      || (item.score == score && DisplayAt(item) < at)
      || (item.score == score && DisplayAt(item) == at && id < last)
  }

  /** The columns of the ORDER BY clause. */
  function SortKey<A>(sort: Sort, id: nat, item: Item<A>): Key {
    match sort
    case Newest => Key(DisplayAt(item), 0, id)
    case Score => Key(item.score, DisplayAt(item), id)
  }

  function CursorOfRow(sort: Sort, row: Key): Cursor {
    match sort
    case Newest => NewestCursor(row.major, row.id)
    case Score => ScoreCursor(row.major, row.minor, row.id)
  }

  datatype Response = InvalidCursor | Articles(rows: seq<Key>, next: Option<Cursor>, resultCount: nat)

  function MatchingKeys<A>(store: Store<A>, filter: (nat, Item<A>) -> bool, sort: Sort): set<Key> {
    set id | id in store && Matches(filter, id, store[id]) :: SortKey(sort, id, store[id])
  }

  function MatchingIds<A>(store: Store<A>, filter: (nat, Item<A>) -> bool): set<nat> {
    set id | id in store && Matches(filter, id, store[id])
  }

  function SelectedKeys<A>(store: Store<A>, filter: (nat, Item<A>) -> bool, sort: Sort, cursor: Option<Cursor>): set<Key> {
    set id | id in store && Matches(filter, id, store[id])
             && (cursor.Some? ==> BehindCursor(cursor.value, id, store[id])) :: SortKey(sort, id, store[id])
  }

  /** One request: count_statement, then list_statement with LIMIT limit + 1, then the slice. */
  function ListArticles<A>(store: Store<A>, filter: (nat, Item<A>) -> bool, sort: Sort, cursor: Option<Cursor>,
                           limit: nat): Response
    requires limit > 0
  {
    if cursor.Some? && !CursorFits(sort, cursor.value) then InvalidCursor
    else
      var rows := Take(Listing(SelectedKeys(store, filter, sort, cursor)), limit + 1);
      var page := Take(rows, limit);
      Articles(page, if |rows| > limit then Some(CursorOfRow(sort, page[|page| - 1])) else None,
               |MatchingIds(store, filter)|)
  }

  datatype ArticleWalk = ArticleWalk(ids: seq<nat>, finished: bool)

  /** Follow next cursors; stores[i] is the database when the i-th page is requested. */
  function WalkArticles<A>(stores: seq<Store<A>>, filter: (nat, Item<A>) -> bool, sort: Sort, cursor: Option<Cursor>,
                           limit: nat): ArticleWalk
    requires limit > 0
  {
    if stores == [] then ArticleWalk([], false)
    else match ListArticles(stores[0], filter, sort, cursor, limit)
      case InvalidCursor => ArticleWalk([], false)
      case Articles(rows, next, _) =>
        if next.None? then ArticleWalk(Ids(rows), true)
        else
          var later := WalkArticles(stores[1..], filter, sort, next, limit);
          ArticleWalk(Ids(rows) + later.ids, later.finished)
  }

  // ---------- the SQL keyset is the order on keys ----------

  function KeyOfCursor(cursor: Cursor): Key {
    match cursor
    case NewestCursor(at, id) => Key(at, 0, id)
    case ScoreCursor(score, at, id) => Key(score, at, id)
  }

  function KeyOption(cursor: Option<Cursor>): Option<Key> {
    if cursor.Some? then Some(KeyOfCursor(cursor.value)) else None
  }

  /** The hand-written disjunction selects exactly the rows that sort after the cursor. */
  lemma CursorClauseIsOrder<A>(sort: Sort, cursor: Cursor, id: nat, item: Item<A>)
    requires CursorFits(sort, cursor)
    ensures BehindCursor(cursor, id, item) <==> Precedes(KeyOfCursor(cursor), SortKey(sort, id, item))
  {}

  lemma SelectedIsAfter<A>(store: Store<A>, filter: (nat, Item<A>) -> bool, sort: Sort, cursor: Option<Cursor>)
    requires cursor.Some? ==> CursorFits(sort, cursor.value)
    ensures SelectedKeys(store, filter, sort, cursor) == After(MatchingKeys(store, filter, sort), KeyOption(cursor))
  {
    if cursor.Some? {
      forall id | id in store {
        CursorClauseIsOrder(sort, cursor.value, id, store[id]);
      }
      assert forall id :: id in store ==>
        (BehindCursor(cursor.value, id, store[id]) <==> Precedes(KeyOfCursor(cursor.value), SortKey(sort, id, store[id])));
    }
  }

  /** One request is one keyset page of the filtered, sorted feed. */
  lemma RequestIsPage<A>(store: Store<A>, filter: (nat, Item<A>) -> bool, sort: Sort, cursor: Option<Cursor>, limit: nat)
    requires limit > 0 && (cursor.Some? ==> CursorFits(sort, cursor.value))
    ensures var response := ListArticles(store, filter, sort, cursor, limit);
            var page := PageOf(MatchingKeys(store, filter, sort), KeyOption(cursor), limit);
            && response.Articles? && response.rows == page.rows && KeyOption(response.next) == page.next
            && (response.next.Some? ==> CursorFits(sort, response.next.value))
  {
    SelectedIsAfter(store, filter, sort, cursor);
    var all := Listing(SelectedKeys(store, filter, sort, cursor));
    var response := ListArticles(store, filter, sort, cursor, limit);
    if response.next.Some? {
      var last := all[limit - 1];
      assert last in Elements(all);
      assert last in MatchingKeys(store, filter, sort);
      assert KeyOfCursor(CursorOfRow(sort, last)) == last;
    }
  }

  function KeyStores<A>(stores: seq<Store<A>>, filter: (nat, Item<A>) -> bool, sort: Sort): seq<set<Key>> {
    seq(|stores|, i requires 0 <= i < |stores| => MatchingKeys(stores[i], filter, sort))
  }

  lemma {:induction false} WalkIsFollow<A>(stores: seq<Store<A>>, filter: (nat, Item<A>) -> bool, sort: Sort,
                                           cursor: Option<Cursor>, limit: nat)
    requires limit > 0 && (cursor.Some? ==> CursorFits(sort, cursor.value))
    ensures var walk := Follow(KeyStores(stores, filter, sort), KeyOption(cursor), limit);
            WalkArticles(stores, filter, sort, cursor, limit) == ArticleWalk(Ids(walk.rows), walk.finished)
  {
    hide ListArticles, PageOf, MatchingKeys;
    if stores != [] {
      RequestIsPage(stores[0], filter, sort, cursor, limit);
      var keyStores := KeyStores(stores, filter, sort);
      assert keyStores[1..] == KeyStores(stores[1..], filter, sort);
      var response := ListArticles(stores[0], filter, sort, cursor, limit);
      if response.next.Some? {
        WalkIsFollow(stores[1..], filter, sort, response.next, limit);
        var later := Follow(keyStores[1..], KeyOption(response.next), limit);
        assert Ids(response.rows + later.rows) == Ids(response.rows) + Ids(later.rows);
      }
    }
  }

  // ---------- the theorem ----------

  lemma KeyOfListedItem<A>(store: Store<A>, filter: (nat, Item<A>) -> bool, sort: Sort, k: Key)
    requires k in MatchingKeys(store, filter, sort)
    ensures k.id in store && k == SortKey(sort, k.id, store[k.id])
  {}

  /** Items may be inserted, deleted, edited or cleared between the pages: an item that matches at every
      request with the same sort key is returned exactly once by a finished walk. */
  lemma StableItemReturnedOnce<A>(stores: seq<Store<A>>, filter: (nat, Item<A>) -> bool, sort: Sort, limit: nat,
                                  id: nat, key: Key)
    requires limit > 0 && WalkArticles(stores, filter, sort, None, limit).finished
    requires forall i :: 0 <= i < |stores| ==>
               id in stores[i] && Matches(filter, id, stores[i][id]) && SortKey(sort, id, stores[i][id]) == key
    ensures OccursOnce(WalkArticles(stores, filter, sort, None, limit).ids, id)
  {
    assert stores != [];
    assert key == SortKey(sort, id, stores[0][id]);
    hide Follow, WalkArticles;
    var keyStores := KeyStores(stores, filter, sort);
    WalkIsFollow(stores, filter, sort, None, limit);
    forall p, k: Key | 0 <= p < |keyStores| && k in keyStores[p] && k.id == key.id ensures k == key {
      KeyOfListedItem(stores[p], filter, sort, k);
    }
    StableKeyOnce(keyStores, limit, key);
  }

  /** On a feed that does not change, the pages put together are the whole filtered list, in order. */
  lemma FixedFeedWalk<A>(store: Store<A>, filter: (nat, Item<A>) -> bool, sort: Sort, limit: nat, requests: nat)
    requires limit > 0 && requests > |Listing(MatchingKeys(store, filter, sort))|
    ensures WalkArticles(seq(requests, i => store), filter, sort, None, limit)
         == ArticleWalk(Ids(Listing(MatchingKeys(store, filter, sort))), true)
  {
    var stores := seq(requests, i => store);
    var keys := MatchingKeys(store, filter, sort);
    WalkIsFollow(stores, filter, sort, None, limit);
    assert After(keys, None) == keys;
    FixedStoreWalk(KeyStores(stores, filter, sort), keys, None, limit);
  }

  /** result_count is the length of that list. */
  lemma {:induction false} CountIsListLength<A>(store: Store<A>, filter: (nat, Item<A>) -> bool, sort: Sort)
    ensures |MatchingIds(store, filter)| == |Listing(MatchingKeys(store, filter, sort))|
  {
    var listing := Listing(MatchingKeys(store, filter, sort));
    var ids := MatchingIds(store, filter);
    forall k
      ensures k in listing <==> k.id in ids && k == SortKey(sort, k.id, store[k.id])
    {
      assert k in listing <==> k in Elements(listing);
    }
    ListedIds(listing);
    forall id | id in ids
      ensures exists k :: k in listing && k.id == id
    {
      assert SortKey(sort, id, store[id]) in listing;
    }
    assert (set k | k in listing :: k.id) == ids;
  }

  lemma {:induction false} ListedIds(rows: seq<Key>)
    requires forall i, j :: 0 <= i < j < |rows| ==> rows[i].id != rows[j].id
    ensures |set k | k in rows :: k.id| == |rows|
  {
    if rows != [] {
      var rest, last := rows[..|rows| - 1], rows[|rows| - 1];
      ListedIds(rest);
      assert rows == rest + [last];
      assert (set k | k in rows :: k.id) == (set k | k in rest :: k.id) + {last.id};
    }
  }

  // ---------- in terms of the items' own fields ----------

  /** The newest order: later publication first, ingestion time standing in where there is none. */
  lemma NewestPlainly<A>(a: nat, b: nat, store: Store<A>)
    requires a in store && b in store
    ensures var atA := if store[a].publishedAt.Some? then store[a].publishedAt.value else store[a].sortAt;
            var atB := if store[b].publishedAt.Some? then store[b].publishedAt.value else store[b].sortAt;
            Precedes(SortKey(Newest, a, store[a]), SortKey(Newest, b, store[b])) <==> atA > atB || (atA == atB && a > b)
  {}

  /** The score order: higher scores first, then the newest order. */
  lemma ScorePlainly<A>(a: nat, b: nat, store: Store<A>)
    requires a in store && b in store
    ensures var atA := if store[a].publishedAt.Some? then store[a].publishedAt.value else store[a].sortAt;
            var atB := if store[b].publishedAt.Some? then store[b].publishedAt.value else store[b].sortAt;
            Precedes(SortKey(Score, a, store[a]), SortKey(Score, b, store[b])) <==>
              || store[a].score > store[b].score
              || (store[a].score == store[b].score && (atA > atB || (atA == atB && a > b)))
  {}

  /** The rows of a page are in the order of their fields. */
  lemma PageOrderPlainly<A>(store: Store<A>, filter: (nat, Item<A>) -> bool, sort: Sort, cursor: Option<Cursor>,
                            limit: nat, i: nat, j: nat)
    requires limit > 0 && ListArticles(store, filter, sort, cursor, limit).Articles?
    requires i < j < |ListArticles(store, filter, sort, cursor, limit).rows|
    ensures var a, b := ListArticles(store, filter, sort, cursor, limit).rows[i].id, ListArticles(store, filter, sort, cursor, limit).rows[j].id;
            && a in store && b in store
            && var atA := if store[a].publishedAt.Some? then store[a].publishedAt.value else store[a].sortAt;
               var atB := if store[b].publishedAt.Some? then store[b].publishedAt.value else store[b].sortAt;
               match sort
               case Newest => atA > atB || (atA == atB && a > b)
               case Score =>
                 store[a].score > store[b].score || (store[a].score == store[b].score && (atA > atB || (atA == atB && a > b)))
  {
    var rows := ListArticles(store, filter, sort, cursor, limit).rows;
    PageRows(store, filter, sort, cursor, limit);
    hide ListArticles;
    NewestPlainly(rows[i].id, rows[j].id, store);
    ScorePlainly(rows[i].id, rows[j].id, store);
  }

  /** A page holds only items that are not cleared and pass the filter. */
  lemma PageRows<A>(store: Store<A>, filter: (nat, Item<A>) -> bool, sort: Sort, cursor: Option<Cursor>, limit: nat)
    requires limit > 0 && ListArticles(store, filter, sort, cursor, limit).Articles?
    ensures var rows := ListArticles(store, filter, sort, cursor, limit).rows;
            && |rows| <= limit && Sorted(rows)
            && forall i :: 0 <= i < |rows| ==>
                 && rows[i].id in store && store[rows[i].id].clearedAt == None && filter(rows[i].id, store[rows[i].id])
                 && rows[i] == SortKey(sort, rows[i].id, store[rows[i].id])
  {
    hide Listing, Sorted;
    RequestIsPage(store, filter, sort, cursor, limit);
    PageFacts(MatchingKeys(store, filter, sort), KeyOption(cursor), limit);
    var rows := ListArticles(store, filter, sort, cursor, limit).rows;
    forall i | 0 <= i < |rows| ensures rows[i] in MatchingKeys(store, filter, sort) {
      assert rows[i] in Elements(rows);
    }
  }

  /** Whatever passes the filter, is not cleared and lies after the cursor is on the page, or after its last row. */
  lemma PageMissesNothing<A>(store: Store<A>, filter: (nat, Item<A>) -> bool, sort: Sort, cursor: Option<Cursor>,
                             limit: nat, id: nat)
    requires limit > 0 && ListArticles(store, filter, sort, cursor, limit).Articles?
    requires id in store && store[id].clearedAt == None && filter(id, store[id])
    requires cursor.Some? ==> BehindCursor(cursor.value, id, store[id])
    ensures var response := ListArticles(store, filter, sort, cursor, limit);
            || (exists row :: row in response.rows && row.id == id)
            || (response.next.Some? && BehindCursor(response.next.value, id, store[id]))
  {
    hide Listing;
    RequestIsPage(store, filter, sort, cursor, limit);
    SelectedIsAfter(store, filter, sort, cursor);
    PageFacts(MatchingKeys(store, filter, sort), KeyOption(cursor), limit);
    var key := SortKey(sort, id, store[id]);
    assert key in SelectedKeys(store, filter, sort, cursor);
    var response := ListArticles(store, filter, sort, cursor, limit);
    if key !in response.rows { CursorClauseIsOrder(sort, response.next.value, id, store[id]); }
  }

  /** The next cursor names the last row of a full page, and a cursor of the other sort is refused. */
  lemma NextPlainly<A>(store: Store<A>, filter: (nat, Item<A>) -> bool, sort: Sort, cursor: Option<Cursor>, limit: nat)
    requires limit > 0
    ensures var response := ListArticles(store, filter, sort, cursor, limit);
            && (response.InvalidCursor? <==>
                  cursor.Some? && ((sort == Newest && cursor.value.ScoreCursor?) || (sort == Score && cursor.value.NewestCursor?)))
            && (response.Articles? && response.next.Some? ==>
                  && |response.rows| == limit && response.next.value.id == response.rows[limit - 1].id)
  {
    if ListArticles(store, filter, sort, cursor, limit).Articles? {
      RequestIsPage(store, filter, sort, cursor, limit);
      PageFacts(MatchingKeys(store, filter, sort), KeyOption(cursor), limit);
    }
    hide Listing;
  }

  /** result_count counts the items that are not cleared and pass the filter. */
  lemma ResultCountPlainly<A>(store: Store<A>, filter: (nat, Item<A>) -> bool, sort: Sort, cursor: Option<Cursor>, limit: nat)
    requires limit > 0 && ListArticles(store, filter, sort, cursor, limit).Articles?
    ensures ListArticles(store, filter, sort, cursor, limit).resultCount
         == |set id | id in store && store[id].clearedAt == None && filter(id, store[id])|
  {
    assert MatchingIds(store, filter) == set id | id in store && store[id].clearedAt == None && filter(id, store[id]);
    hide Listing;
  }

  /** Whatever changes between the pages: every listed item was, at one of the requests, not cleared and passed
      the filter. */
  lemma {:induction false} WalkPlainly<A>(stores: seq<Store<A>>, filter: (nat, Item<A>) -> bool, sort: Sort,
                                          cursor: Option<Cursor>, limit: nat, id: nat)
    requires limit > 0 && id in WalkArticles(stores, filter, sort, cursor, limit).ids
    ensures exists i :: 0 <= i < |stores| && id in stores[i] && stores[i][id].clearedAt == None && filter(id, stores[i][id])
  {
    hide ListArticles;
    var response := ListArticles(stores[0], filter, sort, cursor, limit);
    PageRows(stores[0], filter, sort, cursor, limit);
    if id in Ids(response.rows) {
      var i :| 0 <= i < |response.rows| && Ids(response.rows)[i] == id;
      assert response.rows[i].id == id;
    } else {
      WalkPlainly(stores[1..], filter, sort, response.next, limit, id);
      var i :| 0 <= i < |stores[1..]| && id in stores[1..][i] && stores[1..][i][id].clearedAt == None && filter(id, stores[1..][i][id]);
      assert stores[i + 1] == stores[1..][i];
    }
  }
}
