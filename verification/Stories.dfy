/** The story listing: batches scanned in keyset order, filtered afterwards by completeness. */
module Stories {
  import opened Wrappers
  import opened Keyset

  /** A story; `complete` is what its evidence summary says, `content` all else a WHERE clause looks at. */
  datatype Story<+A> = Story(updatedAt: int, complete: bool, content: A)

  type Store<+A> = map<nat, Story<A>>

  function StoryKey<A>(id: nat, story: Story<A>): Key { Key(story.updatedAt, 0, id) }

  /** The rows of the base statement. */
  function BaseKeys<A>(store: Store<A>, base: (nat, Story<A>) -> bool): set<Key> {
    set id | id in store && base(id, store[id]) :: StoryKey(id, store[id])
  }

  /** The post-filter: `wanted` is the requested completeness, if any. */
  predicate Wanted<A>(store: Store<A>, wanted: Option<bool>, k: Key) {
    k.id in store && (wanted.None? || store[k.id].complete == wanted.value)
  }

  function WantedKeys<A>(store: Store<A>, base: (nat, Story<A>) -> bool, wanted: Option<bool>): set<Key> {
    set k | k in BaseKeys(store, base) && Wanted(store, wanted, k)
  }

  function Filtered<A>(store: Store<A>, wanted: Option<bool>, s: seq<Key>): seq<Key> {
    if s == [] then []
    else Filtered(store, wanted, s[..|s| - 1]) + if Wanted(store, wanted, s[|s| - 1]) then [s[|s| - 1]] else []
  }

  function BatchSize(limit: nat): (size: nat)
    ensures size > 0
  {
    var atLeast := if limit + 1 < 25 then 25 else limit + 1;
    if atLeast > 200 then 200 else atLeast
  }

  // ---------- filtering commutes with listing ----------

  lemma {:induction false} FilteredElements<A>(store: Store<A>, wanted: Option<bool>, s: seq<Key>, k: Key)
    ensures k in Filtered(store, wanted, s) <==> k in s && Wanted(store, wanted, k)
  {
    hide Wanted;
    if s != [] {
      FilteredElements(store, wanted, s[..|s| - 1], k);
      assert s == s[..|s| - 1] + [s[|s| - 1]];
    }
  }

  lemma {:induction false} FilteredSorted<A>(store: Store<A>, wanted: Option<bool>, s: seq<Key>)
    requires Sorted(s)
    ensures Sorted(Filtered(store, wanted, s))
  {
    hide Wanted;
    if s != [] {
      var rest, last := s[..|s| - 1], s[|s| - 1];
      FilteredSorted(store, wanted, rest);
      var f := Filtered(store, wanted, rest);
      forall i | 0 <= i < |f|
        ensures Precedes(f[i], last)
      {
        FilteredElements(store, wanted, rest, f[i]);
        var j :| 0 <= j < |rest| && rest[j] == f[i];
      }
    }
  }

  lemma FilteredIsListing<A>(store: Store<A>, base: (nat, Story<A>) -> bool, wanted: Option<bool>, cursor: Option<Key>)
    ensures Filtered(store, wanted, Listing(After(BaseKeys(store, base), cursor)))
         == Listing(After(WantedKeys(store, base, wanted), cursor))
  {
    var all := Listing(After(BaseKeys(store, base), cursor));
    var some := Listing(After(WantedKeys(store, base, wanted), cursor));
    FilteredSorted(store, wanted, all);
    forall k
      ensures k in Filtered(store, wanted, all) <==> k in Elements(some)
    {
      FilteredElements(store, wanted, all, k);
      assert k in all <==> k in Elements(all);
    }
    ListingUnique(Filtered(store, wanted, all), some);
  }

  /** A prefix filters to a prefix. */
  lemma {:induction false} FilteredPrefix<A>(store: Store<A>, wanted: Option<bool>, s: seq<Key>, n: nat)
    requires n <= |s|
    ensures Filtered(store, wanted, s[..n]) <= Filtered(store, wanted, s)
    decreases |s|
  {
    if n < |s| {
      var rest := s[..|s| - 1];
      FilteredPrefix(store, wanted, rest, n);
      assert rest[..n] == s[..n];
    } else {
      assert s[..n] == s;
    }
  }

  lemma {:induction false} FilteredConcat<A>(store: Store<A>, wanted: Option<bool>, a: seq<Key>, b: seq<Key>)
    ensures Filtered(store, wanted, a + b) == Filtered(store, wanted, a) + Filtered(store, wanted, b)
  {
    hide Wanted;
    if b == [] {
      assert a + b == a;
    } else {
      FilteredConcat(store, wanted, a, b[..|b| - 1]);
      assert (a + b)[..|a + b| - 1] == a + b[..|b| - 1];
    }
  }

  // ---------- one request: every batch is a query of its own ----------

  /** How a request ends, and after how many batches; or that it has not ended yet. */
  datatype Answer = Unanswered | Answered(page: Page, batches: nat)

  function Batch<A>(store: Store<A>, base: (nat, Story<A>) -> bool, limit: nat, after: Option<Key>): (rows: seq<Key>)
    ensures |rows| <= BatchSize(limit)
  {
    Take(Listing(After(BaseKeys(store, base), after)), BatchSize(limit))
  }

  /** What one batch leads to: the end of the request, or another batch after the last row read. */
  datatype Step = Done(page: Page) | Continue(last: Key, matches: seq<Key>)

  function OneBatch<A>(store: Store<A>, base: (nat, Story<A>) -> bool, wanted: Option<bool>, limit: nat,
                       after: Option<Key>, matches: seq<Key>): (step: Step)
    requires limit > 0
    ensures step.Continue? ==> |step.matches| <= limit
  {
    var rows := Batch(store, base, limit, after);
    var found := matches + Filtered(store, wanted, rows);
    if |found| > limit then Done(Page(found[..limit], Some(found[limit - 1])))
    else if |rows| < BatchSize(limit) then Done(Page(found, None))
    else Continue(rows[|rows| - 1], found)
  }

  /** stores[i] is the database when the i-th of the remaining batches is read. */
  function Request<A>(stores: seq<Store<A>>, base: (nat, Story<A>) -> bool, wanted: Option<bool>, limit: nat,
                      after: Option<Key>, matches: seq<Key>): (answer: Answer)
    requires limit > 0
    ensures answer.Answered? ==> 0 < answer.batches <= |stores|
    decreases |stores|
  {
    if stores == [] then Unanswered
    else
      match OneBatch(stores[0], base, wanted, limit, after, matches)
      case Done(page) => Answered(page, 1)
      case Continue(last, found) => More(Request(stores[1..], base, wanted, limit, Some(last), found), 1)
  }

  function More(answer: Answer, batches: nat): Answer {
    match answer
    case Unanswered => Unanswered
    case Answered(page, n) => Answered(page, batches + n)
  }

  /** The inner loop: the matching rows of one batch, up to limit + 1 in all. */
  method ScanBatch<A>(store: Store<A>, wanted: Option<bool>, limit: nat, rows: seq<Key>, found: seq<Key>)
    returns (matches: seq<Key>)
    requires |found| <= limit && forall i :: 0 <= i < |rows| ==> rows[i].id in store
    ensures matches == Take(found + Filtered(store, wanted, rows), limit + 1)
  {
    matches := found;
    assert Filtered(store, wanted, rows[..0]) == [];
    hide Filtered;
    for i := 0 to |rows|
      invariant matches == found + Filtered(store, wanted, rows[..i]) && |matches| <= limit
    {
      var item := rows[i];
      FilteredStep(store, wanted, rows, i);
      if wanted.None? || store[item.id].complete == wanted.value {
        matches := matches + [item];
        if |matches| == limit + 1 {
          FilteredPrefix(store, wanted, rows, i + 1);
          return;
        }
      }
    }
    assert rows[..|rows|] == rows;
  }

  lemma FilteredStep<A>(store: Store<A>, wanted: Option<bool>, rows: seq<Key>, i: nat)
    requires i < |rows|
    ensures Filtered(store, wanted, rows[..i + 1])
         == Filtered(store, wanted, rows[..i]) + if Wanted(store, wanted, rows[i]) then [rows[i]] else []
  {
    hide Wanted;
    assert rows[..i + 1][..i] == rows[..i];
  }

  lemma BatchInStore<A>(store: Store<A>, base: (nat, Story<A>) -> bool, limit: nat, after: Option<Key>)
    ensures forall i :: 0 <= i < |Batch(store, base, limit, after)| ==> Batch(store, base, limit, after)[i].id in store
  {
    var all := Listing(After(BaseKeys(store, base), after));
    forall i | 0 <= i < |all| ensures all[i].id in store {
      assert all[i] in Elements(all);
    }
  }

  /** One round of the outer loop. */
  method ReadBatch<A>(store: Store<A>, base: (nat, Story<A>) -> bool, wanted: Option<bool>, limit: nat,
                      scanAfter: Option<Key>, found: seq<Key>) returns (step: Step)
    requires limit > 0 && |found| <= limit
    ensures step == OneBatch(store, base, wanted, limit, scanAfter, found)
  {
    hide Batch, Filtered, BatchSize;
    var rows := Batch(store, base, limit, scanAfter);
    BatchInStore(store, base, limit, scanAfter);
    ghost var all := found + Filtered(store, wanted, rows);
    var matches := ScanBatch(store, wanted, limit, rows, found);
    if |rows| < BatchSize(limit) || |matches| >= limit + 1 {
      var page := Take(matches, limit);
      assert |all| > limit ==> page == all[..limit];
      return Done(Page(page, if |matches| > limit then Some(page[|page| - 1]) else None));
    }
    return Continue(rows[|rows| - 1], matches);
  }

  /** list_stories: the scan asks for one batch after the other, each from the database as it is then, until a
      batch ends the request. */
  method ListStories<A>(stores: seq<Store<A>>, base: (nat, Story<A>) -> bool, wanted: Option<bool>, limit: nat,
                        cursor: Option<Key>) returns (answer: Answer)
    requires limit > 0
    ensures answer == Request(stores, base, wanted, limit, cursor, [])
  {
    hide OneBatch;
    var scanAfter := cursor;
    var matches: seq<Key> := [];
    var batch := 0;
    assert stores[0..] == stores;
    while batch < |stores|
      invariant batch <= |stores| && |matches| <= limit
      invariant Request(stores, base, wanted, limit, cursor, [])
             == More(Request(stores[batch..], base, wanted, limit, scanAfter, matches), batch)
    {
      var step := ReadBatch(stores[batch], base, wanted, limit, scanAfter, matches);
      assert stores[batch..][0] == stores[batch] && stores[batch..][1..] == stores[batch + 1..];
      batch := batch + 1;
      match step {
        case Done(page) => return Answered(page, batch);
        case Continue(last, found) => scanAfter, matches := Some(last), found;
      }
    }
    return Unanswered;
  }

  // ---------- a request on a database that does not change ----------

  function PageFrom(found: seq<Key>, limit: nat): Page
    requires limit > 0
  {
    if |found| > limit then Page(found[..limit], Some(found[limit - 1])) else Page(found, None)
  }

  /** Then a request is the keyset page of the filtered listing, whatever the batch boundaries. */
  lemma RequestIsPage<A>(stores: seq<Store<A>>, store: Store<A>, base: (nat, Story<A>) -> bool, wanted: Option<bool>,
                         limit: nat, cursor: Option<Key>)
    requires limit > 0 && (forall i :: 0 <= i < |stores| ==> stores[i] == store)
    requires |stores| > |Listing(After(BaseKeys(store, base), cursor))|
    ensures var answer := Request(stores, base, wanted, limit, cursor, []);
            answer.Answered? && answer.page == PageOf(WantedKeys(store, base, wanted), cursor, limit)
  {
    var keys := WantedKeys(store, base, wanted);
    PageOfListing(keys, cursor, limit);
    FixedRequest(stores, store, base, wanted, limit, cursor, []);
    hide Request, PageOf, PageFrom, Listing, WantedKeys;
    assert [] + Listing(After(keys, cursor)) == Listing(After(keys, cursor));
  }

  lemma PageOfListing(keys: set<Key>, cursor: Option<Key>, limit: nat)
    requires limit > 0
    ensures PageOf(keys, cursor, limit) == PageFrom(Listing(After(keys, cursor)), limit)
  {
    hide Listing, After;
    var all := Listing(After(keys, cursor));
    assert |all| > limit ==> all[..limit + 1][..limit] == all[..limit];
  }

  /** One batch of the fixed database: what it adds, and what is left after it. */
  lemma FixedBatch<A>(store: Store<A>, base: (nat, Story<A>) -> bool, wanted: Option<bool>, limit: nat, after: Option<Key>)
    ensures var keys, rows := BaseKeys(store, base), Batch(store, base, limit, after);
            && (|rows| < BatchSize(limit) ==> Filtered(store, wanted, rows) == Listing(After(WantedKeys(store, base, wanted), after)))
            && (|rows| >= BatchSize(limit) ==>
                  var last := Some(rows[|rows| - 1]);
                  && |Listing(After(keys, last))| < |Listing(After(keys, after))|
                  && Listing(After(WantedKeys(store, base, wanted), after))
                     == Filtered(store, wanted, rows) + Listing(After(WantedKeys(store, base, wanted), last)))
  {
    BatchSizePositive(limit);
    hide Filtered, Listing, BaseKeys, WantedKeys, BatchSize, After;
    var keys := BaseKeys(store, base);
    var all := Listing(After(keys, after));
    var rows := Batch(store, base, limit, after);
    var rest := all[|rows|..];
    assert all == rows + rest;
    FilteredConcat(store, wanted, rows, rest);
    FilteredIsListing(store, base, wanted, after);
    if |rows| < BatchSize(limit) {
      assert rows == all;
    } else {
      NextPageIsSuffix(keys, after, all, |rows|);
      FilteredIsListing(store, base, wanted, Some(rows[|rows| - 1]));
    }
  }

  lemma {:induction false} FixedRequest<A>(stores: seq<Store<A>>, store: Store<A>, base: (nat, Story<A>) -> bool,
                                           wanted: Option<bool>, limit: nat, after: Option<Key>, matches: seq<Key>)
    requires limit > 0 && (forall i :: 0 <= i < |stores| ==> stores[i] == store)
    requires |stores| > |Listing(After(BaseKeys(store, base), after))|
    ensures var answer := Request(stores, base, wanted, limit, after, matches);
            && answer.Answered?
            && answer.page == PageFrom(matches + Listing(After(WantedKeys(store, base, wanted), after)), limit)
    decreases |stores|
  {
    hide OneBatch, Listing, BaseKeys, WantedKeys, After, PageFrom;
    FixedStep(store, base, wanted, limit, after, matches);
    assert stores[0] == store;
    match OneBatch(store, base, wanted, limit, after, matches)
    case Done(_) =>
    case Continue(last, found) => FixedRequest(stores[1..], store, base, wanted, limit, Some(last), found);
  }

  lemma FixedStep<A>(store: Store<A>, base: (nat, Story<A>) -> bool, wanted: Option<bool>, limit: nat,
                     after: Option<Key>, matches: seq<Key>)
    requires limit > 0
    ensures var all := matches + Listing(After(WantedKeys(store, base, wanted), after));
            match OneBatch(store, base, wanted, limit, after, matches)
            case Done(page) => page == PageFrom(all, limit)
            case Continue(last, found) =>
              && |Listing(After(BaseKeys(store, base), Some(last)))| < |Listing(After(BaseKeys(store, base), after))|
              && PageFrom(found + Listing(After(WantedKeys(store, base, wanted), Some(last))), limit) == PageFrom(all, limit)
  {
    var rows := Batch(store, base, limit, after);
    var found := matches + Filtered(store, wanted, rows);
    FixedBatch(store, base, wanted, limit, after);
    hide Batch, Filtered, Listing, BaseKeys, WantedKeys, BatchSize, After;
    if |rows| >= BatchSize(limit) {
      var rest := Listing(After(WantedKeys(store, base, wanted), Some(rows[|rows| - 1])));
      assert matches + (Filtered(store, wanted, rows) + rest) == found + rest;
      assert |found| > limit ==> (found + rest)[..limit] == found[..limit];
    }
  }

  // ---------- a request while the database changes ----------

  /** One batch is sorted, lies after the last row read, and passes over no wanted row up to its end. */
  lemma BatchFacts<A>(store: Store<A>, base: (nat, Story<A>) -> bool, wanted: Option<bool>, limit: nat, after: Option<Key>)
    ensures var rows := Batch(store, base, limit, after);
            var found := Filtered(store, wanted, rows);
            && Sorted(rows) && AllAfter(rows, after) && Sorted(found)
            && (forall k :: k in found ==> k in rows && k in WantedKeys(store, base, wanted))
            && forall k :: k in WantedKeys(store, base, wanted) && (after.Some? ==> Precedes(after.value, k)) ==>
                 k in found || (|rows| == BatchSize(limit) && Precedes(rows[|rows| - 1], k))
  {
    hide Listing, Filtered, BatchSize;
    var keys := BaseKeys(store, base);
    var rows := Batch(store, base, limit, after);
    PageFacts(keys, after, BatchSize(limit));
    assert rows == PageOf(keys, after, BatchSize(limit)).rows;
    FilteredSorted(store, wanted, rows);
    forall k ensures k in Filtered(store, wanted, rows) <==> k in rows && Wanted(store, wanted, k) {
      FilteredElements(store, wanted, rows, k);
    }
    assert forall k :: k in rows ==> k in Elements(rows);
  }

  /** The matches so far are sorted, lie after the request's cursor, and none lies after the last row read. */
  ghost predicate Gathered(cursor: Option<Key>, after: Option<Key>, matches: seq<Key>) {
    && Sorted(matches) && AllAfter(matches, cursor)
    && (forall i :: 0 <= i < |matches| ==> after.Some? && (matches[i] == after.value || Precedes(matches[i], after.value)))
    && (cursor.Some? ==> after.Some? && (after == cursor || Precedes(cursor.value, after.value)))
  }

  lemma GatheredMore(cursor: Option<Key>, after: Option<Key>, matches: seq<Key>, rows: seq<Key>, found: seq<Key>)
    requires Gathered(cursor, after, matches) && Sorted(rows) && AllAfter(rows, after) && Sorted(found)
    requires forall k :: k in found ==> k in rows
    ensures Sorted(matches + found) && AllAfter(matches + found, cursor)
    ensures rows != [] ==> Gathered(cursor, Some(rows[|rows| - 1]), matches + found)
  {
    forall i | 0 <= i < |found|
      ensures after.Some? ==> Precedes(after.value, found[i])
      ensures rows != [] && (found[i] == rows[|rows| - 1] || Precedes(found[i], rows[|rows| - 1]))
    {
      assert found[i] in rows;
      var j :| 0 <= j < |rows| && rows[j] == found[i];
    }
  }

  lemma {:induction false} RequestFacts<A>(stores: seq<Store<A>>, base: (nat, Story<A>) -> bool, wanted: Option<bool>,
                                           limit: nat, cursor: Option<Key>, after: Option<Key>, matches: seq<Key>)
    requires limit > 0 && Gathered(cursor, after, matches)
    ensures var answer := Request(stores, base, wanted, limit, after, matches);
            answer.Answered? ==>
              && Sorted(answer.page.rows) && AllAfter(answer.page.rows, cursor)
              && (answer.page.next.Some? ==>
                    |answer.page.rows| == limit && answer.page.next.value == answer.page.rows[limit - 1])
    decreases |stores|
  {
    if stores != [] {
      StepFacts(stores[0], base, wanted, limit, cursor, after, matches);
      hide OneBatch, Gathered, Sorted, AllAfter;
      match OneBatch(stores[0], base, wanted, limit, after, matches)
      case Done(_) =>
      case Continue(last, found) => RequestFacts(stores[1..], base, wanted, limit, cursor, Some(last), found);
    }
  }

  lemma StepFacts<A>(store: Store<A>, base: (nat, Story<A>) -> bool, wanted: Option<bool>, limit: nat,
                     cursor: Option<Key>, after: Option<Key>, matches: seq<Key>)
    requires limit > 0 && Gathered(cursor, after, matches)
    ensures match OneBatch(store, base, wanted, limit, after, matches)
            case Done(page) =>
              && Sorted(page.rows) && AllAfter(page.rows, cursor)
              && (page.next.Some? ==> |page.rows| == limit && page.next.value == page.rows[limit - 1])
            case Continue(last, found) => Gathered(cursor, Some(last), found)
  {
    var rows := Batch(store, base, limit, after);
    BatchSizePositive(limit);
    BatchFacts(store, base, wanted, limit, after);
    GatheredMore(cursor, after, matches, rows, Filtered(store, wanted, rows));
    hide Batch, Filtered, Gathered, Precedes, BatchSize, WantedKeys;
  }

  /** A story wanted at every batch is on the page, or after the page's end. */
  lemma {:induction false} RequestKeeps<A>(stores: seq<Store<A>>, base: (nat, Story<A>) -> bool, wanted: Option<bool>,
                                           limit: nat, cursor: Option<Key>, after: Option<Key>, matches: seq<Key>, k: Key)
    requires limit > 0 && Gathered(cursor, after, matches)
    requires forall i :: 0 <= i < |stores| ==> k in WantedKeys(stores[i], base, wanted)
    requires k in matches || (after.Some? ==> Precedes(after.value, k))
    ensures var answer := Request(stores, base, wanted, limit, after, matches);
            answer.Answered? ==>
              k in answer.page.rows || (answer.page.next.Some? && Precedes(answer.page.next.value, k))
    decreases |stores|
  {
    if stores != [] {
      assert k in WantedKeys(stores[0], base, wanted);
      BatchKeeps(stores[0], base, wanted, limit, cursor, after, matches, k);
      hide OneBatch, WantedKeys, Gathered, Precedes;
      match OneBatch(stores[0], base, wanted, limit, after, matches)
      case Done(_) =>
      case Continue(last, found) => RequestKeeps(stores[1..], base, wanted, limit, cursor, Some(last), found, k);
    }
  }

  lemma BatchKeeps<A>(store: Store<A>, base: (nat, Story<A>) -> bool, wanted: Option<bool>, limit: nat,
                      cursor: Option<Key>, after: Option<Key>, matches: seq<Key>, k: Key)
    requires limit > 0 && Gathered(cursor, after, matches) && k in WantedKeys(store, base, wanted)
    requires k in matches || (after.Some? ==> Precedes(after.value, k))
    ensures match OneBatch(store, base, wanted, limit, after, matches)
            case Done(page) => k in page.rows || (page.next.Some? && Precedes(page.next.value, k))
            case Continue(last, found) => Gathered(cursor, Some(last), found) && (k in found || Precedes(last, k))
  {
    var rows := Batch(store, base, limit, after);
    var more := Filtered(store, wanted, rows);
    BatchSizePositive(limit);
    BatchFacts(store, base, wanted, limit, after);
    GatheredMore(cursor, after, matches, rows, more);
    hide Batch, Filtered, BatchSize, WantedKeys, Gathered, Precedes;
    assert k in matches + more || (|rows| == BatchSize(limit) && Precedes(rows[|rows| - 1], k));
    if |matches + more| > limit { CutKeeps(cursor, rows, matches + more, limit, k); }
  }

  lemma BatchSizePositive(limit: nat)
    ensures BatchSize(limit) > 0
  {}

  lemma CutKeeps(cursor: Option<Key>, rows: seq<Key>, found: seq<Key>, limit: nat, k: Key)
    requires 0 < limit < |found| && Sorted(found)
    requires rows != [] ==> Gathered(cursor, Some(rows[|rows| - 1]), found)
    requires k in found || (rows != [] && Precedes(rows[|rows| - 1], k))
    ensures k in found[..limit] || Precedes(found[limit - 1], k)
  {
    if k in found {
      var i :| 0 <= i < |found| && found[i] == k;
      if i < limit { assert found[..limit][i] == k; }
    }
  }

  /** Every row of a page was wanted at one of the batches. */
  lemma {:induction false} RequestSound<A>(stores: seq<Store<A>>, base: (nat, Story<A>) -> bool, wanted: Option<bool>,
                                           limit: nat, after: Option<Key>, matches: seq<Key>, k: Key)
    requires limit > 0
    requires var answer := Request(stores, base, wanted, limit, after, matches); answer.Answered? && k in answer.page.rows
    ensures k in matches || exists i :: 0 <= i < |stores| && k in WantedKeys(stores[i], base, wanted)
    decreases |stores|
  {
    StepSound(stores[0], base, wanted, limit, after, matches, k);
    hide OneBatch, WantedKeys;
    match OneBatch(stores[0], base, wanted, limit, after, matches)
    case Done(page) => assert k in matches || k in WantedKeys(stores[0], base, wanted);
    case Continue(last, found) =>
      if k in found {
        assert k in matches || k in WantedKeys(stores[0], base, wanted);
      } else {
        RequestSound(stores[1..], base, wanted, limit, Some(last), found, k);
        var i :| 0 <= i < |stores[1..]| && k in WantedKeys(stores[1..][i], base, wanted);
        assert stores[i + 1] == stores[1..][i];
      }
  }

  lemma StepSound<A>(store: Store<A>, base: (nat, Story<A>) -> bool, wanted: Option<bool>, limit: nat,
                     after: Option<Key>, matches: seq<Key>, k: Key)
    requires limit > 0
    ensures match OneBatch(store, base, wanted, limit, after, matches)
            case Done(page) => k in page.rows ==> k in matches || k in WantedKeys(store, base, wanted)
            case Continue(_, found) => k in found ==> k in matches || k in WantedKeys(store, base, wanted)
  {
    BatchFacts(store, base, wanted, limit, after);
    hide Batch, Filtered, BatchSize, WantedKeys;
  }

  // ---------- a walk while the database changes ----------

  /** Follow next cursors; the requests use up the batches one after the other. */
  function WalkStories<A>(stores: seq<Store<A>>, base: (nat, Story<A>) -> bool, wanted: Option<bool>, limit: nat,
                          cursor: Option<Key>): Walk
    requires limit > 0
    decreases |stores|
  {
    match Request(stores, base, wanted, limit, cursor, [])
    case Unanswered => Walk([], false)
    case Answered(page, batches) =>
      if page.next.None? then Walk(page.rows, true)
      else
        var later := WalkStories(stores[batches..], base, wanted, limit, page.next);
        Walk(page.rows + later.rows, later.finished)
  }

  lemma NothingGathered(cursor: Option<Key>)
    ensures Gathered(cursor, cursor, [])
  {}

  lemma {:induction false} StoryWalkSorted<A>(stores: seq<Store<A>>, base: (nat, Story<A>) -> bool, wanted: Option<bool>,
                                              limit: nat, cursor: Option<Key>)
    requires limit > 0
    ensures Sorted(WalkStories(stores, base, wanted, limit, cursor).rows)
    ensures AllAfter(WalkStories(stores, base, wanted, limit, cursor).rows, cursor)
    decreases |stores|
  {
    hide Request, Sorted, AllAfter, Gathered, Precedes;
    NothingGathered(cursor);
    NothingFollows(cursor);
    RequestFacts(stores, base, wanted, limit, cursor, cursor, []);
    var answer := Request(stores, base, wanted, limit, cursor, []);
    if answer.Answered? && answer.page.next.Some? {
      var later := stores[answer.batches..];
      StoryWalkSorted(later, base, wanted, limit, answer.page.next);
      SortedConcat(answer.page.rows, WalkStories(later, base, wanted, limit, answer.page.next).rows, cursor);
    }
  }

  lemma {:induction false} StoryWalkComplete<A>(stores: seq<Store<A>>, base: (nat, Story<A>) -> bool, wanted: Option<bool>,
                                                limit: nat, cursor: Option<Key>, k: Key)
    requires limit > 0 && WalkStories(stores, base, wanted, limit, cursor).finished
    requires forall i :: 0 <= i < |stores| ==> k in WantedKeys(stores[i], base, wanted)
    requires cursor.Some? ==> Precedes(cursor.value, k)
    ensures k in WalkStories(stores, base, wanted, limit, cursor).rows
    decreases |stores|
  {
    hide Request, Precedes, WantedKeys, Gathered;
    NothingGathered(cursor);
    RequestKeeps(stores, base, wanted, limit, cursor, cursor, [], k);
    var answer := Request(stores, base, wanted, limit, cursor, []);
    if k !in answer.page.rows {
      StoryWalkComplete(stores[answer.batches..], base, wanted, limit, answer.page.next, k);
    }
  }

  lemma {:induction false} StoryWalkSound<A>(stores: seq<Store<A>>, base: (nat, Story<A>) -> bool, wanted: Option<bool>,
                                             limit: nat, cursor: Option<Key>, k: Key)
    requires limit > 0 && k in WalkStories(stores, base, wanted, limit, cursor).rows
    ensures exists i :: 0 <= i < |stores| && k in WantedKeys(stores[i], base, wanted)
    decreases |stores|
  {
    hide Request, WantedKeys;
    var answer := Request(stores, base, wanted, limit, cursor, []);
    if k in answer.page.rows {
      RequestSound(stores, base, wanted, limit, cursor, [], k);
    } else {
      var later := stores[answer.batches..];
      StoryWalkSound(later, base, wanted, limit, answer.page.next, k);
      var i :| 0 <= i < |later| && k in WantedKeys(later[i], base, wanted);
      assert stores[answer.batches + i] == later[i];
    }
  }

  // ---------- the page, and the whole walk ----------

  /** The page is the first `limit` wanted stories after the cursor, and another page is announced exactly
      when another wanted story exists. */
  lemma PageMeaning<A>(store: Store<A>, base: (nat, Story<A>) -> bool, wanted: Option<bool>, limit: nat, cursor: Option<Key>)
    requires limit > 0
    ensures var all := Listing(After(WantedKeys(store, base, wanted), cursor));
            var page := PageOf(WantedKeys(store, base, wanted), cursor, limit);
            && page.rows == Take(all, limit)
            && (page.next.Some? <==> exists k :: k in After(WantedKeys(store, base, wanted), cursor) && k !in page.rows)
  {
    var keys := WantedKeys(store, base, wanted);
    var all := Listing(After(keys, cursor));
    var page := PageOf(keys, cursor, limit);
    PageFacts(keys, cursor, limit);
    if page.next.Some? {
      var extra := all[limit];
      assert extra in Elements(all);
      assert forall i :: 0 <= i < limit ==> Precedes(all[i], extra);
    }
  }

  /** On a fixed store, following the cursors enumerates every wanted story once, in order. */
  lemma StoryWalk<A>(store: Store<A>, base: (nat, Story<A>) -> bool, wanted: Option<bool>, limit: nat, requests: nat)
    requires limit > 0 && requests > |Listing(WantedKeys(store, base, wanted))|
    ensures Follow(seq(requests, i => WantedKeys(store, base, wanted)), None, limit)
         == Walk(Listing(WantedKeys(store, base, wanted)), true)
  {
    var keys := WantedKeys(store, base, wanted);
    assert After(keys, None) == keys;
    FixedStoreWalk(seq(requests, i => keys), keys, None, limit);
  }

  /** Stories may be added, removed, edited or superseded between the batches: a story that matches at every batch
      and is not updated meanwhile is returned exactly once by a finished walk. */
  lemma StableStoryReturnedOnce<A>(stores: seq<Store<A>>, base: (nat, Story<A>) -> bool, wanted: Option<bool>,
                                   limit: nat, id: nat, updatedAt: int)
    requires limit > 0 && WalkStories(stores, base, wanted, limit, None).finished
    requires forall i :: 0 <= i < |stores| ==>
               id in stores[i] && base(id, stores[i][id]) && stores[i][id].updatedAt == updatedAt
               && (wanted.None? || stores[i][id].complete == wanted.value)
    ensures OccursOnce(Ids(WalkStories(stores, base, wanted, limit, None).rows), id)
  {
    hide WalkStories, Request;
    var key := Key(updatedAt, 0, id);
    var rows := WalkStories(stores, base, wanted, limit, None).rows;
    forall i | 0 <= i < |stores| ensures key in WantedKeys(stores[i], base, wanted) {
      assert StoryKey(id, stores[i][id]) == key;
    }
    StoryWalkComplete(stores, base, wanted, limit, None, key);
    StoryWalkSorted(stores, base, wanted, limit, None);
    var i :| 0 <= i < |rows| && rows[i] == key;
    forall j | 0 <= j < |rows| && j != i ensures rows[j].id != id {
      StoryWalkSound(stores, base, wanted, limit, None, rows[j]);
    }
    assert Ids(rows)[i] == id;
  }

  /** On a fixed store a finished walk is the whole filtered listing. */
  lemma FixedWalkIsListing<A>(stores: seq<Store<A>>, store: Store<A>, base: (nat, Story<A>) -> bool, wanted: Option<bool>,
                              limit: nat)
    requires limit > 0 && (forall i :: 0 <= i < |stores| ==> stores[i] == store)
    requires WalkStories(stores, base, wanted, limit, None).finished
    ensures WalkStories(stores, base, wanted, limit, None).rows == Listing(WantedKeys(store, base, wanted))
  {
    hide WalkStories, Request, WantedKeys, Listing;
    var rows, all := WalkStories(stores, base, wanted, limit, None).rows, Listing(WantedKeys(store, base, wanted));
    StoryWalkSorted(stores, base, wanted, limit, None);
    forall k ensures k in Elements(rows) <==> k in WantedKeys(store, base, wanted) {
      if k in rows { StoryWalkSound(stores, base, wanted, limit, None, k); }
      if k in WantedKeys(store, base, wanted) { StoryWalkComplete(stores, base, wanted, limit, None, k); }
    }
    ListingUnique(rows, all);
  }

  // ---------- in terms of the stories' own fields ----------

  /** A wanted key is the key of a story that the WHERE clause selects and that has the requested completeness. */
  lemma WantedPlainly<A>(store: Store<A>, base: (nat, Story<A>) -> bool, wanted: Option<bool>, k: Key)
    ensures k in WantedKeys(store, base, wanted) <==>
              && k.id in store && base(k.id, store[k.id]) && (wanted == None || store[k.id].complete == wanted.value)
              && k == Key(store[k.id].updatedAt, 0, k.id)
  {}

  /** Later updates come first, then greater ids. */
  lemma OrderPlainly(k: Key, l: Key)
    requires k.minor == l.minor
    ensures Precedes(k, l) <==> k.major > l.major || (k.major == l.major && k.id > l.id)
  {}

  /** Every row of a page was, when some batch was read, a story that the WHERE clause selects and that has the
      requested completeness. */
  lemma PagePlainly<A>(stores: seq<Store<A>>, base: (nat, Story<A>) -> bool, wanted: Option<bool>, limit: nat,
                       cursor: Option<Key>, k: Key)
    requires limit > 0
    requires var answer := Request(stores, base, wanted, limit, cursor, []); answer.Answered? && k in answer.page.rows
    ensures exists i :: 0 <= i < |stores| && k.id in stores[i] && base(k.id, stores[i][k.id])
                        && (wanted == None || stores[i][k.id].complete == wanted.value)
                        && k.major == stores[i][k.id].updatedAt
  {
    hide Request;
    RequestSound(stores, base, wanted, limit, cursor, [], k);
    var i :| 0 <= i < |stores| && k in WantedKeys(stores[i], base, wanted);
    WantedPlainly(stores[i], base, wanted, k);
  }

  /** The same for a whole walk. */
  lemma WalkPlainly<A>(stores: seq<Store<A>>, base: (nat, Story<A>) -> bool, wanted: Option<bool>, limit: nat,
                       cursor: Option<Key>, k: Key)
    requires limit > 0 && k in WalkStories(stores, base, wanted, limit, cursor).rows
    ensures exists i :: 0 <= i < |stores| && k.id in stores[i] && base(k.id, stores[i][k.id])
                        && (wanted == None || stores[i][k.id].complete == wanted.value)
                        && k.major == stores[i][k.id].updatedAt
  {
    hide WalkStories;
    StoryWalkSound(stores, base, wanted, limit, cursor, k);
    var i :| 0 <= i < |stores| && k in WantedKeys(stores[i], base, wanted);
    WantedPlainly(stores[i], base, wanted, k);
  }

  /** The rows of a page, and of a walk, come with later updates first. */
  lemma WalkOrderPlainly<A>(stores: seq<Store<A>>, base: (nat, Story<A>) -> bool, wanted: Option<bool>, limit: nat,
                            cursor: Option<Key>, i: nat, j: nat)
    requires limit > 0 && i < j < |WalkStories(stores, base, wanted, limit, cursor).rows|
    ensures var rows := WalkStories(stores, base, wanted, limit, cursor).rows;
            rows[i].major > rows[j].major || (rows[i].major == rows[j].major && rows[i].id > rows[j].id)
  {
    hide WalkStories;
    var rows := WalkStories(stores, base, wanted, limit, cursor).rows;
    StoryWalkSorted(stores, base, wanted, limit, cursor);
    MinorIsZero(stores, base, wanted, limit, cursor, rows[i]);
    MinorIsZero(stores, base, wanted, limit, cursor, rows[j]);
    OrderPlainly(rows[i], rows[j]);
  }

  lemma MinorIsZero<A>(stores: seq<Store<A>>, base: (nat, Story<A>) -> bool, wanted: Option<bool>, limit: nat,
                       cursor: Option<Key>, k: Key)
    requires limit > 0 && k in WalkStories(stores, base, wanted, limit, cursor).rows
    ensures k.minor == 0
  {
    hide WalkStories;
    StoryWalkSound(stores, base, wanted, limit, cursor, k);
    var i :| 0 <= i < |stores| && k in WantedKeys(stores[i], base, wanted);
    WantedPlainly(stores[i], base, wanted, k);
  }

  /** A batch holds between 25 and 200 rows, and room for the page and one more where 200 allow it. */
  lemma BatchSizePlainly(limit: nat)
    ensures 25 <= BatchSize(limit) <= 200 && (limit < 200 ==> BatchSize(limit) >= limit + 1)
    ensures BatchSize(limit) in {25, 200, limit + 1}
  {}
}
