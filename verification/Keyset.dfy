/** Keyset pagination over a set of sort keys: sort descending, keep what lies after a cursor, slice. */
module Keyset {
  import opened Wrappers

  /** ORDER BY major DESC, minor DESC, id DESC. */
  datatype Key = Key(major: int, minor: int, id: nat)

  /** a comes before b in the listing. */
  predicate Precedes(a: Key, b: Key) {
    || a.major > b.major
    || (a.major == b.major && a.minor > b.minor)
    || (a.major == b.major && a.minor == b.minor && a.id > b.id)
  }

  predicate Sorted(s: seq<Key>) { forall i, j :: 0 <= i < j < |s| ==> Precedes(s[i], s[j]) }

  function Elements(s: seq<Key>): set<Key> { set k | k in s }

  function Take(s: seq<Key>, n: nat): seq<Key> { if |s| <= n then s else s[..n] }

  function After(keys: set<Key>, cursor: Option<Key>): set<Key> {
    set k | k in keys && (cursor.None? || Precedes(cursor.value, k))
  }

  // ---------- sorting ----------

  predicate IsFirst(keys: set<Key>, k: Key) {
    k in keys && forall u :: u in keys && u != k ==> Precedes(k, u)
  }

  lemma {:induction false} FirstExists(keys: set<Key>)
    requires keys != {}
    ensures exists k :: IsFirst(keys, k)
  {
    var v :| v in keys;
    if keys == {v} {
      assert IsFirst(keys, v);
    } else {
      FirstExists(keys - {v});
      var m :| IsFirst(keys - {v}, m);
      var first := if Precedes(v, m) then v else m;
      forall u | u in keys && u != first
        ensures Precedes(first, u)
      {
        assert u == v || u in keys - {v};
      }
      assert IsFirst(keys, first);
    }
  }

  /** The first row of an ordered partition. */
  function First(keys: set<Key>): (k: Key)
    requires keys != {}
    ensures IsFirst(keys, k)
  {
    FirstExists(keys);
    var k :| IsFirst(keys, k);
    k
  }

  /** The listing of a set of keys, in order. */
  function Listing(keys: set<Key>): (s: seq<Key>)
    ensures Sorted(s) && Elements(s) == keys
  {
    if keys == {} then [] else
      var k := First(keys);
      var rest := Listing(keys - {k});
      assert forall u :: u in rest ==> u in Elements(rest);
      assert Elements([k] + rest) == {k} + Elements(rest);
      [k] + rest
  }

  /** A set has only one sorted listing. */
  lemma {:induction false} ListingUnique(s: seq<Key>, t: seq<Key>)
    requires Sorted(s) && Sorted(t) && Elements(s) == Elements(t)
    ensures s == t
  {
    if s == [] {
      NothingListed(t);
    } else {
      assert s[0] in Elements(t);
      assert t != [] && t[0] in Elements(s);
      var i :| 0 <= i < |t| && t[i] == s[0];
      var j :| 0 <= j < |s| && s[j] == t[0];
      assert i == 0 && j == 0;
      TailElements(s);
      TailElements(t);
      ListingUnique(s[1..], t[1..]);
    }
  }

  lemma NothingListed(s: seq<Key>)
    ensures s == [] <==> Elements(s) == {}
  {
    if s != [] { assert s[0] in Elements(s); }
  }

  lemma TailElements(s: seq<Key>)
    requires s != [] && Sorted(s)
    ensures Elements(s[1..]) == Elements(s) - {s[0]} && Sorted(s[1..])
  {
    assert s == [s[0]] + s[1..];
    forall k | k in s[1..]
      ensures k != s[0]
    {
      var i :| 0 <= i < |s[1..]| && s[1..][i] == k;
      assert Precedes(s[0], s[i + 1]);
    }
  }

  lemma SuffixMembers(s: seq<Key>, n: nat, k: Key)
    requires Sorted(s) && 0 < n <= |s|
    ensures k in s[n..] <==> k in s && Precedes(s[n - 1], k)
  {
    if k in s[n..] {
      var i :| 0 <= i < |s[n..]| && s[n..][i] == k;
      assert s[i + n] == k && Precedes(s[n - 1], s[i + n]);
    }
    if k in s && Precedes(s[n - 1], k) {
      var i :| 0 <= i < |s| && s[i] == k;
      assert s[n..][i - n] == k;
    }
  }

  /** The keys after the i-th one are listed by the rest of the listing. */
  lemma AfterIsSuffix(keys: set<Key>, s: seq<Key>, n: nat)
    requires s == Listing(keys) && 0 < n <= |s|
    ensures Listing(After(keys, Some(s[n - 1]))) == s[n..]
  {
    hide Listing, Precedes;
    var rest := After(keys, Some(s[n - 1]));
    forall k ensures k in Elements(s[n..]) <==> k in rest {
      SuffixMembers(s, n, k);
      assert k in s <==> k in Elements(s);
    }
    ListingUnique(Listing(rest), s[n..]);
  }

  // ---------- one page, and walks over many ----------

  datatype Page = Page(rows: seq<Key>, next: Option<Key>)

  /** LIMIT limit + 1; the page is the first `limit` rows, and the extra row only asks for another page. */
  function PageOf(keys: set<Key>, cursor: Option<Key>, limit: nat): Page
    requires limit > 0
  {
    var rows := Take(Listing(After(keys, cursor)), limit + 1);
    if |rows| > limit then Page(rows[..limit], Some(rows[limit - 1])) else Page(rows, None)
  }

  datatype Walk = Walk(rows: seq<Key>, finished: bool)

  /** Follow cursors, the store being stores[i] when the i-th page is requested. */
  function Follow(stores: seq<set<Key>>, cursor: Option<Key>, limit: nat): Walk
    requires limit > 0
  {
    if stores == [] then Walk([], false)
    else
      var page := PageOf(stores[0], cursor, limit);
      if page.next.None? then Walk(page.rows, true)
      else
        var later := Follow(stores[1..], page.next, limit);
        Walk(page.rows + later.rows, later.finished)
  }

  predicate AllAfter(s: seq<Key>, cursor: Option<Key>) {
    cursor.Some? ==> forall i :: 0 <= i < |s| ==> Precedes(cursor.value, s[i])
  }

  /** A page is sorted, lies after its cursor, comes from its store, and skips nothing up to its end. */
  lemma PageFacts(keys: set<Key>, cursor: Option<Key>, limit: nat)
    requires limit > 0
    ensures var page := PageOf(keys, cursor, limit);
            && Sorted(page.rows) && AllAfter(page.rows, cursor) && Elements(page.rows) <= keys
            && (page.next.Some? ==> |page.rows| == limit && page.next.value == page.rows[limit - 1])
            && forall k :: k in After(keys, cursor) ==>
                 k in page.rows || (page.next.Some? && Precedes(page.next.value, k))
  {
    var all := Listing(After(keys, cursor));
    var page := PageOf(keys, cursor, limit);
    forall i | 0 <= i < |all|
      ensures all[i] in After(keys, cursor)
    {
      assert all[i] in Elements(all);
    }
    forall k | k in After(keys, cursor) && k !in page.rows
      ensures page.next.Some? && Precedes(page.next.value, k)
    {
      assert k in Elements(all);
      var i :| 0 <= i < |all| && all[i] == k;
      assert page.rows == all[..|page.rows|];
      assert forall j :: 0 <= j < |page.rows| ==> page.rows[j] == all[j];
    }
  }

  /** No key is listed twice, whatever happens to the store between pages. */
  lemma {:induction false} WalkSorted(stores: seq<set<Key>>, cursor: Option<Key>, limit: nat)
    requires limit > 0
    ensures Sorted(Follow(stores, cursor, limit).rows)
    ensures AllAfter(Follow(stores, cursor, limit).rows, cursor)
  {
    NothingFollows(cursor);
    hide PageOf, Listing, After, Sorted, AllAfter, Elements;
    if stores != [] {
      PageFacts(stores[0], cursor, limit);
      var page := PageOf(stores[0], cursor, limit);
      if page.next.Some? {
        WalkSorted(stores[1..], page.next, limit);
        SortedConcat(page.rows, Follow(stores[1..], page.next, limit).rows, cursor);
      }
    }
  }

  lemma NothingFollows(cursor: Option<Key>)
    ensures Sorted([]) && AllAfter([], cursor)
  {}

  lemma SortedConcat(a: seq<Key>, b: seq<Key>, cursor: Option<Key>)
    requires Sorted(a) && Sorted(b) && a != [] && AllAfter(a, cursor) && AllAfter(b, Some(a[|a| - 1]))
    ensures Sorted(a + b) && AllAfter(a + b, cursor)
  {
    forall i, j | 0 <= i < |a| && 0 <= j < |b|
      ensures Precedes(a[i], b[j])
    {
      assert i == |a| - 1 || Precedes(a[i], a[|a| - 1]);
    }
  }

  /** A finished walk lists every key that is in the store at every request. */
  lemma {:induction false} WalkComplete(stores: seq<set<Key>>, cursor: Option<Key>, limit: nat, k: Key)
    requires limit > 0 && Follow(stores, cursor, limit).finished
    requires forall i :: 0 <= i < |stores| ==> k in stores[i]
    requires cursor.Some? ==> Precedes(cursor.value, k)
    ensures k in Follow(stores, cursor, limit).rows
  {
    PageFacts(stores[0], cursor, limit);
    assert k in stores[0];
    var page := PageOf(stores[0], cursor, limit);
    if k !in page.rows {
      WalkComplete(stores[1..], page.next, limit, k);
    }
  }

  /** Every listed key was in the store at one of the requests. */
  lemma {:induction false} WalkSound(stores: seq<set<Key>>, cursor: Option<Key>, limit: nat, k: Key)
    requires limit > 0 && k in Follow(stores, cursor, limit).rows
    ensures exists i :: 0 <= i < |stores| && k in stores[i]
  {
    PageFacts(stores[0], cursor, limit);
    var page := PageOf(stores[0], cursor, limit);
    if k in page.rows {
      assert k in Elements(page.rows);
      assert k in stores[0];
    } else {
      WalkSound(stores[1..], page.next, limit, k);
      var i :| 0 <= i < |stores[1..]| && k in stores[1..][i];
      assert k in stores[i + 1];
    }
  }

  /** On a store that does not change, a walk with enough requests finishes and is the whole listing. */
  lemma {:induction false} FixedStoreWalk(stores: seq<set<Key>>, keys: set<Key>, cursor: Option<Key>, limit: nat)
    requires limit > 0 && (forall i :: 0 <= i < |stores| ==> stores[i] == keys)
    requires |Listing(After(keys, cursor))| < |stores|
    ensures Follow(stores, cursor, limit) == Walk(Listing(After(keys, cursor)), true)
    decreases |stores|
  {
    hide Listing, After;
    var all := Listing(After(keys, cursor));
    var page := PageOf(keys, cursor, limit);
    if page.next.Some? {
      NextPageIsSuffix(keys, cursor, all, limit);
      FixedStoreWalk(stores[1..], keys, page.next, limit);
      assert page.rows == all[..limit];
      assert Follow(stores[1..], page.next, limit).rows == all[limit..];
    }
  }

  /** The listing after the n-th key of a listing is its rest. */
  lemma NextPageIsSuffix(keys: set<Key>, cursor: Option<Key>, all: seq<Key>, n: nat)
    requires all == Listing(After(keys, cursor)) && 0 < n <= |all|
    ensures Listing(After(keys, Some(all[n - 1]))) == all[n..]
  {
    var rest := After(keys, cursor);
    assert all[n - 1] in Elements(all);
    assert After(rest, Some(all[n - 1])) == After(keys, Some(all[n - 1]));
    AfterIsSuffix(rest, all, n);
  }

  // ---------- stable keys ----------

  function Ids(rows: seq<Key>): seq<nat> { seq(|rows|, i requires 0 <= i < |rows| => rows[i].id) }

  predicate OccursOnce(s: seq<nat>, x: nat) {
    exists i :: 0 <= i < |s| && s[i] == x && forall j :: 0 <= j < |s| && j != i ==> s[j] != x
  }

  /** A key that is there at every request, and the only one with its id, is listed once. */
  lemma StableKeyOnce(stores: seq<set<Key>>, limit: nat, key: Key)
    requires limit > 0 && Follow(stores, None, limit).finished
    requires forall p :: 0 <= p < |stores| ==> key in stores[p]
    requires forall p, k :: 0 <= p < |stores| && k in stores[p] && k.id == key.id ==> k == key
    ensures OccursOnce(Ids(Follow(stores, None, limit).rows), key.id)
  {
    hide Follow;
    var rows := Follow(stores, None, limit).rows;
    WalkComplete(stores, None, limit, key);
    WalkSorted(stores, None, limit);
    var i :| 0 <= i < |rows| && rows[i] == key;
    forall j | 0 <= j < |rows| && j != i
      ensures rows[j].id != key.id
    {
      WalkSound(stores, None, limit, rows[j]);
    }
    assert Ids(rows)[i] == key.id;
  }
}
