/** Coverage of an article by stories, computed three times: by correlated EXISTS for a row, by grouped
    outer joins for the facet counts, and in Python for the badge.  Tables are sequences of rows.

    The SQL and the Python forms count the characters of a text that are not white space, each by its own
    class of white space. */
module Coverage {
  import opened Wrappers

  const MIN_INDEPENDENT_SOURCES: nat := 2
  const MIN_BODY_CHARACTERS: nat := 800

  /** story_evidence_snapshots */
  datatype Snapshot = Snapshot(story: nat, item: Option<nat>, source: Option<int>, text: string, primary: bool)

  datatype Item = Item(id: nat, cleared: bool)

  /** `stories` maps each story to whether it is superseded; `space` is what the regular expression \s matches
      in the database's locale. */
  datatype Database = Database(items: seq<Item>, stories: map<nat, bool>, snapshots: seq<Snapshot>, space: char -> bool)

  datatype State = Complete | Incomplete | Ungrouped

  predicate ActiveStory(db: Database, story: nat) { story in db.stories && !db.stories[story] }

  predicate ActiveFeed(item: Item) { !item.cleared }

  // ---------- the completeness subquery ----------

  function Sources(snapshots: seq<Snapshot>, story: nat): set<int> {
    set s | s in snapshots && s.story == story && s.source.Some? :: s.source.value
  }

  /** The characters of a text outside a class. */
  function Counted(space: char -> bool, text: string): nat {
    if text == "" then 0 else (if space(text[0]) then 0 else 1) + Counted(space, text[1..])
  }

  function BodySum(space: char -> bool, snapshots: seq<Snapshot>, story: nat): nat {
    if snapshots == [] then 0
    else
      (if snapshots[0].story == story then Counted(space, snapshots[0].text) else 0)
      + BodySum(space, snapshots[1..], story)
  }

  /** The subquery has a row for the story, and the row meets the thresholds. */
  predicate CompletenessRow(db: Database, story: nat) {
    && (exists s :: s in db.snapshots && s.story == story)
    && |Sources(db.snapshots, story)| >= MIN_INDEPENDENT_SOURCES
    && BodySum(db.space, db.snapshots, story) >= MIN_BODY_CHARACTERS
    && exists s :: s in db.snapshots && s.story == story && s.primary
  }

  // ---------- the row-level expression ----------

  predicate ActiveStoryExists(db: Database, id: nat) {
    exists link :: link in db.snapshots && ActiveStory(db, link.story) && link.item == Some(id)
  }

  predicate CompleteStoryExists(db: Database, id: nat) {
    exists link ::
      link in db.snapshots && ActiveStory(db, link.story) && link.item == Some(id) && CompletenessRow(db, link.story)
  }

  function CoverageState(db: Database, id: nat): State {
    if CompleteStoryExists(db, id) then Complete
    else if ActiveStoryExists(db, id) then Incomplete
    else Ungrouped
  }

  /** count_statement with the coverage filter and nothing else. */
  function ResultCount(db: Database, items: seq<Item>, coverage: set<State>): nat {
    if items == [] then 0 else
      (if ActiveFeed(items[0]) && CoverageState(db, items[0].id) in coverage then 1 else 0)
      + ResultCount(db, items[1..], coverage)
  }

  function ActiveFeedSize(items: seq<Item>): nat {
    if items == [] then 0 else (if ActiveFeed(items[0]) then 1 else 0) + ActiveFeedSize(items[1..])
  }

  // ---------- the facet statement ----------

  /** SELECT content_item_id of the links that satisfy the joins and the WHERE clause. */
  function LinkedItems(db: Database, links: seq<Snapshot>, complete: bool): seq<Option<nat>> {
    if links == [] then [] else
      (if ActiveStory(db, links[0].story) && (complete ==> CompletenessRow(db, links[0].story)) then [links[0].item] else [])
      + LinkedItems(db, links[1..], complete)
  }

  /** GROUP BY with no aggregate: every value once. */
  function Grouped<T(==,!new)>(rows: seq<T>): (groups: seq<T>)
    ensures forall x :: x in groups <==> x in rows
    ensures forall i, j :: 0 <= i < j < |groups| ==> groups[i] != groups[j]
  {
    if rows == [] then []
    else
      var rest := Grouped(rows[1..]);
      if rows[0] in rest then rest else [rows[0]] + rest
  }

  /** The rows of a joined table whose key is the given id; a NULL key equals nothing. */
  function Matching(table: seq<Option<nat>>, id: nat): seq<Option<nat>> {
    if table == [] then [] else (if table[0] == Some(id) then [table[0]] else []) + Matching(table[1..], id)
  }

  /** One output row for every match, and a null-extended row when there is none. */
  function LeftJoin<L, R>(left: seq<L>, keyOf: L -> nat, table: seq<Option<nat>>, extend: (L, Option<nat>) -> R): seq<R> {
    if left == [] then []
    else
      var matches := Matching(table, keyOf(left[0]));
      (if matches == [] then [extend(left[0], None)] else seq(|matches|, i requires 0 <= i < |matches| => extend(left[0], matches[i])))
      + LeftJoin(left[1..], keyOf, table, extend)
  }

  datatype HalfRow = HalfRow(item: Item, active: Option<nat>)
  datatype Row = Row(item: Item, active: Option<nat>, complete: Option<nat>)

  const ITEM_ID: Item -> nat := (item: Item) => item.id
  const HALF_ID: HalfRow -> nat := (half: HalfRow) => half.item.id
  const ADD_ACTIVE: (Item, Option<nat>) -> HalfRow := (item: Item, active: Option<nat>) => HalfRow(item, active)
  const ADD_COMPLETE: (HalfRow, Option<nat>) -> Row := (half: HalfRow, complete: Option<nat>) => Row(half.item, half.active, complete)

  function JoinedRows(db: Database): seq<Row> {
    LeftJoin(LeftJoin(db.items, ITEM_ID, Grouped(LinkedItems(db, db.snapshots, false)), ADD_ACTIVE),
             HALF_ID, Grouped(LinkedItems(db, db.snapshots, true)), ADD_COMPLETE)
  }

  function RowState(row: Row): State {
    if row.complete.Some? then Complete else if row.active.Some? then Incomplete else Ungrouped
  }

  function CountRows(rows: seq<Row>, state: State): nat {
    if rows == [] then 0
    else (if ActiveFeed(rows[0].item) && RowState(rows[0]) == state then 1 else 0) + CountRows(rows[1..], state)
  }

  /** GROUP BY coverage_state: only states that occur have a row. */
  function Facets(db: Database): map<State, nat> {
    var rows := JoinedRows(db);
    map state | state in {Complete, Incomplete, Ungrouped} && CountRows(rows, state) > 0 :: CountRows(rows, state)
  }

  // ---------- a join with a grouped table neither drops nor repeats rows ----------

  function Looked(table: seq<Option<nat>>, id: nat): Option<nat> { if Some(id) in table then Some(id) else None }

  lemma {:induction false} MatchingOnce(table: seq<Option<nat>>, id: nat)
    requires forall i, j :: 0 <= i < j < |table| ==> table[i] != table[j]
    ensures Matching(table, id) == if Some(id) in table then [Some(id)] else []
  {
    if table != [] {
      MatchingOnce(table[1..], id);
      assert table == [table[0]] + table[1..];
    }
  }

  lemma {:induction false} JoinIsLookup<L, R>(left: seq<L>, keyOf: L -> nat, table: seq<Option<nat>>,
                                              extend: (L, Option<nat>) -> R)
    requires forall i, j :: 0 <= i < j < |table| ==> table[i] != table[j]
    ensures |LeftJoin(left, keyOf, table, extend)| == |left|
    ensures forall i :: 0 <= i < |left| ==>
              LeftJoin(left, keyOf, table, extend)[i] == extend(left[i], Looked(table, keyOf(left[i])))
  {
    if left != [] {
      MatchingOnce(table, keyOf(left[0]));
      JoinIsLookup(left[1..], keyOf, table, extend);
    }
  }

  lemma {:induction false} LinkedItemsMembers(db: Database, links: seq<Snapshot>, complete: bool, id: nat)
    ensures Some(id) in LinkedItems(db, links, complete) <==>
            exists link :: link in links && ActiveStory(db, link.story) && link.item == Some(id)
                           && (complete ==> CompletenessRow(db, link.story))
  {
    hide ActiveStory, CompletenessRow;
    if links != [] {
      LinkedItemsMembers(db, links[1..], complete, id);
      assert forall link :: link in links <==> link == links[0] || link in links[1..];
    }
  }

  /** Every joined row carries its item's row-level state. */
  lemma JoinedRowsState(db: Database)
    ensures |JoinedRows(db)| == |db.items|
    ensures forall i :: 0 <= i < |db.items| ==>
              JoinedRows(db)[i].item == db.items[i] && RowState(JoinedRows(db)[i]) == CoverageState(db, db.items[i].id)
  {
    hide LinkedItems, CompletenessRow, ActiveStory;
    var active, complete := Grouped(LinkedItems(db, db.snapshots, false)), Grouped(LinkedItems(db, db.snapshots, true));
    var half := LeftJoin(db.items, ITEM_ID, active, ADD_ACTIVE);
    JoinIsLookup(db.items, ITEM_ID, active, ADD_ACTIVE);
    JoinIsLookup(half, HALF_ID, complete, ADD_COMPLETE);
    forall i | 0 <= i < |db.items|
      ensures JoinedRows(db)[i].item == db.items[i] && RowState(JoinedRows(db)[i]) == CoverageState(db, db.items[i].id)
    {
      var id := db.items[i].id;
      LinkedItemsMembers(db, db.snapshots, false, id);
      LinkedItemsMembers(db, db.snapshots, true, id);
      assert half[i] == HalfRow(db.items[i], Looked(active, id));
      assert JoinedRows(db)[i] == Row(db.items[i], Looked(active, id), Looked(complete, id));
    }
  }

  lemma {:induction false} CountsAgree(db: Database, rows: seq<Row>, items: seq<Item>, state: State)
    requires |rows| == |items|
    requires forall i :: 0 <= i < |items| ==> rows[i].item == items[i] && RowState(rows[i]) == CoverageState(db, items[i].id)
    ensures CountRows(rows, state) == ResultCount(db, items, {state})
  {
    hide CoverageState, RowState;
    if rows != [] {
      assert rows[0].item == items[0];
      CountsAgree(db, rows[1..], items[1..], state);
    }
  }

  // ---------- the theorems ----------

  /** Each facet count is the result_count of a listing filtered by that coverage alone; a state without a
      facet row has none. */
  lemma FacetIsResultCount(db: Database, state: State)
    ensures (if state in Facets(db) then Facets(db)[state] else 0) == ResultCount(db, db.items, {state})
    ensures state in Facets(db) <==> ResultCount(db, db.items, {state}) > 0
  {
    hide JoinedRows, CountRows, ResultCount;
    JoinedRowsState(db);
    CountsAgree(db, JoinedRows(db), db.items, state);
    assert state in {Complete, Incomplete, Ungrouped};
  }

  /** The three counts sum to the active feed size. */
  lemma {:induction false} CountsPartitionFeed(db: Database, items: seq<Item>)
    ensures ResultCount(db, items, {Complete}) + ResultCount(db, items, {Incomplete}) + ResultCount(db, items, {Ungrouped})
         == ActiveFeedSize(items)
  {
    if items != [] { CountsPartitionFeed(db, items[1..]); }
  }

  // ---------- the Python evaluation ----------

  /** str.isspace */
  predicate PythonSpace(c: char) {
    var n := c as int;
    || 0x09 <= n <= 0x0D || 0x1C <= n <= 0x20 || n == 0x85 || n == 0xA0 || n == 0x1680 || 0x2000 <= n <= 0x200A
    || n == 0x2028 || n == 0x2029 || n == 0x202F || n == 0x205F || n == 0x3000
  }

  const PYTHON_SPACE: char -> bool := (c: char) => PythonSpace(c)

  function EvidenceOf(snapshots: seq<Snapshot>, story: nat): seq<Snapshot> {
    if snapshots == [] then []
    else (if snapshots[0].story == story then [snapshots[0]] else []) + EvidenceOf(snapshots[1..], story)
  }

  function Identities(evidence: seq<Snapshot>): set<int> {
    set e | e in evidence && e.source.Some? :: e.source.value
  }

  function TotalBody(evidence: seq<Snapshot>): nat {
    if evidence == [] then 0
    else TotalBody(evidence[..|evidence| - 1]) + Counted(PYTHON_SPACE, evidence[|evidence| - 1].text)
  }

  predicate EvidenceComplete(evidence: seq<Snapshot>) {
    && |Identities(evidence)| >= MIN_INDEPENDENT_SOURCES
    && TotalBody(evidence) >= MIN_BODY_CHARACTERS
    && exists e :: e in evidence && e.primary
  }

  datatype Reason = FewerThanTwoSources | InsufficientBody | MissingPrimary | UnresolvedContradictions

  datatype Report = Report(reasons: seq<Reason>, sources: nat, characters: nat, hasPrimary: bool) {
    predicate Complete() { reasons == [] }
  }

  lemma {:induction false} CountedSnoc(space: char -> bool, text: string, c: char)
    ensures Counted(space, text + [c]) == Counted(space, text) + if space(c) then 0 else 1
  {
    if text == "" {
      assert text + [c] == [c] && [c][1..] == "";
    } else {
      CountedSnoc(space, text[1..], c);
      assert (text + [c])[1..] == text[1..] + [c];
    }
  }

  /** sum(not char.isspace() for char in text) */
  method CountCharacters(text: string) returns (count: nat)
    ensures count == Counted(PYTHON_SPACE, text)
  {
    count := 0;
    for i := 0 to |text|
      invariant count == Counted(PYTHON_SPACE, text[..i])
    {
      CountedSnoc(PYTHON_SPACE, text[..i], text[i]);
      assert text[..i + 1] == text[..i] + [text[i]];
      if !PythonSpace(text[i]) { count := count + 1; }
    }
    assert text[..|text|] == text;
  }

  ghost predicate HasPrimary(evidence: seq<Snapshot>) { exists e :: e in evidence && e.primary }

  lemma MeasuresSnoc(evidence: seq<Snapshot>, e: Snapshot)
    ensures Identities(evidence + [e]) == Identities(evidence) + if e.source.Some? then {e.source.value} else {}
    ensures TotalBody(evidence + [e]) == TotalBody(evidence) + Counted(PYTHON_SPACE, e.text)
    ensures HasPrimary(evidence + [e]) <==> HasPrimary(evidence) || e.primary
  {
    hide Counted;
    assert (evidence + [e])[..|evidence|] == evidence;
    assert forall x :: x in evidence + [e] <==> x in evidence || x == e;
  }

  /** The sums at the start of evaluate_completeness. */
  method MeasureEvidence(evidence: seq<Snapshot>) returns (identities: set<int>, characters: nat, hasPrimary: bool)
    ensures identities == Identities(evidence) && characters == TotalBody(evidence)
    ensures hasPrimary <==> HasPrimary(evidence)
  {
    NothingMeasured();
    hide Counted, Identities, TotalBody, HasPrimary;
    identities, characters, hasPrimary := {}, 0, false;
    for i := 0 to |evidence|
      invariant identities == Identities(evidence[..i]) && characters == TotalBody(evidence[..i])
      invariant hasPrimary <==> HasPrimary(evidence[..i])
    {
      var e := evidence[i];
      assert evidence[..i + 1] == evidence[..i] + [e];
      MeasuresSnoc(evidence[..i], e);
      if e.source.Some? { identities := identities + {e.source.value}; }
      var count := CountCharacters(e.text);
      characters := characters + count;
      hasPrimary := hasPrimary || e.primary;
    }
    assert evidence[..|evidence|] == evidence;
  }

  lemma NothingMeasured()
    ensures Identities([]) == {} && TotalBody([]) == 0 && !HasPrimary([])
  {}

  /** evaluate_completeness, without the score. */
  method EvaluateCompleteness(evidence: seq<Snapshot>, contradictions: seq<string>) returns (report: Report)
    ensures report.sources == |Identities(evidence)| && report.characters == TotalBody(evidence)
    ensures report.hasPrimary <==> exists e :: e in evidence && e.primary
    ensures report.Complete() <==> EvidenceComplete(evidence) && contradictions == []
    ensures FewerThanTwoSources in report.reasons <==> report.sources < 2
    ensures InsufficientBody in report.reasons <==> report.characters < 800
    ensures MissingPrimary in report.reasons <==> !report.hasPrimary
    ensures UnresolvedContradictions in report.reasons <==> contradictions != []
  {
    hide Identities, TotalBody;
    var identities, characters, hasPrimary := MeasureEvidence(evidence);
    var reasons: seq<Reason> := [];
    if |identities| < MIN_INDEPENDENT_SOURCES { reasons := reasons + [FewerThanTwoSources]; }
    if characters < MIN_BODY_CHARACTERS { reasons := reasons + [InsufficientBody]; }
    if !hasPrimary { reasons := reasons + [MissingPrimary]; }
    if contradictions != [] { reasons := reasons + [UnresolvedContradictions]; }
    report := Report(reasons, |identities|, characters, hasPrimary);
  }

  // ---------- the badge ----------

  /** An active story has a link to the article. */
  predicate Associated(db: Database, id: nat, story: nat) {
    ActiveStory(db, story) && exists link :: link in db.snapshots && link.item == Some(id) && link.story == story
  }

  function BadgeState(db: Database, id: nat): State {
    if exists link :: link in db.snapshots && Associated(db, id, link.story)
                      && EvidenceComplete(EvidenceOf(db.snapshots, link.story)) then Complete
    else if ActiveStoryExists(db, id) then Incomplete
    else Ungrouped
  }

  /** _story_associations for one article: its active stories, each once. */
  method StoryAssociations(db: Database, id: nat) returns (stories: seq<nat>)
    ensures forall story :: story in stories <==> Associated(db, id, story)
    ensures forall i, j :: 0 <= i < j < |stories| ==> stories[i] != stories[j]
  {
    hide ActiveStory;
    stories := [];
    var seen: set<nat> := {};
    for k := 0 to |db.snapshots|
      invariant forall story :: story in stories <==> story in seen
      invariant forall story :: story in stories <==>
                  ActiveStory(db, story)
                  && exists link :: link in db.snapshots[..k] && link.item == Some(id) && link.story == story
      invariant forall i, j :: 0 <= i < j < |stories| ==> stories[i] != stories[j]
    {
      var link := db.snapshots[k];
      assert db.snapshots[..k + 1] == db.snapshots[..k] + [link];
      if link.item != Some(id) || !ActiveStory(db, link.story) { continue; }
      if link.story in seen { continue; }
      seen := seen + {link.story};
      stories := stories + [link.story];
    }
    assert db.snapshots[..|db.snapshots|] == db.snapshots;
  }

  /** _coverage: complete if any associated story is, ungrouped if there is none. */
  method Badge(db: Database, id: nat) returns (state: State)
    ensures state == BadgeState(db, id)
  {
    hide ActiveStory, EvidenceComplete, EvidenceOf;
    var stories := StoryAssociations(db, id);
    var anyComplete := false;
    for k := 0 to |stories|
      invariant anyComplete <==> exists i :: 0 <= i < k && EvidenceComplete(EvidenceOf(db.snapshots, stories[i]))
    {
      var report := EvaluateCompleteness(EvidenceOf(db.snapshots, stories[k]), []);
      anyComplete := anyComplete || report.Complete();
    }
    AssociatedLinks(db, id, stories);
    state := if anyComplete then Complete else if stories != [] then Incomplete else Ungrouped;
  }

  lemma AssociatedHasLink(db: Database, id: nat, story: nat)
    requires Associated(db, id, story)
    ensures exists link :: link in db.snapshots && link.story == story
  {
    hide ActiveStory;
  }

  lemma AssociatedIsActive(db: Database, id: nat)
    ensures ActiveStoryExists(db, id) <==> exists link :: link in db.snapshots && Associated(db, id, link.story)
  {
    hide ActiveStory;
  }

  lemma AssociatedLink(db: Database, id: nat, stories: seq<nat>, i: nat)
    requires i < |stories| && Associated(db, id, stories[i])
    ensures exists link :: link in db.snapshots && link.story == stories[i] && Associated(db, id, link.story)
  {
    hide Associated;
    AssociatedHasLink(db, id, stories[i]);
  }

  lemma AssociatedLinks(db: Database, id: nat, stories: seq<nat>)
    requires forall story :: story in stories <==> Associated(db, id, story)
    ensures stories != [] <==> ActiveStoryExists(db, id)
    ensures forall i :: 0 <= i < |stories| ==>
              exists link :: link in db.snapshots && link.story == stories[i] && Associated(db, id, link.story)
    ensures forall link :: link in db.snapshots && Associated(db, id, link.story) ==> link.story in stories
  {
    AssociatedIsActive(db, id);
    hide Associated, ActiveStoryExists;
    forall i | 0 <= i < |stories|
      ensures exists link :: link in db.snapshots && link.story == stories[i] && Associated(db, id, link.story)
    {
      assert stories[i] in stories;
      AssociatedLink(db, id, stories, i);
    }
    if stories != [] {
      var link :| link in db.snapshots && link.story == stories[0] && Associated(db, id, link.story);
    }
  }

  // ---------- where the two counts part ----------

  /** Whatever the database takes for white space, Python does. */
  ghost predicate Narrow(space: char -> bool) { forall c :: space(c) ==> PythonSpace(c) }

  lemma {:induction false} CountsCompare(space: char -> bool, text: string)
    requires Narrow(space)
    ensures Counted(space, text) >= Counted(PYTHON_SPACE, text)
    ensures Counted(space, text) == Counted(PYTHON_SPACE, text) <==> forall c :: c in text && PythonSpace(c) ==> space(c)
  {
    hide PythonSpace;
    if text != "" {
      CountsCompare(space, text[1..]);
      assert text == [text[0]] + text[1..];
    }
  }

  lemma {:induction false} EvidenceMembers(snapshots: seq<Snapshot>, story: nat)
    ensures forall e :: e in EvidenceOf(snapshots, story) <==> e in snapshots && e.story == story
  {
    if snapshots != [] {
      EvidenceMembers(snapshots[1..], story);
      assert forall e :: e in snapshots <==> e == snapshots[0] || e in snapshots[1..];
    }
  }

  lemma {:induction false} TotalOfCons(e: Snapshot, evidence: seq<Snapshot>)
    ensures TotalBody([e] + evidence) == Counted(PYTHON_SPACE, e.text) + TotalBody(evidence)
  {
    var all := [e] + evidence;
    if evidence == [] {
      assert all[..0] == [];
    } else {
      TotalOfCons(e, evidence[..|evidence| - 1]);
      assert all[..|all| - 1] == [e] + evidence[..|evidence| - 1];
    }
  }

  lemma {:induction false} TotalIsSum(snapshots: seq<Snapshot>, story: nat)
    ensures TotalBody(EvidenceOf(snapshots, story)) == BodySum(PYTHON_SPACE, snapshots, story)
  {
    if snapshots != [] {
      TotalIsSum(snapshots[1..], story);
      var rest := EvidenceOf(snapshots[1..], story);
      TotalOfCons(snapshots[0], rest);
      assert [] + rest == rest;
    }
  }

  lemma {:induction false} SumsCompare(space: char -> bool, snapshots: seq<Snapshot>, story: nat)
    requires Narrow(space)
    ensures BodySum(space, snapshots, story) >= BodySum(PYTHON_SPACE, snapshots, story)
  {
    if snapshots != [] {
      SumsCompare(space, snapshots[1..], story);
      CountsCompare(space, snapshots[0].text);
    }
  }

  /** Enough for the SQL row, not enough for Python: the white space that only Python knows tips the balance. */
  predicate Borderline(db: Database, story: nat) {
    && |Sources(db.snapshots, story)| >= MIN_INDEPENDENT_SOURCES
    && (exists s :: s in db.snapshots && s.story == story && s.primary)
    && BodySum(PYTHON_SPACE, db.snapshots, story) < MIN_BODY_CHARACTERS <= BodySum(db.space, db.snapshots, story)
  }

  /** A story that Python calls complete meets the SQL row; the other way round all but the borderline ones. */
  lemma CompletenessCompared(db: Database, story: nat)
    requires Narrow(db.space)
    ensures EvidenceComplete(EvidenceOf(db.snapshots, story)) <==> CompletenessRow(db, story) && !Borderline(db, story)
    ensures Borderline(db, story) ==> CompletenessRow(db, story)
  {
    EvidenceMembers(db.snapshots, story);
    TotalIsSum(db.snapshots, story);
    SumsCompare(db.space, db.snapshots, story);
    assert Identities(EvidenceOf(db.snapshots, story)) == Sources(db.snapshots, story);
  }

  lemma CompleteLinks(db: Database, id: nat)
    ensures CompleteStoryExists(db, id) <==>
            exists link :: link in db.snapshots && Associated(db, id, link.story) && CompletenessRow(db, link.story)
  {
    hide ActiveStory, CompletenessRow;
  }

  /** The badge and the filter differ exactly when a borderline story is associated and no story that Python
      calls complete; the filter then says complete and the badge incomplete. */
  lemma BadgeDiffersExactly(db: Database, id: nat)
    requires Narrow(db.space)
    ensures BadgeState(db, id) != CoverageState(db, id) <==>
            && (exists link :: link in db.snapshots && Associated(db, id, link.story) && Borderline(db, link.story))
            && !exists link :: link in db.snapshots && Associated(db, id, link.story)
                               && EvidenceComplete(EvidenceOf(db.snapshots, link.story))
    ensures BadgeState(db, id) != CoverageState(db, id) ==>
              CoverageState(db, id) == Complete && BadgeState(db, id) == Incomplete
  {
    hide CompletenessRow, EvidenceComplete, EvidenceOf, Borderline, Associated;
    CompleteLinks(db, id);
    AssociatedIsActive(db, id);
    forall story
      ensures EvidenceComplete(EvidenceOf(db.snapshots, story)) <==> CompletenessRow(db, story) && !Borderline(db, story)
      ensures Borderline(db, story) ==> CompletenessRow(db, story)
    {
      CompletenessCompared(db, story);
    }
  }

  /** On texts whose white space both know, the badge on a row is the state its filter and facet see. */
  lemma BadgeAgreesOnCommonSpace(db: Database, id: nat)
    requires Narrow(db.space)
    requires forall s, c :: s in db.snapshots && c in s.text && PythonSpace(c) ==> db.space(c)
    ensures BadgeState(db, id) == CoverageState(db, id)
  {
    hide CompletenessRow, EvidenceComplete, EvidenceOf, Associated, BadgeState, CoverageState, PythonSpace;
    forall story ensures !Borderline(db, story) {
      SumsAgree(db.space, db.snapshots, story);
    }
    BadgeDiffersExactly(db, id);
  }

  lemma {:induction false} SumsAgree(space: char -> bool, snapshots: seq<Snapshot>, story: nat)
    requires Narrow(space)
    requires forall s, c :: s in snapshots && c in s.text && PythonSpace(c) ==> space(c)
    ensures BodySum(space, snapshots, story) == BodySum(PYTHON_SPACE, snapshots, story)
  {
    hide PythonSpace;
    if snapshots != [] {
      SumsAgree(space, snapshots[1..], story);
      CountsCompare(space, snapshots[0].text);
    }
  }

  // ---------- the C library's class ----------

  /** The space class of the GNU C library: without the no-break spaces and the separators 1C to 1F. */
  predicate LibrarySpace(c: char) {
    var n := c as int;
    || 0x09 <= n <= 0x0D || n == 0x20 || n == 0x1680 || 0x2000 <= n <= 0x2006 || 0x2008 <= n <= 0x200A
    || n == 0x2028 || n == 0x2029 || n == 0x205F || n == 0x3000
  }

  const LIBRARY_SPACE: char -> bool := (c: char) => LibrarySpace(c)

  const NO_BREAK_SPACE: char := 0xA0 as char

  function Repeated(c: char, n: nat): string { if n == 0 then "" else [c] + Repeated(c, n - 1) }

  lemma {:induction false} CountRepeated(space: char -> bool, c: char, n: nat, rest: string)
    requires !space(c)
    ensures Counted(space, Repeated(c, n) + rest) == n + Counted(space, rest)
  {
    if n == 0 {
      assert "" + rest == rest;
    } else {
      CountRepeated(space, c, n - 1, rest);
      assert (Repeated(c, n) + rest)[1..] == Repeated(c, n - 1) + rest;
    }
  }

  /** 799 letters and a no-break space, from two sources and with a primary. */
  function OneShort(space: char -> bool): Database {
    Database([Item(1, false)], map[7 := false],
             [Snapshot(7, Some(1), Some(10), Repeated('a', 799) + [NO_BREAK_SPACE], true), Snapshot(7, None, Some(11), "", false)],
             space)
  }

  lemma LibraryIsNarrow()
    ensures Narrow(LIBRARY_SPACE) && !LIBRARY_SPACE(NO_BREAK_SPACE)
  {}

  /** In every locale that takes the no-break space for no white space, the filter says complete and the badge
      incomplete. */
  lemma BadgeCanDisagree(space: char -> bool)
    requires Narrow(space) && !space(NO_BREAK_SPACE)
    ensures CoverageState(OneShort(space), 1) == Complete && BadgeState(OneShort(space), 1) == Incomplete
  {
    hide CompletenessRow, EvidenceComplete, EvidenceOf;
    var db := OneShort(space);
    var link := db.snapshots[0];
    OneShortIsBorderline(space);
    CompletenessCompared(db, 7);
    assert link in db.snapshots && link.item == Some(1) && ActiveStory(db, 7);
    assert forall l :: l in db.snapshots ==> l.story == 7;
  }

  lemma OneShortIsBorderline(space: char -> bool)
    requires Narrow(space) && !space(NO_BREAK_SPACE)
    ensures Borderline(OneShort(space), 7)
  {
    var db := OneShort(space);
    OneShortSum(space, db.snapshots[0], db.snapshots[1]);
    OneShortSum(PYTHON_SPACE, db.snapshots[0], db.snapshots[1]);
    hide Repeated, Counted, BodySum;
    assert !PythonSpace('a') && PythonSpace(NO_BREAK_SPACE) && !space('a');
    assert db.snapshots == [db.snapshots[0], db.snapshots[1]];
    assert db.snapshots[0] in db.snapshots && db.snapshots[1] in db.snapshots;
    assert {10, 11} <= Sources(db.snapshots, 7);
    TwoSources(Sources(db.snapshots, 7));
  }

  lemma TwoSources(sources: set<int>)
    requires {10, 11} <= sources
    ensures |sources| >= 2
  {
    assert |sources - {10, 11}| + 2 == |sources|;
  }

  lemma OneShortSum(space: char -> bool, s: Snapshot, t: Snapshot)
    requires s.story == t.story == 7 && s.text == Repeated('a', 799) + [NO_BREAK_SPACE] && t.text == ""
    requires !space('a')
    ensures BodySum(space, [s, t], 7) == 799 + if space(NO_BREAK_SPACE) then 0 else 1
  {
    hide Repeated;
    CountRepeated(space, 'a', 799, [NO_BREAK_SPACE]);
    assert [NO_BREAK_SPACE][1..] == "" && Counted(space, "") == 0;
    assert [s, t][1..] == [t] && [t][1..] == [];
    assert BodySum(space, [t], 7) == 0;
  }

  // ---------- the same in plain terms ----------

  lemma RowPlainly(db: Database, link: Snapshot)
    requires link in db.snapshots
    ensures CompletenessRow(db, link.story) <==>
            && |set s | s in db.snapshots && s.story == link.story && s.source.Some? :: s.source.value| >= 2
            && BodySum(db.space, db.snapshots, link.story) >= 800
            && exists s :: s in db.snapshots && s.story == link.story && s.primary
  {
    assert Sources(db.snapshots, link.story)
        == set s | s in db.snapshots && s.story == link.story && s.source.Some? :: s.source.value;
  }

  lemma CompleteByLink(db: Database, id: nat, link: Snapshot)
    requires link in db.snapshots && link.item == Some(id) && link.story in db.stories && !db.stories[link.story]
    requires |set s | s in db.snapshots && s.story == link.story && s.source.Some? :: s.source.value| >= 2
    requires BodySum(db.space, db.snapshots, link.story) >= 800
    requires exists s :: s in db.snapshots && s.story == link.story && s.primary
    ensures CoverageState(db, id) == Complete
  {
    RowPlainly(db, link);
    hide CompletenessRow, BodySum;
  }

  lemma LinkOfComplete(db: Database, id: nat) returns (link: Snapshot)
    requires CoverageState(db, id) == Complete
    ensures link in db.snapshots && link.item == Some(id) && link.story in db.stories && !db.stories[link.story]
    ensures |set s | s in db.snapshots && s.story == link.story && s.source.Some? :: s.source.value| >= 2
    ensures BodySum(db.space, db.snapshots, link.story) >= 800
    ensures exists s :: s in db.snapshots && s.story == link.story && s.primary
  {
    hide CompletenessRow, BodySum;
    link :| link in db.snapshots && ActiveStory(db, link.story) && link.item == Some(id) && CompletenessRow(db, link.story);
    RowPlainly(db, link);
  }

  lemma UngroupedPlainly(db: Database, id: nat)
    ensures CoverageState(db, id) == Ungrouped <==>
              forall link :: link in db.snapshots && link.item == Some(id) ==>
                link.story !in db.stories || db.stories[link.story]
  {
    hide CompletenessRow;
  }

  /** Complete is an item that a story not superseded links, if that story has two sources, 800 characters that are
      no white space, and a primary; ungrouped is one that no such story links. */
  lemma CoveragePlainly(db: Database, id: nat)
    ensures CoverageState(db, id) == Complete <==>
              exists link :: link in db.snapshots && link.item == Some(id)
                && link.story in db.stories && !db.stories[link.story]
                && |set s | s in db.snapshots && s.story == link.story && s.source.Some? :: s.source.value| >= 2
                && BodySum(db.space, db.snapshots, link.story) >= 800
                && exists s :: s in db.snapshots && s.story == link.story && s.primary
    ensures CoverageState(db, id) == Ungrouped <==>
              forall link :: link in db.snapshots && link.item == Some(id) ==>
                link.story !in db.stories || db.stories[link.story]
  {
    hide CoverageState, BodySum;
    UngroupedPlainly(db, id);
    if CoverageState(db, id) == Complete { var link := LinkOfComplete(db, id); }
    forall link | link in db.snapshots && link.item == Some(id)
                  && link.story in db.stories && !db.stories[link.story]
                  && |set s | s in db.snapshots && s.story == link.story && s.source.Some? :: s.source.value| >= 2
                  && BodySum(db.space, db.snapshots, link.story) >= 800
                  && exists s :: s in db.snapshots && s.story == link.story && s.primary
      ensures CoverageState(db, id) == Complete
    {
      CompleteByLink(db, id, link);
    }
  }

  /** The badge by the same measures, with the characters that Python takes for white space left out. */
  lemma BadgePlainly(db: Database, id: nat)
    ensures BadgeState(db, id) == Complete <==>
              exists link :: link in db.snapshots && link.item == Some(id)
                && link.story in db.stories && !db.stories[link.story]
                && |set s | s in db.snapshots && s.story == link.story && s.source.Some? :: s.source.value| >= 2
                && BodySum(PYTHON_SPACE, db.snapshots, link.story) >= 800
                && exists s :: s in db.snapshots && s.story == link.story && s.primary
    ensures BadgeState(db, id) == Ungrouped <==>
              forall link :: link in db.snapshots && link.item == Some(id) ==>
                link.story !in db.stories || db.stories[link.story]
  {
    var python := db.(space := PYTHON_SPACE);
    BadgeAgreesOnCommonSpace(python, id);
    CoveragePlainly(python, id);
    SameBadge(db, python, id);
  }

  /** The badge does not depend on what the database takes for white space. */
  lemma SameBadge(db: Database, other: Database, id: nat)
    requires other == db.(space := other.space)
    ensures BadgeState(db, id) == BadgeState(other, id)
  {
    hide EvidenceComplete, EvidenceOf;
    assert forall story :: Associated(db, id, story) <==> Associated(other, id, story);
  }

  lemma OneMorePosition(n: nat, wanted: nat -> bool)
    ensures |set i: nat | i < n + 1 && wanted(i)| == |set i: nat | i < n && wanted(i)| + if wanted(n) then 1 else 0
  {
    assert (set i: nat | i < n + 1 && wanted(i)) == (set i: nat | i < n && wanted(i)) + if wanted(n) then {n} else {};
  }

  lemma {:induction false} CountedUpTo(space: char -> bool, text: string, n: nat, wanted: nat -> bool)
    requires n <= |text| && forall i: nat :: i < |text| ==> wanted(i) == !space(text[i])
    ensures Counted(space, text[..n]) == |set i: nat | i < n && wanted(i)|
  {
    if n == 0 {
      assert (set i: nat | i < n && wanted(i)) == {};
    } else {
      CountedUpTo(space, text, n - 1, wanted);
      CountedSnoc(space, text[..n - 1], text[n - 1]);
      assert text[..n] == text[..n - 1] + [text[n - 1]];
      OneMorePosition(n - 1, wanted);
    }
  }

  lemma CountedPlainly(space: char -> bool, text: string)
    ensures Counted(space, text) == |set i: nat | i < |text| && !space(text[i])|
  {
    var wanted := (i: nat) => i < |text| && !space(text[i]);
    CountedUpTo(space, text, |text|, wanted);
    assert text[..|text|] == text;
    assert (set i: nat | i < |text| && wanted(i)) == set i: nat | i < |text| && !space(text[i]);
  }

  /** One more row adds its characters outside the class, if it is one of the story. */
  lemma {:induction false} BodySumSnoc(space: char -> bool, snapshots: seq<Snapshot>, s: Snapshot, story: nat)
    ensures BodySum(space, [], story) == 0
    ensures BodySum(space, snapshots + [s], story)
         == BodySum(space, snapshots, story)
          + if s.story == story then |set i: nat | i < |s.text| && !space(s.text[i])| else 0
  {
    CountedPlainly(space, s.text);
    hide Counted;
    if snapshots == [] {
      assert snapshots + [s] == [s] && [s][1..] == [];
    } else {
      BodySumSnoc(space, snapshots[1..], s, story);
      assert (snapshots + [s])[1..] == snapshots[1..] + [s];
    }
  }

  lemma {:induction false} ResultCountSnoc(db: Database, items: seq<Item>, item: Item, coverage: set<State>)
    ensures ResultCount(db, items + [item], coverage)
         == ResultCount(db, items, coverage) + if !item.cleared && CoverageState(db, item.id) in coverage then 1 else 0
    ensures ActiveFeedSize(items + [item]) == ActiveFeedSize(items) + if item.cleared then 0 else 1
  {
    hide CoverageState;
    if items == [] {
      assert items + [item] == [item] && [item][1..] == [];
    } else {
      ResultCountSnoc(db, items[1..], item, coverage);
      assert (items + [item])[1..] == items[1..] + [item];
    }
  }

  lemma {:induction false} ResultCountUpTo(db: Database, items: seq<Item>, coverage: set<State>, n: nat,
                                           active: nat -> bool, wanted: nat -> bool)
    requires n <= |items| && forall i: nat :: i < |items| ==> active(i) == !items[i].cleared
    requires forall i: nat :: i < |items| ==> wanted(i) == (!items[i].cleared && CoverageState(db, items[i].id) in coverage)
    ensures ResultCount(db, items[..n], coverage) == |set i: nat | i < n && wanted(i)|
    ensures ActiveFeedSize(items[..n]) == |set i: nat | i < n && active(i)|
  {
    hide CoverageState;
    if n == 0 {
      assert (set i: nat | i < n && wanted(i)) == {} == set i: nat | i < n && active(i);
    } else {
      ResultCountUpTo(db, items, coverage, n - 1, active, wanted);
      assert items[..n] == items[..n - 1] + [items[n - 1]];
      ResultCountSnoc(db, items[..n - 1], items[n - 1], coverage);
      hide ResultCount, ActiveFeedSize;
      OneMorePosition(n - 1, wanted);
      OneMorePosition(n - 1, active);
    }
  }

  /** The count is that of the items not cleared whose state is wanted, and the feed that of the items not cleared. */
  lemma ResultCountPlainly(db: Database, items: seq<Item>, coverage: set<State>)
    ensures ResultCount(db, items, coverage)
         == |set i: nat | i < |items| && !items[i].cleared && CoverageState(db, items[i].id) in coverage|
    ensures ActiveFeedSize(items) == |set i: nat | i < |items| && !items[i].cleared|
  {
    hide CoverageState, ResultCount, ActiveFeedSize;
    var active := (i: nat) => i < |items| && !items[i].cleared;
    var wanted := (i: nat) => i < |items| && !items[i].cleared && CoverageState(db, items[i].id) in coverage;
    ResultCountUpTo(db, items, coverage, |items|, active, wanted);
    assert items[..|items|] == items;
    assert (set i: nat | i < |items| && active(i)) == set i: nat | i < |items| && !items[i].cleared;
    assert (set i: nat | i < |items| && wanted(i))
        == set i: nat | i < |items| && !items[i].cleared && CoverageState(db, items[i].id) in coverage;
  }

  /** Python's white space beyond that of the C library: the separators 1C to 1F, next line, and three no-break
      spaces. */
  lemma SpacesCompared(c: char)
    ensures LibrarySpace(c) ==> PythonSpace(c)
    ensures PythonSpace(c) && !LibrarySpace(c) <==>
              c as int in {0x1C, 0x1D, 0x1E, 0x1F, 0x85, 0xA0, 0x2007, 0x202F}
    ensures PythonSpace(' ') && LibrarySpace(' ') && PythonSpace('\n') && LibrarySpace('\n')
    ensures 'a' <= c <= 'z' || '0' <= c <= '9' ==> !PythonSpace(c)
  {}
}
