/** The migration that folds duplicate media assets and weak identities onto one row each. */
module MediaDedupe {
  import opened Wrappers
  import opened Keyset

  // ---------- tables ----------

  datatype Asset = Asset(urlHash: int, stored: bool, updatedAt: int, expired: bool)

  /** The primary key of item_media. */
  datatype Ref = Ref(item: nat, asset: nat, role: int)

  datatype Identity = Identity(sourceScope: bool, strong: bool, source: Option<nat>, idType: int, hash: int, createdAt: int)

  /** Where media ids are written into JSON: the content and evidence map of a platform revision, and the result
      of an export that has not expired. */
  datatype Document = Revision(id: nat) | ExportResult(job: nat)

  type Assets = map<nat, Asset>

  predicate Live(assets: Assets, id: nat) { id in assets && !assets[id].expired }

  // ---------- weak identities ----------

  /** The rows the ranking looks at. */
  predicate Ranked(row: Identity) { row.sourceScope && !row.strong && row.source.Some? }

  /** PARTITION BY source_id, identity_type, identity_hash ORDER BY created_at DESC, id DESC */
  function Partition(rows: map<nat, Identity>, row: Identity): set<Key> {
    set id | id in rows && Ranked(rows[id]) && rows[id].source == row.source && rows[id].idType == row.idType
             && rows[id].hash == row.hash :: Key(rows[id].createdAt, 0, id)
  }

  predicate Survives(rows: map<nat, Identity>, id: nat)
    requires id in rows
  {
    Ranked(rows[id]) ==> IsFirst(Partition(rows, rows[id]), Key(rows[id].createdAt, 0, id))
  }

  function DedupedIdentities(rows: map<nat, Identity>): map<nat, Identity> {
    map id | id in rows && Survives(rows, id) :: rows[id]
  }

  /** The unique index uq_identity_source_weak; a NULL source equals no other. */
  ghost predicate WeakIdentityUnique(rows: map<nat, Identity>) {
    forall i, j | i in rows && j in rows && Ranked(rows[i]) && Ranked(rows[j]) ::
      rows[i].source == rows[j].source && rows[i].idType == rows[j].idType && rows[i].hash == rows[j].hash ==> i == j
  }

  /** The index can be built, and only ranked rows are deleted. */
  lemma WeakIdentitiesUnique(rows: map<nat, Identity>)
    ensures var after := DedupedIdentities(rows);
            && WeakIdentityUnique(after)
            && (forall id :: id in rows && !Ranked(rows[id]) ==> id in after)
            && (forall id :: id in after ==> id in rows && after[id] == rows[id])
  {
    var after := DedupedIdentities(rows);
    forall i, j | i in after && j in after && Ranked(rows[i]) && Ranked(rows[j])
      && rows[i].source == rows[j].source && rows[i].idType == rows[j].idType && rows[i].hash == rows[j].hash
      ensures i == j
    {
      assert Partition(rows, rows[i]) == Partition(rows, rows[j]);
    }
  }

  /** Every identity keeps its newest row. */
  lemma NewestIdentityKept(rows: map<nat, Identity>, id: nat) returns (newest: nat)
    requires id in rows && Ranked(rows[id])
    ensures var after := DedupedIdentities(rows);
            && newest in after && after[newest].source == rows[id].source
            && after[newest].idType == rows[id].idType && after[newest].hash == rows[id].hash
            && after[newest].createdAt >= rows[id].createdAt
  {
    var keys := Partition(rows, rows[id]);
    assert Key(rows[id].createdAt, 0, id) in keys;
    newest := First(keys).id;
    assert First(keys) in keys;
    assert Partition(rows, rows[newest]) == keys;
  }

  // ---------- the dedupe table ----------

  /** ORDER BY (storage_path IS NOT NULL) DESC, updated_at DESC, id DESC */
  function AssetKey(assets: Assets, id: nat): Key
    requires id in assets
  {
    Key(if assets[id].stored then 1 else 0, assets[id].updatedAt, id)
  }

  function Copies(assets: Assets, urlHash: int): set<Key> {
    set id | Live(assets, id) && id in assets.Keys && assets[id].urlHash == urlHash :: AssetKey(assets, id)
  }

  function Keeper(assets: Assets, id: nat): (keeper: nat)
    requires Live(assets, id)
    ensures Live(assets, keeper) && assets[keeper].urlHash == assets[id].urlHash
  {
    assert AssetKey(assets, id) in Copies(assets, assets[id].urlHash);
    var first := First(Copies(assets, assets[id].urlHash));
    assert first in Copies(assets, assets[id].urlHash);
    first.id
  }

  function Dedupe(assets: Assets): map<nat, nat> {
    map id | id in assets && Live(assets, id) && Keeper(assets, id) != id :: Keeper(assets, id)
  }

  /** A keeper is kept, represents its duplicates' URL, and is a downloaded copy if any of them is. */
  lemma KeeperFacts(assets: Assets, id: nat)
    requires Live(assets, id)
    ensures var k := Keeper(assets, id);
            && Keeper(assets, k) == k && k !in Dedupe(assets)
            && (assets[id].stored ==> assets[k].stored)
    ensures forall other :: Live(assets, other) && assets[other].urlHash == assets[id].urlHash ==>
              Keeper(assets, other) == Keeper(assets, id)
  {
    assert AssetKey(assets, id) in Copies(assets, assets[id].urlHash);
  }

  // ---------- the statements ----------

  function Redirected(r: Ref, dedupe: map<nat, nat>): Ref
    requires r.asset in dedupe
  {
    r.(asset := dedupe[r.asset])
  }

  /** The rows the UPDATE touches: duplicates whose item and role have no keeper row in the snapshot. */
  predicate Moves(refs: set<Ref>, dedupe: map<nat, nat>, r: Ref) {
    r in refs && r.asset in dedupe && Redirected(r, dedupe) !in refs
  }

  function NewRow(refs: set<Ref>, dedupe: map<nat, nat>, r: Ref): Ref {
    if Moves(refs, dedupe, r) then Redirected(r, dedupe) else r
  }

  function UpdatedRefs(refs: set<Ref>, dedupe: map<nat, nat>): set<Ref> {
    set r | r in refs :: NewRow(refs, dedupe, r)
  }

  function KeptRefs(refs: set<Ref>, dedupe: map<nat, nat>): set<Ref> {
    set r | r in UpdatedRefs(refs, dedupe) && r.asset !in dedupe
  }

  function MovedImages(images: map<nat, Option<nat>>, dedupe: map<nat, nat>): map<nat, Option<nat>> {
    map item | item in images ::
      match images[item]
      case None => None
      case Some(asset) => if asset in dedupe then Some(dedupe[asset]) else Some(asset)
  }

  /** Some item and role have no row of a keeper, but rows of two different duplicates of it. */
  ghost predicate Twins(refs: set<Ref>, dedupe: map<nat, nat>) {
    exists r, s :: r in refs && s in refs && r != s && r.item == s.item && r.role == s.role
      && r.asset in dedupe && s.asset in dedupe && dedupe[r.asset] == dedupe[s.asset]
      && Ref(r.item, dedupe[r.asset], r.role) !in refs
  }

  class NewsDatabase {
    var identities: map<nat, Identity>
    var assets: Assets
    var refs: set<Ref>
    var images: map<nat, Option<nat>>
    var mentions: map<Document, set<nat>>

    constructor (identities: map<nat, Identity>, assets: Assets, refs: set<Ref>, images: map<nat, Option<nat>>,
                 mentions: map<Document, set<nat>>)
      ensures this.identities == identities && this.assets == assets && this.refs == refs && this.images == images
      ensures this.mentions == mentions
    {
      this.identities, this.assets, this.refs, this.images := identities, assets, refs, images;
      this.mentions := mentions;
    }

    /** UPDATE item_media, row by row in any order; the primary key is checked at every row. */
    method MoveReferences(dedupe: map<nat, nat>) returns (violation: bool)
      modifies this`refs
      ensures violation <==> Twins(old(refs), dedupe)
      ensures !violation ==> refs == UpdatedRefs(old(refs), dedupe)
    {
      ghost var before := refs;
      var pending := set r | r in refs && Moves(refs, dedupe, r);
      ghost var done: set<Ref> := {};
      while pending != {}
        invariant pending !! done && pending + done == set r | r in before && Moves(before, dedupe, r)
        invariant refs == (before - done) + set r | r in done :: NewRow(before, dedupe, r)
        invariant forall r, s :: r in done && s in done && NewRow(before, dedupe, r) == NewRow(before, dedupe, s) ==> r == s
        decreases pending
      {
        var row :| row in pending;
        var target := Redirected(row, dedupe);
        if target in refs {
          ghost var twin :| twin in done && NewRow(before, dedupe, twin) == target;
          assert twin != row;
          return true;
        }
        assert target == NewRow(before, dedupe, row);
        refs := refs - {row} + {target};
        pending, done := pending - {row}, done + {row};
      }
      NoTwins(before, dedupe, done);
      return false;
    }

    /** The whole migration, in one transaction: an error leaves the database as it was. */
    method Upgrade() returns (aborted: bool)
      modifies this
      ensures aborted <==> Twins(old(refs), Dedupe(old(assets)))
      ensures mentions == old(mentions)
      ensures aborted ==> identities == old(identities) && assets == old(assets) && refs == old(refs) && images == old(images)
      ensures !aborted ==>
        && identities == DedupedIdentities(old(identities))
        && refs == KeptRefs(old(refs), Dedupe(old(assets)))
        && images == MovedImages(old(images), Dedupe(old(assets)))
        && assets == old(assets) - Dedupe(old(assets)).Keys
    {
      var savedIdentities, savedRefs := identities, refs;
      identities := DedupedIdentities(identities);
      var dedupe := Dedupe(assets);
      var violation := MoveReferences(dedupe);
      if violation {
        identities, refs := savedIdentities, savedRefs;
        return true;
      }
      refs := set r | r in refs && r.asset !in dedupe;
      images := MovedImages(images, dedupe);
      assets := assets - dedupe.Keys;
      return false;
    }
  }

  lemma NoTwins(refs: set<Ref>, dedupe: map<nat, nat>, done: set<Ref>)
    requires done == set r | r in refs && Moves(refs, dedupe, r)
    requires forall r, s :: r in done && s in done && NewRow(refs, dedupe, r) == NewRow(refs, dedupe, s) ==> r == s
    ensures !Twins(refs, dedupe)
    ensures (refs - done) + (set r | r in done :: NewRow(refs, dedupe, r)) == UpdatedRefs(refs, dedupe)
  {
    forall r, s | r in refs && s in refs && r.item == s.item && r.role == s.role && r.asset in dedupe && s.asset in dedupe
      && dedupe[r.asset] == dedupe[s.asset] && Ref(r.item, dedupe[r.asset], r.role) !in refs
      ensures r == s
    {
      assert r in done && s in done;
      assert NewRow(refs, dedupe, r) == NewRow(refs, dedupe, s);
    }
    var moved, all := set r | r in done :: NewRow(refs, dedupe, r), UpdatedRefs(refs, dedupe);
    forall x | x in all
      ensures x in (refs - done) + moved
    {
      var r :| r in refs && NewRow(refs, dedupe, r) == x;
    }
  }

  // ---------- what a completed migration keeps ----------

  /** item_media without the asset's identity: item, URL and role. */
  function Triples(refs: set<Ref>, assets: Assets): set<(nat, int, int)>
    requires forall r :: r in refs ==> r.asset in assets
  {
    set r | r in refs :: Triple(r, assets)
  }

  function Triple(r: Ref, assets: Assets): (nat, int, int)
    requires r.asset in assets
  {
    (r.item, assets[r.asset].urlHash, r.role)
  }

  /** Every reference leads to an asset. */
  ghost predicate ReferencesHold(refs: set<Ref>, assets: Assets) { forall r :: r in refs ==> r.asset in assets }

  /** The unique index uq_media_assets_live_url_hash. */
  ghost predicate LiveUrlUnique(assets: Assets) {
    forall a, b :: Live(assets, a) && Live(assets, b) && assets[a].urlHash == assets[b].urlHash ==> a == b
  }

  lemma AssetsFolded(assets: Assets)
    ensures LiveUrlUnique(assets - Dedupe(assets).Keys)
    ensures forall id :: Live(assets, id) ==>
              Live(assets - Dedupe(assets).Keys, Keeper(assets, id))
  {
    forall id | Live(assets, id)
      ensures Live(assets - Dedupe(assets).Keys, Keeper(assets, id))
    {
      KeeperFacts(assets, id);
    }
    var after := assets - Dedupe(assets).Keys;
    forall a, b | Live(after, a) && Live(after, b) && after[a].urlHash == after[b].urlHash
      ensures a == b
    {
      KeeperFacts(assets, a);
      assert Keeper(assets, a) == a && Keeper(assets, b) == b;
    }
  }

  /** No row of item_media is left without its asset, and the (item, URL, role) triples are unchanged. */
  lemma TriplesPreserved(assets: Assets, refs: set<Ref>)
    requires ReferencesHold(refs, assets)
    ensures var dedupe := Dedupe(assets);
            && ReferencesHold(KeptRefs(refs, dedupe), assets - dedupe.Keys)
            && Triples(KeptRefs(refs, dedupe), assets - dedupe.Keys) == Triples(refs, assets)
  {
    hide Dedupe, KeptRefs, Triple;
    var dedupe := Dedupe(assets);
    var after, left := KeptRefs(refs, dedupe), assets - dedupe.Keys;
    forall r | r in after
      ensures r.asset in left && Triple(r, left) in Triples(refs, assets)
    {
      var s := OriginalRow(assets, refs, r);
    }
    forall s | s in refs
      ensures Triple(s, assets) in Triples(after, left)
    {
      var r := SurvivingRow(assets, refs, s);
    }
    assert Triples(after, left) <= Triples(refs, assets) && Triples(refs, assets) <= Triples(after, left);
  }

  /** The reference that a remaining row comes from. */
  lemma OriginalRow(assets: Assets, refs: set<Ref>, r: Ref) returns (s: Ref)
    requires ReferencesHold(refs, assets) && r in KeptRefs(refs, Dedupe(assets))
    ensures s in refs && r.asset in assets - Dedupe(assets).Keys
    ensures Triple(s, assets) == Triple(r, assets - Dedupe(assets).Keys)
  {
    hide Keeper;
    var dedupe := Dedupe(assets);
    s :| s in refs && NewRow(refs, dedupe, s) == r;
    if s.asset in dedupe { KeeperFacts(assets, s.asset); }
  }

  /** The row that stands for a reference afterwards. */
  lemma SurvivingRow(assets: Assets, refs: set<Ref>, s: Ref) returns (r: Ref)
    requires ReferencesHold(refs, assets) && s in refs
    ensures r in KeptRefs(refs, Dedupe(assets)) && r.asset in assets - Dedupe(assets).Keys
    ensures Triple(r, assets - Dedupe(assets).Keys) == Triple(s, assets)
  {
    hide Keeper;
    var dedupe := Dedupe(assets);
    r := s;
    if s.asset in dedupe {
      KeeperFacts(assets, s.asset);
      r := Redirected(s, dedupe);
      if r !in refs { assert NewRow(refs, dedupe, s) == r; }
    }
    assert r in refs ==> NewRow(refs, dedupe, r) == r;
    assert r in UpdatedRefs(refs, dedupe);
  }

  /** Two copies of one picture on one item, kept as a third that the item does not show: the migration aborts. */
  lemma MigrationCanAbort()
    ensures var assets: Assets := map[1 := Asset(7, false, 1, false), 2 := Asset(7, false, 2, false),
                                      3 := Asset(7, true, 0, false)];
            var refs := {Ref(10, 1, 0), Ref(10, 2, 0)};
            ReferencesHold(refs, assets) && Twins(refs, Dedupe(assets))
  {
    var assets: Assets := map[1 := Asset(7, false, 1, false), 2 := Asset(7, false, 2, false),
                              3 := Asset(7, true, 0, false)];
    var refs := {Ref(10, 1, 0), Ref(10, 2, 0)};
    KeeperFacts(assets, 3);
    KeeperFacts(assets, 1);
    assert Keeper(assets, 1) == Keeper(assets, 2) == 3;
    assert Ref(10, 1, 0) in refs && Ref(10, 2, 0) in refs;
  }

  /** A primary image keeps its URL, and none points to a removed asset unless it dangled before. */
  lemma ImagesPreserved(assets: Assets, images: map<nat, Option<nat>>, item: nat)
    requires item in images
    ensures var dedupe := Dedupe(assets);
            var after := MovedImages(images, dedupe);
            && after.Keys == images.Keys && (after[item].None? <==> images[item].None?)
            && (images[item].Some? && images[item].value in assets ==>
                  && after[item].value in assets - dedupe.Keys
                  && assets[after[item].value].urlHash == assets[images[item].value].urlHash)
            && (images[item].Some? && images[item].value !in assets ==> after[item] == images[item])
  {
    hide Keeper;
    if images[item].Some? && images[item].value in Dedupe(assets) {
      KeeperFacts(assets, images[item].value);
    }
  }

  // ---------- what a completed migration loses ----------

  /** A live copy of the same URL is preferred to this one. */
  predicate Superseded(assets: Assets, id: nat) {
    && Live(assets, id)
    && exists other :: other in assets && Live(assets, other) && assets[other].urlHash == assets[id].urlHash
                       && Precedes(AssetKey(assets, other), AssetKey(assets, id))
  }

  /** An asset is removed exactly when it is superseded. */
  lemma RemovedExactly(assets: Assets, id: nat)
    ensures id in assets - Dedupe(assets).Keys <==> id in assets && !Superseded(assets, id)
  {
    if Live(assets, id) {
      var keeper := Keeper(assets, id);
      var copies := Copies(assets, assets[id].urlHash);
      assert AssetKey(assets, id) in copies && AssetKey(assets, keeper) == First(copies);
      if keeper != id {
        assert Precedes(AssetKey(assets, keeper), AssetKey(assets, id));
      }
      if Superseded(assets, id) {
        var other :| other in assets && Live(assets, other) && assets[other].urlHash == assets[id].urlHash
                     && Precedes(AssetKey(assets, other), AssetKey(assets, id));
        assert AssetKey(assets, other) in copies;
      }
    }
  }

  /** Every media id in a document leads to an asset. */
  ghost predicate MentionsHold(mentions: map<Document, set<nat>>, assets: Assets) {
    forall d, id :: d in mentions && id in mentions[d] ==> id in assets
  }

  /** After a completed migration every media id in a document leads to an asset exactly when every one did
      before and none names an asset with a preferred live copy of its URL. */
  lemma MentionsHoldExactly(assets: Assets, mentions: map<Document, set<nat>>)
    ensures MentionsHold(mentions, assets - Dedupe(assets).Keys) <==>
            && MentionsHold(mentions, assets)
            && forall d, id :: d in mentions && id in mentions[d] ==> !Superseded(assets, id)
  {
    hide Dedupe, Superseded;
    forall id: nat ensures id in assets - Dedupe(assets).Keys <==> id in assets && !Superseded(assets, id) {
      RemovedExactly(assets, id);
    }
  }

  /** Two downloaded copies of one picture, and a revision that names the older: the migration completes, and
      the revision names no asset any more. */
  lemma RevisionCanDangle()
    ensures var assets: Assets := map[1 := Asset(7, true, 1, false), 2 := Asset(7, true, 2, false)];
            var refs, mentions := {Ref(10, 1, 0)}, map[Revision(20) := {1}];
            && ReferencesHold(refs, assets) && MentionsHold(mentions, assets) && !Twins(refs, Dedupe(assets))
            && !MentionsHold(mentions, assets - Dedupe(assets).Keys)
  {
    var assets: Assets := map[1 := Asset(7, true, 1, false), 2 := Asset(7, true, 2, false)];
    var mentions := map[Revision(20) := {1}];
    assert Superseded(assets, 1) by { assert 2 in assets && Live(assets, 2); }
    MentionsHoldExactly(assets, mentions);
    assert Revision(20) in mentions && 1 in mentions[Revision(20)];
  }

  // ---------- the same in plain terms ----------

  /** Removed is a live asset with a live copy of its URL that is downloaded where it is not, or else was updated
      later, or else has the larger id. */
  lemma RemovedPlainly(assets: Assets, id: nat)
    requires id in assets
    ensures id !in assets - Dedupe(assets).Keys <==>
              !assets[id].expired
              && exists o :: o in assets && !assets[o].expired && assets[o].urlHash == assets[id].urlHash
                   && ((assets[o].stored && !assets[id].stored)
                       || (assets[o].stored == assets[id].stored && assets[o].updatedAt > assets[id].updatedAt)
                       || (assets[o].stored == assets[id].stored && assets[o].updatedAt == assets[id].updatedAt && o > id))
  {
    RemovedExactly(assets, id);
    hide Dedupe;
  }

  /** The asset it is folded onto is live, has its URL, and comes before every other live copy. */
  lemma KeeperPlainly(assets: Assets, id: nat, o: nat)
    requires id in Dedupe(assets)
    ensures var k := Dedupe(assets)[id];
            && k in assets && !assets[k].expired && assets[k].urlHash == assets[id].urlHash && k != id
            && (o in assets && !assets[o].expired && assets[o].urlHash == assets[id].urlHash && o != k ==>
                  || (assets[k].stored && !assets[o].stored)
                  || (assets[k].stored == assets[o].stored && assets[k].updatedAt > assets[o].updatedAt)
                  || (assets[k].stored == assets[o].stored && assets[k].updatedAt == assets[o].updatedAt && k > o))
  {
    var copies := Copies(assets, assets[id].urlHash);
    assert AssetKey(assets, id) in copies && AssetKey(assets, Keeper(assets, id)) == First(copies);
    if o in assets && !assets[o].expired && assets[o].urlHash == assets[id].urlHash {
      assert AssetKey(assets, o) in copies;
    }
  }

  /** Deleted is a weak identity within a source that another, created later or with the larger id, repeats. */
  lemma IdentityPlainly(rows: map<nat, Identity>, id: nat)
    requires id in rows
    ensures id in DedupedIdentities(rows) <==>
              !(rows[id].sourceScope && !rows[id].strong && rows[id].source.Some?
                && exists o :: o in rows && rows[o].sourceScope && !rows[o].strong && rows[o].source == rows[id].source
                     && rows[o].idType == rows[id].idType && rows[o].hash == rows[id].hash
                     && (rows[o].createdAt > rows[id].createdAt || (rows[o].createdAt == rows[id].createdAt && o > id)))
    ensures id in DedupedIdentities(rows) ==> DedupedIdentities(rows)[id] == rows[id]
  {
    if Ranked(rows[id]) {
      var keys := Partition(rows, rows[id]);
      assert Key(rows[id].createdAt, 0, id) in keys;
      var first := First(keys);
      assert first in keys;
      forall o | o in rows && Ranked(rows[o]) && rows[o].source == rows[id].source && rows[o].idType == rows[id].idType
                 && rows[o].hash == rows[id].hash
        ensures Key(rows[o].createdAt, 0, o) in keys
      {}
    }
  }

  /** A reference to an asset that stays is unchanged, one to a duplicate leads to what that is folded onto, and there
      are no others. */
  lemma RefsPlainly(assets: Assets, refs: set<Ref>)
    ensures KeptRefs(refs, Dedupe(assets))
         == (set r | r in refs && r.asset !in Dedupe(assets) :: r)
          + (set r | r in refs && r.asset in Dedupe(assets) :: Ref(r.item, Dedupe(assets)[r.asset], r.role))
  {
    var dedupe := Dedupe(assets);
    hide Dedupe, Keeper;
    forall id | id in dedupe ensures dedupe[id] !in dedupe { FoldedOnce(assets, id); }
    forall r | r in refs
      ensures (if r.asset in dedupe then Ref(r.item, dedupe[r.asset], r.role) else r) in KeptRefs(refs, dedupe)
    {
      assert NewRow(refs, dedupe, r) in UpdatedRefs(refs, dedupe);
      if r.asset in dedupe && Redirected(r, dedupe) in refs {
        assert NewRow(refs, dedupe, Redirected(r, dedupe)) in UpdatedRefs(refs, dedupe);
      }
    }
    forall x | x in KeptRefs(refs, dedupe)
      ensures exists r :: r in refs && x == if r.asset in dedupe then Ref(r.item, dedupe[r.asset], r.role) else r
    {
      var r :| r in refs && NewRow(refs, dedupe, r) == x;
    }
  }

  lemma FoldedOnce(assets: Assets, id: nat)
    requires id in Dedupe(assets)
    ensures Dedupe(assets)[id] !in Dedupe(assets)
  {
    KeeperFacts(assets, id);
  }
}
