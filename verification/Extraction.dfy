/** Extraction of a validated archive into an emptied volume, and archiving the volume again. */
module Extraction {
  import opened Wrappers
  import opened MemberPaths
  import opened NestedArchive
  import opened Inventory

  type Tree = map<Components, Node>

  const EMPTY_VOLUME: Tree := map[[] := Folder]

  /** Makes a directory and those on the way to it; fails where a file is in the way. */
  function MakeFolders(tree: Tree, path: Components): Option<Tree> {
    if path == [] then Some(tree)
    else
      match MakeFolders(tree, path[..|path| - 1])
      case None => None
      case Some(made) =>
        if path !in made then Some(made[path := Folder]) else if made[path].Folder? then Some(made) else None
  }

  /** Unpacks one member: a directory is made, a file is written, over another file but not over a directory. */
  function Place(tree: Tree, path: Components, node: Node): Option<Tree> {
    if node.Folder? then MakeFolders(tree, path)
    else if path == [] then None
    else
      match MakeFolders(tree, path[..|path| - 1])
      case None => None
      case Some(made) => if path in made && made[path].Folder? then None else Some(made[path := node])
  }

  /** The members one after the other, into an empty volume. */
  function Extract(members: seq<Member>): Option<Tree> {
    if members == [] then Some(EMPTY_VOLUME)
    else
      match Extract(members[..|members| - 1])
      case None => None
      case Some(tree) => Place(tree, PathOf(members[|members| - 1]), NodeOf(members[|members| - 1]))
  }

  // ---------- the tree an archive stands for ----------

  function Prefixes(path: Components): set<Components> { set l | 0 <= l <= |path| :: path[..l] }

  function AllPrefixes(nodes: map<Components, Node>): set<Components> {
    {[]} + set p, l | p in nodes && 0 <= l <= |p| :: p[..l]
  }

  /** Everything listed, and a directory wherever one is missing. */
  function Grown(nodes: map<Components, Node>): Tree {
    map p | p in AllPrefixes(nodes) :: if p in nodes then nodes[p] else Folder
  }

  function WithFolders(tree: Tree, path: Components): Tree {
    map p | p in tree.Keys + Prefixes(path) :: if p in tree then tree[p] else Folder
  }

  lemma PrefixMember(q: Components, p: Components)
    ensures q in Prefixes(p) <==> q <= p
  {
    if q <= p { assert q == p[..|q|]; }
  }

  lemma PrefixesMember(q: Components, nodes: map<Components, Node>)
    ensures q in AllPrefixes(nodes) <==> q == [] || exists p :: p in nodes && q <= p
  {
    if p :| p in nodes && q <= p { assert q == p[..|q|]; }
  }

  /** No file on the way to the path, nor there. */
  predicate WayIsFree(tree: Tree, path: Components) {
    forall l :: 0 <= l <= |path| && path[..l] in tree ==> tree[path[..l]].Folder?
  }

  lemma {:induction false} FoldersMade(tree: Tree, path: Components)
    requires [] in tree && WayIsFree(tree, path)
    ensures MakeFolders(tree, path) == Some(WithFolders(tree, path))
  {
    if path == [] {
      assert Prefixes([]) == {[]} by { forall q ensures q in Prefixes([]) <==> q in {[]} { PrefixMember(q, []); } }
      assert WithFolders(tree, []) == tree;
    } else {
      var parent := path[..|path| - 1];
      assert forall l :: 0 <= l <= |parent| ==> parent[..l] == path[..l];
      FoldersMade(tree, parent);
      assert path[..|path|] == path;
      PrefixesSnoc(path);
      PrefixMember(path, parent);
      assert WithFolders(tree, path) == if path in tree then WithFolders(tree, parent) else WithFolders(tree, parent)[path := Folder];
    }
  }

  lemma PrefixesSnoc(path: Components)
    requires path != []
    ensures Prefixes(path) == Prefixes(path[..|path| - 1]) + {path}
  {
    var parent := path[..|path| - 1];
    forall q ensures q in Prefixes(path) <==> q in Prefixes(parent) + {path} {
      PrefixMember(q, path);
      PrefixMember(q, parent);
      assert q <= path && |q| == |path| ==> q == path;
    }
  }

  /** The new member fits what is there: no file on its way, and nothing below it if it is a file. */
  predicate Placeable(nodes: map<Components, Node>, path: Components, node: Node) {
    && path !in nodes && ([] in nodes ==> nodes[[]].Folder?)
    && (forall q :: q in nodes && Inside(path, q) ==> nodes[q].Folder?)
    && (node.File? ==> path != [] && forall q :: q in nodes ==> !Inside(q, path))
  }

  /** What one more entry adds to the tree. */
  lemma GrownWith(nodes: map<Components, Node>, path: Components, node: Node, q: Components)
    requires path !in nodes
    ensures var next := Grown(nodes[path := node]);
            && (q in next <==> q in Grown(nodes) || q in Prefixes(path))
            && (q in next ==> next[q] == if q == path then node else if q in Grown(nodes) then Grown(nodes)[q] else Folder)
    ensures path in Grown(nodes) ==> Grown(nodes)[path] == Folder
  {
    PrefixesAdded(q, nodes, path, node);
    PrefixesMember(q, nodes);
    assert q in nodes ==> q <= q;
    hide AllPrefixes, Prefixes;
  }

  lemma WithFoldersAt(tree: Tree, path: Components, q: Components)
    ensures q in WithFolders(tree, path) <==> q in tree || q in Prefixes(path)
    ensures q in WithFolders(tree, path) ==> WithFolders(tree, path)[q] == if q in tree then tree[q] else Folder
  {
    hide Prefixes;
  }

  lemma SameTree(m: Tree, n: Tree)
    requires forall q :: (q in m <==> q in n) && (q in m ==> m[q] == n[q])
    ensures m == n
  {}

  lemma PlaceFolder(nodes: map<Components, Node>, path: Components)
    requires Placeable(nodes, path, Folder)
    ensures Place(Grown(nodes), path, Folder) == Some(Grown(nodes[path := Folder]))
  {
    GrownIsFree(nodes, path);
    FoldersMade(Grown(nodes), path);
    hide Grown, WithFolders, Prefixes, MakeFolders;
    var m, n := WithFolders(Grown(nodes), path), Grown(nodes[path := Folder]);
    forall q ensures (q in m <==> q in n) && (q in m ==> m[q] == n[q]) {
      GrownWith(nodes, path, Folder, q);
      WithFoldersAt(Grown(nodes), path, q);
    }
    SameTree(m, n);
  }

  lemma PrefixesAdded(q: Components, nodes: map<Components, Node>, path: Components, node: Node)
    ensures q in AllPrefixes(nodes[path := node]) <==> q in AllPrefixes(nodes) || q in Prefixes(path)
  {
    var next := nodes[path := node];
    PrefixesMember(q, nodes);
    PrefixesMember(q, next);
    PrefixMember(q, path);
    if p :| p in nodes && q <= p { assert p in next; }
    if q <= path { assert path in next; }
  }

  lemma GrownIsFree(nodes: map<Components, Node>, path: Components)
    requires path !in nodes && ([] in nodes ==> nodes[[]].Folder?)
    requires forall q :: q in nodes && Inside(path, q) ==> nodes[q].Folder?
    ensures [] in Grown(nodes) && WayIsFree(Grown(nodes), path)
  {
    forall l | 0 <= l <= |path| && path[..l] in Grown(nodes)
      ensures Grown(nodes)[path[..l]].Folder?
    {
      if l < |path| { assert Inside(path, path[..l]); } else { assert path[..l] == path; }
    }
  }

  lemma PlaceFile(nodes: map<Components, Node>, path: Components, content: Bytes)
    requires Placeable(nodes, path, File(content))
    ensures Place(Grown(nodes), path, File(content)) == Some(Grown(nodes[path := File(content)]))
  {
    var parent, node := path[..|path| - 1], File(content);
    GrownIsFree(nodes, path);
    assert forall l :: 0 <= l <= |parent| ==> parent[..l] == path[..l];
    FoldersMade(Grown(nodes), parent);
    NothingThere(nodes, path);
    PrefixMember(path, parent);
    PrefixesSnoc(path);
    hide Grown, WithFolders, Prefixes, MakeFolders, WayIsFree, Placeable;
    var made := WithFolders(Grown(nodes), parent);
    WithFoldersAt(Grown(nodes), parent, path);
    var m, n := made[path := node], Grown(nodes[path := node]);
    assert Place(Grown(nodes), path, node) == Some(m);
    forall q ensures (q in m <==> q in n) && (q in m ==> m[q] == n[q]) {
      GrownWith(nodes, path, node, q);
      WithFoldersAt(Grown(nodes), parent, q);
    }
    SameTree(m, n);
  }

  lemma NothingThere(nodes: map<Components, Node>, path: Components)
    requires path != [] && path !in nodes && forall q :: q in nodes ==> !Inside(q, path)
    ensures path !in Grown(nodes)
  {
    PrefixesMember(path, nodes);
    ExtensionsAreInside(path);
  }

  lemma ExtensionsAreInside(path: Components)
    ensures forall p: Components :: path <= p ==> p == path || Inside(p, path)
  {
    forall p: Components | path <= p ensures p == path || Inside(p, path) {
      assert p[..|path|] == path;
      assert |p| == |path| ==> p == path;
    }
  }

  // ---------- extraction ----------

  predicate Extractable(members: seq<Member>) {
    DistinctPaths(members) && RootIsDirectory(members) && Unblocked(members)
  }

  lemma ExtractableInit(members: seq<Member>)
    requires Extractable(members) && members != []
    ensures Extractable(members[..|members| - 1])
    ensures var n := |members| - 1; Placeable(Nodes(members[..n]), PathOf(members[n]), NodeOf(members[n]))
  {
    hide PathOf;
    var n := |members| - 1;
    var before, m := members[..n], members[n];
    assert forall i :: 0 <= i < n ==> before[i] == members[i];
    forall j | 0 <= j < n ensures UnblockedAt(before, j) { assert UnblockedAt(members, j); }
    NodesAre(before);
    var nodes := Nodes(before);
    assert UnblockedAt(members, n);
    forall q | q in nodes && Inside(PathOf(m), q) ensures nodes[q].Folder? {
      var i :| 0 <= i < n && PathOf(before[i]) == q;
    }
    forall q | q in nodes && Inside(q, PathOf(m)) ensures m.kind.Directory? {
      var i :| 0 <= i < n && PathOf(before[i]) == q;
      assert UnblockedAt(members, i);
    }
    if [] in nodes {
      var i :| 0 <= i < n && PathOf(before[i]) == [];
    }
  }

  /** Every step of an extraction succeeds; the tree is what is listed and the directories in between. */
  lemma {:induction false} ExtractionSucceeds(members: seq<Member>)
    requires Extractable(members)
    ensures Extract(members) == Some(Grown(Nodes(members)))
  {
    hide PathOf, Extractable, Placeable, Grown, Place;
    if members == [] {
      EmptyGrown();
    } else {
      var n := |members| - 1;
      ExtractableInit(members);
      ExtractionSucceeds(members[..n]);
      PlaceOne(Nodes(members[..n]), PathOf(members[n]), NodeOf(members[n]));
    }
  }

  lemma PlaceOne(nodes: map<Components, Node>, path: Components, node: Node)
    requires Placeable(nodes, path, node)
    ensures Place(Grown(nodes), path, node) == Some(Grown(nodes[path := node]))
  {
    match node
    case Folder => PlaceFolder(nodes, path);
    case File(content) => PlaceFile(nodes, path, content);
  }

  lemma EmptyGrown()
    ensures Grown(map[]) == EMPTY_VOLUME
  {
    assert AllPrefixes(map[]) == {[]};
  }

  /** A validated archive extracts in any order of its members, and always to the same tree. */
  lemma ExtractionIgnoresOrder(a: seq<Member>, b: seq<Member>)
    requires WellFormed(a) && multiset(a) == multiset(b)
    ensures Extract(a).Some? && Extract(b) == Extract(a)
  {
    hide DistinctPaths, RootIsDirectory, Unblocked, Nodes, Extract;
    OrderIsImmaterial(a, b);
    ExtractionSucceeds(a);
    ExtractionSucceeds(b);
  }

  // ---------- archiving the volume again ----------

  /** Every directory on the way to a listed path is listed. */
  predicate AncestorsListed(nodes: map<Components, Node>) {
    forall p, l :: p in nodes && 0 <= l <= |p| ==> p[..l] in nodes
  }

  lemma GrownIsSame(nodes: map<Components, Node>)
    requires [] in nodes
    ensures Grown(nodes) == nodes <==> AncestorsListed(nodes)
  {
    if AncestorsListed(nodes) {
      forall p ensures p in AllPrefixes(nodes) <==> p in nodes {
        if p in nodes { assert p[..|p|] == p; }
      }
      assert Grown(nodes) == nodes;
    }
    if Grown(nodes) == nodes {
      forall p, l | p in nodes && 0 <= l <= |p| ensures p[..l] in nodes {
        assert p[..l] in AllPrefixes(nodes);
      }
    }
  }

  /** An archive of the extracted tree has the inventory of the original exactly when the original listed
      every directory on the way to its entries. */
  lemma RearchivingKeepsInventory(digest: Bytes -> string, hash: string -> string, a: seq<Member>, again: seq<Member>)
    requires WellFormed(a) && WellFormed(again) && Extract(a) == Some(Nodes(again))
    ensures AncestorsListed(Nodes(a)) ==>
              Summary(hash, Canonical(digest, again)) == Summary(hash, Canonical(digest, a))
    ensures Legible(a, again) && Injective(digest) && Hexadecimal(digest) && Injective(hash) ==>
              (Summary(hash, Canonical(digest, again)) == Summary(hash, Canonical(digest, a))
               <==> AncestorsListed(Nodes(a)))
  {
    hide DistinctPaths, RootIsDirectory, Unblocked, Nodes, Extract, Grown, AncestorsListed, Legible, Canonical, EncodeAll;
    ExtractionSucceeds(a);
    CleanNodes(a);
    GrownIsSame(Nodes(a));
    if AncestorsListed(Nodes(a)) { TextDeterminesEntries(digest, a, again); }
    if Legible(a, again) && Injective(digest) && Hexadecimal(digest) && Injective(hash) {
      InventoryDeterminesTree(digest, hash, a, again);
    }
  }

  /** Extracting what was archived from an extracted tree gives that tree again. */
  lemma RestoreIsStable(a: seq<Member>, again: seq<Member>)
    requires WellFormed(a) && WellFormed(again) && Extract(a) == Some(Nodes(again))
    ensures Extract(again) == Extract(a)
  {
    hide DistinctPaths, RootIsDirectory, Unblocked, Nodes, Extract;
    ExtractionSucceeds(a);
    ExtractionSucceeds(again);
    CleanNodes(again);
    GrownIsSame(Nodes(again));
    forall p, l | p in Nodes(again) && 0 <= l <= |p| ensures p[..l] in Nodes(again) {
      PrefixesMember(p, Nodes(a));
      PrefixesMember(p[..l], Nodes(a));
      if q :| q in Nodes(a) && p <= q { assert p[..l] <= q; }
    }
  }

  // ---------- there is always such an archive ----------

  function MemberAt(path: Components, node: Node): Member {
    match node
    case Folder => Member(Text(path), Directory, [])
    case File(content) => Member(Text(path), Regular, content)
  }

  lemma MemberAtFacts(path: Components, node: Node)
    requires AllClean(path) && (path == [] ==> node.Folder?)
    ensures Acceptable(MemberAt(path, node)) && PathOf(MemberAt(path, node)) == path
    ensures NodeOf(MemberAt(path, node)) == node
  {
    PartsOfText(path);
    assert ".." !in path by { assert !Clean(".."); }
    if node.File? {
      SplitOfJoin(path);
      DirectoryOnlyMeaning(Text(path));
      assert Clean(path[|path| - 1]);
    }
  }

  lemma SomeMember<T>(s: set<T>) returns (x: T)
    requires s != {}
    ensures x in s
  {
    x :| x in s;
  }

  lemma {:induction false} ListPaths(paths: set<Components>) returns (listed: seq<Components>)
    ensures forall p :: p in listed <==> p in paths
    ensures forall i, j :: 0 <= i < j < |listed| ==> listed[i] != listed[j]
  {
    if paths == {} {
      listed := [];
    } else {
      var p := SomeMember(paths);
      var rest := ListPaths(paths - {p});
      listed := [p] + rest;
    }
  }

  /** Files have nothing below them. */
  predicate FilesAreLeaves(tree: Tree) {
    forall p, q :: p in tree && q in tree && Inside(q, p) ==> tree[p].Folder?
  }

  /** One acceptable member for each path of the tree. */
  ghost predicate Lists(tree: Tree, paths: seq<Components>, members: seq<Member>) {
    && (forall p :: p in paths <==> p in tree)
    && (forall i, j :: 0 <= i < j < |paths| ==> paths[i] != paths[j])
    && |members| == |paths|
    && (forall i :: 0 <= i < |paths| ==>
          (paths[i] in tree && Acceptable(members[i]) && PathOf(members[i]) == paths[i]
           && NodeOf(members[i]) == tree[paths[i]]))
  }

  lemma MembersOf(tree: Tree, paths: seq<Components>) returns (members: seq<Member>)
    requires CleanTree(tree) && forall p :: p in paths <==> p in tree
    requires forall i, j :: 0 <= i < j < |paths| ==> paths[i] != paths[j]
    ensures Lists(tree, paths, members)
  {
    hide PathOf, NodeOf, Acceptable, MemberAt, AllClean;
    members := seq(|paths|, i requires 0 <= i < |paths| => MemberAt(paths[i], tree[paths[i]]));
    forall i | 0 <= i < |paths|
      ensures Acceptable(members[i]) && PathOf(members[i]) == paths[i] && NodeOf(members[i]) == tree[paths[i]]
    {
      MemberAtFacts(paths[i], tree[paths[i]]);
    }
  }

  lemma ListedDenotes(tree: Tree, paths: seq<Components>, members: seq<Member>)
    requires Lists(tree, paths, members)
    ensures Denotes(members, tree) && DistinctPaths(members)
  {
    hide PathOf, NodeOf, Acceptable;
    forall p | p in tree ensures exists i :: 0 <= i < |members| && PathOf(members[i]) == p {
      assert p in paths;
      var i :| 0 <= i < |paths| && paths[i] == p;
      assert PathOf(members[i]) == p;
    }
  }

  lemma ListedIsWellFormed(tree: Tree, paths: seq<Components>, members: seq<Member>)
    requires CleanTree(tree) && FilesAreLeaves(tree) && Lists(tree, paths, members)
    ensures WellFormed(members)
  {
    hide PathOf, Acceptable;
    assert [] in paths;
    var r :| 0 <= r < |paths| && paths[r] == [];
    assert PathOf(members[r]) == [];
    forall i, j | 0 <= i < |members| && 0 <= j < |members| && Inside(PathOf(members[j]), PathOf(members[i]))
      ensures members[i].kind.Directory?
    {
      assert paths[i] in tree && paths[j] in tree && tree[paths[i]].Folder?;
    }
  }

  /** Every tree can be archived. */
  lemma TreeCanBeArchived(tree: Tree) returns (members: seq<Member>)
    requires CleanTree(tree) && FilesAreLeaves(tree)
    ensures WellFormed(members) && Nodes(members) == tree
  {
    var paths := ListPaths(tree.Keys);
    members := MembersOf(tree, paths);
    ListedDenotes(tree, paths, members);
    ListedIsWellFormed(tree, paths, members);
    NodesAre(members);
    hide Lists, WellFormed, Denotes, DistinctPaths, Nodes, CleanTree, FilesAreLeaves;
    DenotedIn(members, members, tree, Nodes(members));
    DenotedIn(members, members, Nodes(members), tree);
    SameTree(tree, Nodes(members));
  }

  lemma GrownIsATree(nodes: map<Components, Node>)
    requires CleanTree(nodes) && FilesAreLeaves(nodes)
    ensures CleanTree(Grown(nodes)) && FilesAreLeaves(Grown(nodes))
  {
    hide AllClean;
    var tree := Grown(nodes);
    forall p | p in tree ensures AllClean(p) {
      PrefixesMember(p, nodes);
      if q :| q in nodes && p <= q { CleanPrefix(p, q); } else { CleanRoot(); }
    }
    PrefixesMember([], nodes);
    forall p, q | p in tree && q in tree && Inside(q, p) ensures tree[p].Folder? {
      PrefixesMember(q, nodes);
      if r :| r in nodes && q <= r { InsideExtension(r, q, p); }
    }
  }

  lemma CleanRoot()
    ensures AllClean([])
  {}

  lemma CleanPrefix(p: Components, q: Components)
    requires AllClean(q) && p <= q
    ensures AllClean(p)
  {
    assert forall i :: 0 <= i < |p| ==> p[i] == q[i] && q[i] in q;
  }

  lemma InsideExtension(r: Components, q: Components, p: Components)
    requires Inside(q, p) && q <= r
    ensures Inside(r, p)
  {
    assert r[..|p|] == q[..|p|];
  }

  lemma WellFormedIsATree(members: seq<Member>)
    requires WellFormed(members)
    ensures CleanTree(Nodes(members)) && FilesAreLeaves(Nodes(members))
  {
    CleanNodes(members);
    NodesAre(members);
    hide PathOf, AllClean, Nodes, Acceptable, DistinctPaths;
    var nodes := Nodes(members);
    forall p, q | p in nodes && q in nodes && Inside(q, p) ensures nodes[p].Folder? {
      var i :| 0 <= i < |members| && PathOf(members[i]) == p;
      var j :| 0 <= j < |members| && PathOf(members[j]) == q;
      assert UnblockedAt(members, j);
    }
  }

  /** What was extracted can be archived again. */
  lemma ExtractedCanBeArchived(a: seq<Member>) returns (again: seq<Member>)
    requires WellFormed(a)
    ensures WellFormed(again) && Extract(a) == Some(Nodes(again))
  {
    hide AllAcceptable, DistinctPaths, RootIsDirectory, RootListed, Unblocked, Nodes, Extract, Grown, CleanTree, FilesAreLeaves;
    ExtractionSucceeds(a);
    WellFormedIsATree(a);
    GrownIsATree(Nodes(a));
    again := TreeCanBeArchived(Grown(Nodes(a)));
  }

  lemma GrownPlainly(nodes: map<Components, Node>, p: Components)
    requires [] in nodes
    ensures p in Grown(nodes) <==> exists q :: q in nodes && p <= q
    ensures p in Grown(nodes) ==> Grown(nodes)[p] == if p in nodes then nodes[p] else Folder
  {
    PrefixesMember(p, nodes);
    assert p == [] ==> p <= [];
    hide AllPrefixes;
  }

  /** The extracted tree: every file with its content, every listed directory, every directory on the way to them, and
      nothing else. */
  lemma ExtractedPlainly(members: seq<Member>, p: Components)
    requires WellFormed(members)
    ensures Extract(members).Some?
    ensures var tree := Extract(members).value;
            && (p in tree <==> exists i :: 0 <= i < |members| && p <= PartsOf(members[i].name))
            && (forall i :: 0 <= i < |members| && PartsOf(members[i].name) == p ==>
                  p in tree && tree[p] == if members[i].kind == Directory then Folder else File(members[i].content))
            && (p in tree && (forall i :: 0 <= i < |members| ==> PartsOf(members[i].name) != p) ==> tree[p] == Folder)
  {
    hide PartsOf, AllAcceptable, DistinctPaths, Unblocked, Extract, Nodes, Grown;
    ExtractionSucceeds(members);
    NodesAre(members);
    GrownPlainly(Nodes(members), p);
    hide WellFormed;
    if q :| q in Nodes(members) && p <= q {
      var i :| 0 <= i < |members| && PathOf(members[i]) == q;
    }
    forall i | 0 <= i < |members| && PartsOf(members[i].name) == p ensures p in Nodes(members) {
      assert PathOf(members[i]) == p;
    }
    forall i | 0 <= i < |members| && p <= PartsOf(members[i].name) ensures p in Grown(Nodes(members)) {
      assert PathOf(members[i]) in Nodes(members);
    }
  }
}
