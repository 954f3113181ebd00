/** From which characters paths may be made for an inventory to determine its archive. */
module InventoryAlphabet {
  import opened MemberPaths
  import opened NestedArchive
  import opened Inventory
  import opened Extraction

  /** Every character of every path component comes from the alphabet. */
  predicate Over(alphabet: set<char>, members: seq<Member>) {
    forall i :: 0 <= i < |members| ==> PathOver(alphabet, PathOf(members[i]))
  }

  predicate PathOver(alphabet: set<char>, path: Components) {
    forall i, j :: 0 <= i < |path| && 0 <= j < |path[i]| ==> path[i][j] in alphabet
  }

  lemma {:induction false} JoinOver(alphabet: set<char>, path: Components, mark: char)
    requires PathOver(alphabet, path) && mark !in alphabet && mark != '/'
    ensures mark !in Join(path)
  {
    if |path| > 1 {
      assert path == [path[0]] + path[1..];
      JoinOver(alphabet, path[1..], mark);
    }
  }

  lemma OverAvoids(alphabet: set<char>, members: seq<Member>, mark: char)
    requires Over(alphabet, members) && mark !in alphabet && mark != '/' && mark != '.'
    ensures Avoids(members, mark)
  {
    hide PathOf;
    forall i | 0 <= i < |members| ensures mark !in Text(PathOf(members[i])) {
      JoinOver(alphabet, PathOf(members[i]), mark);
    }
  }

  // ---------- two archives with one inventory ----------

  function TwoFolders(p: string, q: string): Tree { map[[] := Folder, [p] := Folder, [q] := Folder] }

  lemma EntriesOfTwo(digest: Bytes -> string, p: string, q: string)
    ensures Entries(digest, TwoFolders(p, q)) == {DirectoryRecord(p), DirectoryRecord(q)}
  {
    var tree := TwoFolders(p, q);
    assert Text([p]) == p && Text([q]) == q;
    assert [p] in tree && [q] in tree;
    assert RecordOf(digest, [p], tree[[p]]) == DirectoryRecord(p);
    assert RecordOf(digest, [q], tree[[q]]) == DirectoryRecord(q);
  }

  lemma Pair<T>(x: T, y: T)
    ensures forall z :: z in [x, y] <==> z in {x, y}
  {}

  lemma PairAscends(p: string, q: string)
    requires Below(p, q)
    ensures RecordsAscending([DirectoryRecord(p), DirectoryRecord(q)])
  {
    hide Below;
  }

  lemma CanonicalOfTwo(digest: Bytes -> string, members: seq<Member>, p: string, q: string)
    requires WellFormed(members) && Nodes(members) == TwoFolders(p, q) && Below(p, q)
    ensures Canonical(digest, members) == [DirectoryRecord(p), DirectoryRecord(q)]
  {
    SortedRecords(digest, members);
    EntriesOfTwo(digest, p, q);
    Pair(DirectoryRecord(p), DirectoryRecord(q));
    PairAscends(p, q);
    hide WellFormed, Nodes, TwoFolders, Below, Entries, SortByPath, RecordsOf, RecordsAscending;
    AscendingUnique(Canonical(digest, members), [DirectoryRecord(p), DirectoryRecord(q)]);
  }

  lemma TwoFoldersOver(alphabet: set<char>, members: seq<Member>, p: string, q: string)
    requires WellFormed(members) && Nodes(members) == TwoFolders(p, q)
    requires PathOver(alphabet, [p]) && PathOver(alphabet, [q])
    ensures Over(alphabet, members)
  {
    NodesAre(members);
    hide PathOf, Nodes, Acceptable, PathOver, WellFormed;
    forall i | 0 <= i < |members| ensures PathOver(alphabet, PathOf(members[i])) {
      assert PathOf(members[i]) in TwoFolders(p, q);
      RootOver(alphabet);
    }
  }

  lemma RootOver(alphabet: set<char>)
    ensures PathOver(alphabet, [])
  {}

  /** An accepted archive of two directories. */
  lemma TwoFoldersArchived(alphabet: set<char>, digest: Bytes -> string, p: string, q: string)
    returns (members: seq<Member>)
    requires Clean(p) && Clean(q) && Below(p, q) && PathOver(alphabet, [p]) && PathOver(alphabet, [q])
    ensures WellFormed(members) && Over(alphabet, members) && Nodes(members) == TwoFolders(p, q)
    ensures Canonical(digest, members) == [DirectoryRecord(p), DirectoryRecord(q)]
  {
    hide WellFormed, Nodes, Below, PathOver, Canonical, Over;
    members := TreeCanBeArchived(TwoFolders(p, q));
    TwoFoldersOver(alphabet, members, p, q);
    CanonicalOfTwo(digest, members, p, q);
  }

  const LETTERS: set<char> := {'a', 'b', 'c', 'D'}

  /** With NULs and newlines in paths two archives that the validator accepts have different contents and one
      inventory, whatever the hashes. */
  lemma NulAndNewlineCollide(digest: Bytes -> string, hash: string -> string) returns (a: seq<Member>, b: seq<Member>)
    ensures WellFormed(a) && WellFormed(b) && Nodes(a) != Nodes(b)
    ensures Over(LETTERS + {NUL, '\n'}, a) && Over(LETTERS + {NUL, '\n'}, b)
    ensures Summary(hash, Canonical(digest, a)) == Summary(hash, Canonical(digest, b))
  {
    var p, q := "a\nD" + [NUL] + "b", "b\nD" + [NUL] + "c";
    LongNames(p, q);
    RecordsCanCollide(hash);
    hide WellFormed, Nodes, Over, Canonical, Summary, Clean, Below, PathOver, EncodeAll, RecordsAscending;
    a := TwoFoldersArchived(LETTERS + {NUL, '\n'}, digest, p, "c");
    b := TwoFoldersArchived(LETTERS + {NUL, '\n'}, digest, "a", q);
    DifferentFolders(p, q);
  }

  lemma DifferentFolders(p: string, q: string)
    requires |p| > 1
    ensures TwoFolders(p, "c") != TwoFolders("a", q)
  {
    assert ["a"] in TwoFolders("a", q) && ["a"] !in TwoFolders(p, "c");
  }

  lemma LongNames(p: string, q: string)
    requires p == "a\nD" + [NUL] + "b" && q == "b\nD" + [NUL] + "c"
    ensures Clean(p) && Clean("c") && Clean("a") && Clean(q)
    ensures Below(p, "c") && Below("a", q) && |p| > 1
    ensures var alphabet := LETTERS + {NUL, '\n'};
            PathOver(alphabet, [p]) && PathOver(alphabet, ["c"]) && PathOver(alphabet, ["a"]) && PathOver(alphabet, [q])
  {}

  // ---------- the exact condition ----------

  ghost predicate Determines(alphabet: set<char>, digest: Bytes -> string, hash: string -> string) {
    forall a, b | WellFormed(a) && WellFormed(b) && Over(alphabet, a) && Over(alphabet, b) ::
      Summary(hash, Canonical(digest, a)) == Summary(hash, Canonical(digest, b)) ==> Nodes(a) == Nodes(b)
  }

  /** For paths over an alphabet with at least these letters, the inventory of an accepted archive determines
      its directories, files and contents exactly when NUL or the newline is not in the alphabet. */
  lemma InventoryDeterminesTreeExactly(alphabet: set<char>, digest: Bytes -> string, hash: string -> string)
    requires LETTERS <= alphabet && Injective(digest) && Hexadecimal(digest) && Injective(hash)
    ensures Determines(alphabet, digest, hash) <==> NUL !in alphabet || '\n' !in alphabet
  {
    hide WellFormed, Nodes, Canonical, Summary, Avoids;
    if NUL !in alphabet || '\n' !in alphabet {
      forall a, b | WellFormed(a) && WellFormed(b) && Over(alphabet, a) && Over(alphabet, b)
                    && Summary(hash, Canonical(digest, a)) == Summary(hash, Canonical(digest, b))
        ensures Nodes(a) == Nodes(b)
      {
        var mark := if NUL !in alphabet then NUL else '\n';
        OverAvoids(alphabet, a, mark);
        OverAvoids(alphabet, b, mark);
        InventoryDeterminesTree(digest, hash, a, b);
      }
    } else {
      var a, b := NulAndNewlineCollide(digest, hash);
      OverMore(LETTERS + {NUL, '\n'}, alphabet, a);
      OverMore(LETTERS + {NUL, '\n'}, alphabet, b);
    }
  }

  lemma OverMore(some: set<char>, more: set<char>, members: seq<Member>)
    requires some <= more && Over(some, members)
    ensures Over(more, members)
  {
    hide PathOf;
  }

  /** There are functions as the hashes are taken to be. */
  lemma HashesExist() returns (digest: Bytes -> string, hash: string -> string)
    ensures Injective(digest) && Hexadecimal(digest) && Injective(hash)
  {
    digest := (content: Bytes) => Letters(content);
    hash := (text: string) => text;
    forall x, y | digest(x) == digest(y) ensures x == y {
      assert |x| == |Letters(x)| == |Letters(y)| == |y|;
      forall i | 0 <= i < |x| ensures x[i] == y[i] {
        assert Letters(x)[i] == Letters(y)[i];
      }
    }
    forall x ensures NUL !in digest(x) && '\n' !in digest(x) {}
  }

  function Letters(content: Bytes): (text: string)
    ensures |text| == |content| && forall i :: 0 <= i < |text| ==> text[i] == (256 + content[i] as int) as char
  {
    seq(|content|, i requires 0 <= i < |content| => (256 + content[i] as int) as char)
  }
}
