/** The archives of the data volumes: which lists of members are accepted, and what they denote. */
module NestedArchive {
  import opened Wrappers
  import opened MemberPaths

  type Bytes = seq<bv8>

  datatype Kind = Regular | Directory | Symlink | Hardlink | Special

  datatype Member = Member(name: string, kind: Kind, content: Bytes)

  function PathOf(m: Member): Components { PartsOf(m.name) }

  // ---------- names that only a directory can have ----------

  predicate EndsWith(s: string, suffix: string) { |suffix| <= |s| && s[|s| - |suffix|..] == suffix }

  function WithoutTrailingSlashes(name: string): string {
    if name != "" && name[|name| - 1] == '/' then WithoutTrailingSlashes(name[..|name| - 1]) else name
  }

  predicate DirectoryOnly(name: string) {
    EndsWith(name, "/") || EndsWith(WithoutTrailingSlashes(name), "/.")
  }

  lemma {:induction false} SplitSnoc(name: string, part: string)
    requires SlashFree(part)
    ensures Split(name + "/" + part) == Split(name) + [part]
  {
    if name == "" {
      SplitNoSlash(part);
      assert ("" + "/" + part)[1..] == part;
    } else {
      SplitSnoc(name[1..], part);
      assert (name + "/" + part)[1..] == name[1..] + "/" + part;
    }
  }

  lemma {:induction false} JoinSnoc(parts: seq<string>, part: string)
    requires parts != []
    ensures Join(parts + [part]) == Join(parts) + "/" + part
  {
    var all := parts + [part];
    assert all[1..] == parts[1..] + [part];
    if |parts| > 1 {
      JoinSnoc(parts[1..], part);
      assert Join(all) == parts[0] + "/" + (Join(parts[1..]) + "/" + part);
    } else {
      assert Join(all[1..]) == part;
    }
  }

  lemma SplitEndsWith(name: string, part: string)
    requires SlashFree(part) && EndsWith(name, "/" + part)
    ensures |Split(name)| > 1 && Split(name)[|Split(name)| - 1] == part
  {
    var n := |name| - |part| - 1;
    SplitSnoc(name[..n], part);
    assert name == name[..n] + "/" + part;
    hide Split;
  }

  lemma JoinEndsWith(parts: seq<string>, part: string)
    requires parts != []
    ensures EndsWith(Join(parts + [part]), "/" + part)
  {
    JoinSnoc(parts, part);
    hide Join;
    var text := Join(parts) + "/" + part;
    assert text[|text| - |"/" + part|..] == "/" + part;
  }

  lemma LastPart(name: string, part: string)
    requires SlashFree(part)
    ensures EndsWith(name, "/" + part) <==> |Split(name)| > 1 && Split(name)[|Split(name)| - 1] == part
  {
    hide EndsWith, Split, Join;
    if EndsWith(name, "/" + part) { SplitEndsWith(name, part); }
    var parts := Split(name);
    if |parts| > 1 && parts[|parts| - 1] == part {
      SplitParts(name);
      JoinEndsWith(parts[..|parts| - 1], part);
      assert parts == parts[..|parts| - 1] + [part];
    }
  }

  /** Such a name has several parts, of which the last is empty or a dot. */
  lemma DirectoryOnlyMeaning(name: string)
    ensures DirectoryOnly(name) <==> |Split(name)| > 1 && !Significant(Split(name)[|Split(name)| - 1])
  {
    LastPart(name, "");
    LastPart(name, ".");
    assert "/" + "" == "/" && "/" + "." == "/.";
    EndsInSlash(name);
    hide Split, EndsWith;
  }

  lemma EndsInSlash(name: string)
    ensures EndsWith(name, "/") <==> name != "" && name[|name| - 1] == '/'
  {
    if name != "" { assert name[|name| - 1..] == [name[|name| - 1]]; }
  }

  // ---------- well-formed archives ----------

  predicate Acceptable(m: Member) {
    && ValidateMemberPath(m.name).Some?
    && (m.kind.Regular? || m.kind.Directory?)
    && (DirectoryOnly(m.name) ==> m.kind.Directory?)
  }

  predicate AllAcceptable(members: seq<Member>) { forall i :: 0 <= i < |members| ==> Acceptable(members[i]) }

  predicate DistinctPaths(members: seq<Member>) {
    forall i, j :: 0 <= i < j < |members| ==> PathOf(members[i]) != PathOf(members[j])
  }

  predicate RootIsDirectory(members: seq<Member>) {
    forall i :: 0 <= i < |members| && PathOf(members[i]) == [] ==> members[i].kind.Directory?
  }

  predicate RootListed(members: seq<Member>) { exists i :: 0 <= i < |members| && PathOf(members[i]) == [] }

  /** inner lies below outer. */
  predicate Inside(inner: Components, outer: Components) { |outer| < |inner| && inner[..|outer|] == outer }

  /** Whatever the j-th member lies below is a directory. */
  predicate UnblockedAt(members: seq<Member>, j: nat)
    requires j < |members|
  {
    forall i :: 0 <= i < |members| && Inside(PathOf(members[j]), PathOf(members[i])) ==> members[i].kind.Directory?
  }

  predicate Unblocked(members: seq<Member>) { forall j :: 0 <= j < |members| ==> UnblockedAt(members, j) }

  predicate WellFormed(members: seq<Member>) {
    && AllAcceptable(members) && DistinctPaths(members)
    && RootListed(members) && RootIsDirectory(members) && Unblocked(members)
  }

  /** Read member by member: names that stay inside, regular files and directories only, a directory wherever the
      name says so, every path once, the root listed, and nothing below a file. */
  lemma WellFormedPlainly(members: seq<Member>)
    ensures WellFormed(members) <==>
              && (forall i :: 0 <= i < |members| ==>
                    && (members[i].name == "" || members[i].name[0] != '/') && ".." !in Split(members[i].name)
                    && (members[i].kind == Regular || members[i].kind == Directory)
                    && (|Split(members[i].name)| > 1 && Split(members[i].name)[|Split(members[i].name)| - 1] in {"", "."} ==>
                          members[i].kind == Directory))
              && (forall i, j :: 0 <= i < j < |members| ==> Kept(Split(members[i].name)) != Kept(Split(members[j].name)))
              && (exists i :: 0 <= i < |members| && Kept(Split(members[i].name)) == [])
              && (forall i :: 0 <= i < |members| && Kept(Split(members[i].name)) == [] ==> members[i].kind == Directory)
              && (forall i, j | 0 <= i < |members| && 0 <= j < |members| && Kept(Split(members[i].name)) < Kept(Split(members[j].name))
                    :: members[i].kind == Directory)
  {
    AllAcceptablePlainly(members);
    UnblockedPlainly(members);
    hide AllAcceptable, Unblocked, Split, Kept;
  }

  lemma AllAcceptablePlainly(members: seq<Member>)
    ensures AllAcceptable(members) <==>
              forall i :: 0 <= i < |members| ==>
                && (members[i].name == "" || members[i].name[0] != '/') && ".." !in Split(members[i].name)
                && (members[i].kind == Regular || members[i].kind == Directory)
                && (|Split(members[i].name)| > 1 && Split(members[i].name)[|Split(members[i].name)| - 1] in {"", "."} ==>
                      members[i].kind == Directory)
  {
    hide Acceptable, Split;
    forall i | 0 <= i < |members| {
      AcceptablePlainly(members[i]);
    }
  }

  lemma UnblockedPlainly(members: seq<Member>)
    ensures Unblocked(members) <==>
              forall i, j | 0 <= i < |members| && 0 <= j < |members| && Kept(Split(members[i].name)) < Kept(Split(members[j].name))
                :: members[i].kind == Directory
  {
    hide Split, Kept;
    assert forall p: Components, q: Components :: Inside(q, p) <==> p < q;
    if Unblocked(members) {
      forall i, j | 0 <= i < |members| && 0 <= j < |members| && Kept(Split(members[i].name)) < Kept(Split(members[j].name))
        ensures members[i].kind == Directory
      {
        assert UnblockedAt(members, j) && Inside(PathOf(members[j]), PathOf(members[i]));
      }
    }
  }

  lemma AcceptablePlainly(m: Member)
    ensures Acceptable(m) <==>
              && (m.name == "" || m.name[0] != '/') && ".." !in Split(m.name)
              && (m.kind == Regular || m.kind == Directory)
              && (|Split(m.name)| > 1 && Split(m.name)[|Split(m.name)| - 1] in {"", "."} ==> m.kind == Directory)
  {
    AcceptedExactly(m.name);
    DirectoryOnlyMeaning(m.name);
    hide DirectoryOnly, Split, ValidateMemberPath;
  }

  // ---------- the validator ----------

  /** member_types: every normalized name, and whether it is a directory. */
  ghost predicate Registered(members: seq<Member>, types: map<string, bool>) {
    && (forall i :: 0 <= i < |members| ==>
          Text(PathOf(members[i])) in types && types[Text(PathOf(members[i]))] == members[i].kind.Directory?)
    && (forall text :: text in types ==> exists i :: 0 <= i < |members| && Text(PathOf(members[i])) == text)
  }

  lemma SameTextSamePath(a: Member, b: Member)
    requires Acceptable(a) && Acceptable(b)
    ensures Text(PathOf(a)) == Text(PathOf(b)) <==> PathOf(a) == PathOf(b)
  {
    AcceptedIsClean(a.name);
    AcceptedIsClean(b.name);
    if Text(PathOf(a)) == Text(PathOf(b)) { TextInjective(PathOf(a), PathOf(b)); }
  }

  lemma RegisteredMeansListed(members: seq<Member>, types: map<string, bool>, m: Member)
    requires AllAcceptable(members) && Registered(members, types) && Acceptable(m)
    ensures Text(PathOf(m)) in types <==> exists i :: 0 <= i < |members| && PathOf(members[i]) == PathOf(m)
  {
    if Text(PathOf(m)) in types {
      var i :| 0 <= i < |members| && Text(PathOf(members[i])) == Text(PathOf(m));
      SameTextSamePath(members[i], m);
    }
  }

  predicate Readable(members: seq<Member>) {
    AllAcceptable(members) && DistinctPaths(members) && RootIsDirectory(members)
  }

  /** What one more member must be. */
  predicate Fits(members: seq<Member>, m: Member) {
    && Acceptable(m) && (PathOf(m) == [] ==> m.kind.Directory?)
    && forall i :: 0 <= i < |members| ==> PathOf(members[i]) != PathOf(m)
  }

  lemma ReadableSnoc(members: seq<Member>, k: nat)
    requires k < |members|
    ensures Readable(members[..k + 1]) <==> Readable(members[..k]) && Fits(members[..k], members[k])
    ensures Readable(members) ==> Readable(members[..k + 1])
  {
    hide PathOf, Acceptable;
    var before, with := members[..k], members[..k + 1];
    assert with == before + [members[k]];
    assert forall i :: 0 <= i < k ==> before[i] == with[i];
    if Readable(with) {
      forall i | 0 <= i < k ensures PathOf(before[i]) != PathOf(members[k]) {
        assert PathOf(with[i]) != PathOf(with[k]);
      }
      assert with[k] == members[k];
    }
  }

  lemma FitsUnregistered(members: seq<Member>, types: map<string, bool>, m: Member)
    requires Readable(members) && Registered(members, types)
    ensures Fits(members, m) <==>
              Acceptable(m) && Text(PathOf(m)) !in types && (Text(PathOf(m)) == "." ==> m.kind.Directory?)
  {
    if Acceptable(m) {
      RegisteredMeansListed(members, types, m);
      RootText(m);
    }
  }

  /** The checks of one member against the members before it. */
  method CheckMember(m: Member, types: map<string, bool>) returns (ok: bool)
    ensures ok <==> Acceptable(m) && Text(PathOf(m)) !in types && (Text(PathOf(m)) == "." ==> m.kind.Directory?)
  {
    hide DirectoryOnly, PartsOf, Text;
    var normalized := ValidateMemberPath(m.name);
    if normalized.None? { return false; }
    if normalized.value in types { return false; }
    if m.kind.Symlink? || m.kind.Hardlink? { return false; }
    if !(m.kind.Regular? || m.kind.Directory?) { return false; }
    if DirectoryOnly(m.name) && !m.kind.Directory? { return false; }
    if normalized.value == "." && !m.kind.Directory? { return false; }
    ok := true;
  }

  lemma OneMore<T>(s: seq<T>, k: nat)
    requires k < |s|
    ensures s[..k + 1] == s[..k] + [s[k]]
  {}

  /** The first loop of _validate_nested_archive. */
  method ReadMembers(members: seq<Member>) returns (ok: bool, types: map<string, bool>)
    ensures ok <==> Readable(members)
    ensures ok ==> Registered(members, types)
  {
    types := map[];
    ok := true;
    assert Readable(members[..0]) && Registered(members[..0], types);
    hide PathOf, Text, Fits, Registered, Readable, Acceptable;
    for k := 0 to |members|
      invariant ok && Readable(members[..k]) && Registered(members[..k], types)
    {
      ReadableSnoc(members, k);
      FitsUnregistered(members[..k], types, members[k]);
      ok := CheckMember(members[k], types);
      if !ok { return; }
      RegisteredSnoc(members[..k], types, members[k]);
      types := types[Text(PathOf(members[k])) := members[k].kind.Directory?];
      OneMore(members, k);
    }
    assert members[..|members|] == members;
  }

  lemma RootText(m: Member)
    requires ValidateMemberPath(m.name).Some?
    ensures Text(PathOf(m)) == "." <==> PathOf(m) == []
  {
    AcceptedIsClean(m.name);
    if Text(PathOf(m)) == "." { TextInjective(PathOf(m), []); }
  }

  lemma RegisteredSnoc(members: seq<Member>, types: map<string, bool>, m: Member)
    requires Registered(members, types) && Text(PathOf(m)) !in types
    ensures Registered(members + [m], types[Text(PathOf(m)) := m.kind.Directory?])
  {
    hide PathOf, Text;
    var all := members + [m];
    var next := types[Text(PathOf(m)) := m.kind.Directory?];
    forall text | text in next
      ensures exists i :: 0 <= i < |all| && Text(PathOf(all[i])) == text
    {
      if text in types {
        var i :| 0 <= i < |members| && Text(PathOf(members[i])) == text;
        assert all[i] == members[i];
      } else {
        assert all[|members|] == m;
      }
    }
  }

  /** One of the directories on the way to this path is a file. */
  predicate FileOnTheWay(path: Components, types: map<string, bool>) {
    exists l :: 1 <= l < |path| && Text(path[..l]) in types && !types[Text(path[..l])]
  }

  method AnyFileOnTheWay(path: Components, types: map<string, bool>) returns (found: bool)
    ensures found <==> FileOnTheWay(path, types)
  {
    var length := 1;
    while length < |path|
      invariant 1 <= length
      invariant forall l :: 1 <= l < length && l < |path| && Text(path[..l]) in types ==> types[Text(path[..l])]
    {
      if Text(path[..length]) in types && !types[Text(path[..length])] { return true; }
      length := length + 1;
    }
    found := false;
  }

  /** The second loop: no file stands where a directory is needed.  A dictionary keeps the order of its keys. */
  method FindBlocked(members: seq<Member>, types: map<string, bool>) returns (blocked: bool)
    requires AllAcceptable(members) && Registered(members, types) && RootIsDirectory(members)
    ensures blocked <==> !Unblocked(members)
  {
    hide PathOf, PartsOf, Text, FileOnTheWay, Registered, RootIsDirectory, Acceptable, UnblockedAt;
    for k := 0 to |members|
      invariant forall j :: 0 <= j < k ==> UnblockedAt(members, j)
    {
      var normalized := Text(PathOf(members[k]));
      assert Acceptable(members[k]);
      PartsOfNormalized(members[k]);
      var found := AnyFileOnTheWay(PartsOf(normalized), types);
      BlockedAt(members, types, k);
      if found { return true; }
    }
    blocked := false;
  }

  lemma PartsOfNormalized(m: Member)
    requires Acceptable(m)
    ensures PartsOf(Text(PathOf(m))) == PathOf(m)
  {
    AcceptedIsClean(m.name);
    PartsOfText(PathOf(m));
  }

  lemma BlockedAt(members: seq<Member>, types: map<string, bool>, k: nat)
    requires AllAcceptable(members) && Registered(members, types) && RootIsDirectory(members) && k < |members|
    ensures FileOnTheWay(PathOf(members[k]), types) <==> !UnblockedAt(members, k)
  {
    hide PathOf, PartsOf, Text;
    var path := PathOf(members[k]);
    if FileOnTheWay(path, types) {
      var l :| 1 <= l < |path| && Text(path[..l]) in types && !types[Text(path[..l])];
      var i :| 0 <= i < |members| && Text(PathOf(members[i])) == Text(path[..l]);
      CleanPath(members[k]);
      CleanPath(members[i]);
      TextInjective(PathOf(members[i]), path[..l]);
      assert Inside(path, PathOf(members[i]));
    }
    if !UnblockedAt(members, k) {
      var i :| 0 <= i < |members| && Inside(path, PathOf(members[i])) && !members[i].kind.Directory?;
      var l := |PathOf(members[i])|;
      assert path[..l] == PathOf(members[i]) && l > 0;
      assert Text(path[..l]) in types && !types[Text(path[..l])];
    }
  }

  lemma CleanPath(m: Member)
    requires Acceptable(m)
    ensures AllClean(PathOf(m))
  {
    AcceptedIsClean(m.name);
  }

  /** _validate_nested_archive: accepts exactly the well-formed archives. */
  method ValidateNestedArchive(members: seq<Member>) returns (ok: bool)
    ensures ok <==> WellFormed(members)
  {
    hide PathOf, Text, Unblocked, Registered;
    var types: map<string, bool>;
    ok, types := ReadMembers(members);
    if !ok { return; }
    DotIsRoot(members, types);
    if "." !in types || !types["."] { return false; }
    var blocked := FindBlocked(members, types);
    ok := !blocked;
  }

  lemma DotIsRoot(members: seq<Member>, types: map<string, bool>)
    requires AllAcceptable(members) && Registered(members, types) && RootIsDirectory(members)
    ensures "." in types && types["."] <==> RootListed(members)
  {
    if "." in types {
      var i :| 0 <= i < |members| && Text(PathOf(members[i])) == ".";
      RootText(members[i]);
    }
  }

  // ---------- what an archive denotes ----------

  datatype Node = Folder | File(content: Bytes)

  function NodeOf(m: Member): Node { if m.kind.Directory? then Folder else File(m.content) }

  function Nodes(members: seq<Member>): map<Components, Node> {
    if members == [] then map[]
    else Nodes(members[..|members| - 1])[PathOf(members[|members| - 1]) := NodeOf(members[|members| - 1])]
  }

  ghost predicate Denotes(members: seq<Member>, nodes: map<Components, Node>) {
    && (forall i :: 0 <= i < |members| ==>
          PathOf(members[i]) in nodes && nodes[PathOf(members[i])] == NodeOf(members[i]))
    && (forall p :: p in nodes ==> exists i :: 0 <= i < |members| && PathOf(members[i]) == p)
  }

  lemma DenotesSnoc(members: seq<Member>, m: Member, nodes: map<Components, Node>)
    requires Denotes(members, nodes) && forall i :: 0 <= i < |members| ==> PathOf(members[i]) != PathOf(m)
    ensures Denotes(members + [m], nodes[PathOf(m) := NodeOf(m)])
  {
    hide PathOf, NodeOf;
    var all, next := members + [m], nodes[PathOf(m) := NodeOf(m)];
    forall p | p in next ensures exists i :: 0 <= i < |all| && PathOf(all[i]) == p {
      if p in nodes {
        var i :| 0 <= i < |members| && PathOf(members[i]) == p;
        assert all[i] == members[i];
      } else {
        assert all[|members|] == m;
      }
    }
  }

  lemma {:induction false} NodesAre(members: seq<Member>)
    requires DistinctPaths(members)
    ensures Denotes(members, Nodes(members))
  {
    hide PathOf, NodeOf, Denotes;
    if members != [] {
      var n := |members| - 1;
      NodesAre(members[..n]);
      DenotesSnoc(members[..n], members[n], Nodes(members[..n]));
      assert members == members[..n] + [members[n]];
    } else {
      NothingDenoted();
    }
  }

  lemma NothingDenoted()
    ensures Denotes([], map[])
  {}

  lemma DenotedIn(a: seq<Member>, b: seq<Member>, m: map<Components, Node>, n: map<Components, Node>)
    requires Denotes(a, m) && Denotes(b, n) && forall x :: x in a ==> x in b
    ensures forall p :: p in m ==> p in n && n[p] == m[p]
  {
    hide PathOf, NodeOf;
    forall p | p in m ensures p in n && n[p] == m[p] {
      var i :| 0 <= i < |a| && PathOf(a[i]) == p;
      assert a[i] in b;
    }
  }

  /** The order of the members says nothing. */
  lemma OrderIsImmaterial(a: seq<Member>, b: seq<Member>)
    requires WellFormed(a) && multiset(a) == multiset(b)
    ensures WellFormed(b) && Nodes(a) == Nodes(b)
  {
    hide PathOf, Acceptable, DistinctPaths, Nodes, Unblocked;
    SameMembers(a, b);
    PermutedDistinct(a, b);
    forall i | 0 <= i < |b| ensures b[i] in a {}
    var r :| 0 <= r < |a| && PathOf(a[r]) == [];
    assert a[r] in b;
    PermutedUnblocked(a, b);
    NodesOfPermuted(a, b);
  }

  lemma PermutedUnblocked(a: seq<Member>, b: seq<Member>)
    requires Unblocked(a) && forall m :: m in a <==> m in b
    ensures Unblocked(b)
  {
    hide PathOf;
    forall i, j | 0 <= i < |b| && 0 <= j < |b| && Inside(PathOf(b[j]), PathOf(b[i]))
      ensures b[i].kind.Directory?
    {
      assert b[i] in a && b[j] in a;
      var k :| 0 <= k < |a| && a[k] == b[j];
      assert UnblockedAt(a, k);
    }
  }

  lemma NodesOfPermuted(a: seq<Member>, b: seq<Member>)
    requires DistinctPaths(a) && DistinctPaths(b) && forall m :: m in a <==> m in b
    ensures Nodes(a) == Nodes(b)
  {
    NodesAre(a);
    NodesAre(b);
    DenotedIn(a, b, Nodes(a), Nodes(b));
    DenotedIn(b, a, Nodes(b), Nodes(a));
  }

  lemma SameMembers<T>(a: seq<T>, b: seq<T>)
    requires multiset(a) == multiset(b)
    ensures forall x :: x in a <==> x in b
  {
    forall x ensures x in a <==> x in b {
      assert x in a <==> x in multiset(a);
      assert x in b <==> x in multiset(b);
    }
  }

  lemma PermutedDistinct(a: seq<Member>, b: seq<Member>)
    requires DistinctPaths(a) && multiset(a) == multiset(b)
    ensures DistinctPaths(b)
  {
    hide PathOf;
    forall i, j | 0 <= i < j < |b|
      ensures PathOf(b[i]) != PathOf(b[j])
    {
      if PathOf(b[i]) == PathOf(b[j]) {
        SameMembers(a, b);
        assert b[i] in a && b[j] in a;
        assert b[i] == b[j];
        TwiceInMultiset(b, i, j);
        OnceInMultiset(a, b[i]);
      }
    }
  }

  lemma TwiceInMultiset<T>(s: seq<T>, i: nat, j: nat)
    requires i < j < |s| && s[i] == s[j]
    ensures multiset(s)[s[i]] >= 2
  {
    assert s == s[..i] + [s[i]] + s[i + 1..j] + [s[j]] + s[j + 1..];
  }

  lemma {:induction false} OnceInMultiset(s: seq<Member>, m: Member)
    requires DistinctPaths(s)
    ensures multiset(s)[m] <= 1
  {
    hide PathOf;
    if s != [] {
      OnceInMultiset(s[1..], m);
      assert s == [s[0]] + s[1..];
      if m in s[1..] {
        var i :| 0 <= i < |s[1..]| && s[1..][i] == m;
        assert s[i + 1] == m;
      }
    }
  }
}
