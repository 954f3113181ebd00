/** Names of archive members: how they are split, checked, normalized and ordered. */
module MemberPaths {
  import opened Wrappers

  /** What a member name denotes: the names on the way from the root. */
  type Components = seq<string>

  predicate SlashFree(part: string) { '/' !in part }

  predicate Clean(part: string) { SlashFree(part) && part != "" && part != "." && part != ".." }

  predicate AllClean(parts: Components) { forall part :: part in parts ==> Clean(part) }

  /** The parts between slashes, empty ones included. */
  function Split(name: string): (parts: seq<string>)
    ensures parts != []
  {
    if name == "" then [""]
    else
      var rest := Split(name[1..]);
      if name[0] == '/' then [""] + rest else [[name[0]] + rest[0]] + rest[1..]
  }

  function Join(parts: seq<string>): string {
    if parts == [] then "" else if |parts| == 1 then parts[0] else parts[0] + "/" + Join(parts[1..])
  }

  predicate Significant(part: string) { part != "" && part != "." }

  function Kept(parts: seq<string>): seq<string> {
    if parts == [] then [] else (if Significant(parts[0]) then [parts[0]] else []) + Kept(parts[1..])
  }

  /** PurePosixPath(name).parts of a relative name. */
  function PartsOf(name: string): seq<string> { Kept(Split(name)) }

  predicate Absolute(name: string) { name != "" && name[0] == '/' }

  /** The normalized text of a path; the root is a dot. */
  function Text(path: Components): string { if path == [] then "." else Join(path) }

  /** _validate_member_path: None where it raises. */
  function ValidateMemberPath(name: string): Option<string> {
    if Absolute(name) then None
    else if ".." in PartsOf(name) then None
    else Some(Text(PartsOf(name)))
  }

  // ---------- splitting and joining are inverse ----------

  lemma {:induction false} SplitParts(name: string)
    ensures forall part :: part in Split(name) ==> SlashFree(part)
    ensures Join(Split(name)) == name
  {
    if name != "" {
      var rest := Split(name[1..]);
      SplitParts(name[1..]);
      assert rest == [rest[0]] + rest[1..];
      if name[0] == '/' {
        assert ([""] + rest)[1..] == rest;
      } else {
        assert SlashFree(rest[0]);
        var parts := [[name[0]] + rest[0]] + rest[1..];
        assert parts[1..] == rest[1..];
      }
    }
  }

  lemma {:induction false} SplitNoSlash(part: string)
    requires SlashFree(part)
    ensures Split(part) == [part]
  {
    if part != "" {
      SplitNoSlash(part[1..]);
      assert part == [part[0]] + part[1..];
    }
  }

  lemma {:induction false} SplitAtSlash(part: string, rest: string)
    requires SlashFree(part)
    ensures Split(part + "/" + rest) == [part] + Split(rest)
  {
    var name := part + "/" + rest;
    if part == "" {
      assert name[1..] == rest;
    } else {
      SplitAtSlash(part[1..], rest);
      assert name[1..] == part[1..] + "/" + rest;
      assert part == [part[0]] + part[1..];
    }
  }

  lemma {:induction false} SplitOfJoin(parts: seq<string>)
    requires parts != [] && forall part :: part in parts ==> SlashFree(part)
    ensures Split(Join(parts)) == parts
  {
    if |parts| == 1 {
      SplitNoSlash(parts[0]);
    } else {
      SplitOfJoin(parts[1..]);
      SplitAtSlash(parts[0], Join(parts[1..]));
    }
  }

  lemma {:induction false} KeptMembers(parts: seq<string>)
    ensures forall part :: part in Kept(parts) <==> part in parts && Significant(part)
  {
    if parts != [] {
      KeptMembers(parts[1..]);
      assert parts == [parts[0]] + parts[1..];
    }
  }

  lemma {:induction false} KeptAll(parts: seq<string>)
    requires forall part :: part in parts ==> Significant(part)
    ensures Kept(parts) == parts
  {
    if parts != [] { KeptAll(parts[1..]); }
  }

  /** A name is accepted exactly when it does not begin with a slash and none of its parts is a double dot. */
  lemma AcceptedExactly(name: string)
    ensures ValidateMemberPath(name).Some? <==> (name == "" || name[0] != '/') && ".." !in Split(name)
  {
    KeptMembers(Split(name));
  }

  /** Parts of an accepted name are clean, and of clean parts none is lost. */
  lemma AcceptedIsClean(name: string)
    requires ValidateMemberPath(name).Some?
    ensures AllClean(PartsOf(name))
  {
    SplitParts(name);
    KeptMembers(Split(name));
  }

  /** A normalized text denotes the path it was made from. */
  lemma PartsOfText(path: Components)
    requires AllClean(path)
    ensures PartsOf(Text(path)) == path && !Absolute(Text(path))
  {
    if path == [] {
      SplitNoSlash(".");
    } else {
      SplitOfJoin(path);
      KeptAll(path);
      assert Clean(path[0]);
      assert path == [path[0]] + path[1..];
    }
  }

  /** Normalizing twice changes nothing. */
  lemma NormalizeTwice(name: string)
    requires ValidateMemberPath(name).Some?
    ensures ValidateMemberPath(ValidateMemberPath(name).value) == ValidateMemberPath(name)
  {
    AcceptedIsClean(name);
    PartsOfText(PartsOf(name));
  }

  /** Different paths have different texts. */
  lemma TextInjective(p: Components, q: Components)
    requires AllClean(p) && AllClean(q) && Text(p) == Text(q)
    ensures p == q
  {
    PartsOfText(p);
    PartsOfText(q);
  }

  // ---------- the order of texts ----------

  /** Lexicographic by code point. */
  predicate Below(a: string, b: string) {
    b != "" && (a == "" || a[0] < b[0] || (a[0] == b[0] && Below(a[1..], b[1..])))
  }

  lemma {:induction false} BelowIsStrict(a: string)
    ensures !Below(a, a)
  {
    if a != "" { BelowIsStrict(a[1..]); }
  }

  lemma {:induction false} BelowTransitive(a: string, b: string, c: string)
    requires Below(a, b) && Below(b, c)
    ensures Below(a, c)
  {
    if a != "" && a[0] == b[0] && b[0] == c[0] { BelowTransitive(a[1..], b[1..], c[1..]); }
  }

  lemma {:induction false} BelowTotal(a: string, b: string)
    ensures a == b || Below(a, b) || Below(b, a)
  {
    if a != "" && b != "" && a[0] == b[0] {
      BelowTotal(a[1..], b[1..]);
      assert a == [a[0]] + a[1..] && b == [b[0]] + b[1..];
    }
  }

  /** The shorter of two texts that agree comes first; otherwise the first difference decides. */
  lemma {:induction false} BelowPlainly(a: string, b: string)
    ensures Below(a, b) <==> exists k :: 0 <= k <= |a| && k < |b| && a[..k] == b[..k] && (k == |a| || a[k] < b[k])
  {
    if a == "" || b == "" {
      if b != "" { assert a[..0] == b[..0]; }
    } else if a[0] != b[0] {
      assert a[..0] == b[..0];
      forall k | 0 < k <= |a| && k < |b| ensures a[..k] != b[..k] {
        assert a[..k][0] == a[0] && b[..k][0] == b[0];
      }
    } else {
      BelowPlainly(a[1..], b[1..]);
      forall k | 0 <= k < |a| && k < |b| ensures a[..k + 1] == b[..k + 1] <==> a[1..][..k] == b[1..][..k] {
        assert a[..k + 1] == [a[0]] + a[1..][..k] && b[..k + 1] == [b[0]] + b[1..][..k];
        assert a[..k + 1][1..] == a[1..][..k] && b[..k + 1][1..] == b[1..][..k];
      }
      if Below(a, b) {
        var k :| 0 <= k <= |a[1..]| && k < |b[1..]| && a[1..][..k] == b[1..][..k] && (k == |a[1..]| || a[1..][k] < b[1..][k]);
        assert a[..k + 1] == b[..k + 1];
      }
      if k :| 0 <= k <= |a| && k < |b| && a[..k] == b[..k] && (k == |a| || a[k] < b[k]) {
        assert k > 0;
        assert a[..(k - 1) + 1] == b[..(k - 1) + 1];
        assert a[1..][..k - 1] == b[1..][..k - 1];
      }
    }
  }

  /** The part before the first slash, and the parts after it. */
  lemma PartsAtSlash(part: string, rest: string)
    requires SlashFree(part)
    ensures PartsOf(part + "/" + rest) == (if part == "" || part == "." then [] else [part]) + PartsOf(rest)
  {
    SplitAtSlash(part, rest);
    assert ([part] + Split(rest))[1..] == Split(rest);
  }

  lemma PartsNoSlash(part: string)
    requires SlashFree(part)
    ensures PartsOf(part) == if part == "" || part == "." then [] else [part]
  {
    SplitNoSlash(part);
    hide Split;
    assert [part][1..] == [] && Kept([]) == [];
  }

  /** Dots and empty parts are dropped, and nothing is left of the root; a name may not begin with a slash or go up. */
  lemma KnownPaths()
    ensures ValidateMemberPath("./a//b") == Some("a/b") && ValidateMemberPath(".") == Some(".") == ValidateMemberPath("")
    ensures ValidateMemberPath("/absolute") == None && ValidateMemberPath("..") == None && ValidateMemberPath("a/../b") == None
  {
    hide PartsOf;
    PartsNoSlash("b");
    PartsAtSlash("", "b");
    PartsAtSlash("a", "/b");
    PartsAtSlash(".", "a//b");
    assert "" + "/" + "b" == "/b" && "a" + "/" + "/b" == "a//b" && "." + "/" + "a//b" == "./a//b";
    assert PartsOf("./a//b") == ["a", "b"] && ["a", "b"][1..] == ["b"];
    assert Join(["a", "b"]) == "a" + "/" + "b" == "a/b";
    PartsNoSlash(".");
    PartsNoSlash("");
    PartsNoSlash("..");
    PartsAtSlash("..", "b");
    PartsAtSlash("a", "../b");
    assert ".." + "/" + "b" == "../b" && "a" + "/" + "../b" == "a/../b" && PartsOf("a/../b")[1] == "..";
  }
}
