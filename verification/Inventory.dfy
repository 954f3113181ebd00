/** The inventory of a validated archive: a canonical text of its entries, hashed. */
module Inventory {
  import opened Wrappers
  import opened Decimals
  import opened MemberPaths
  import opened NestedArchive

  const NUL := 0 as char

  // ---------- records ----------

  datatype Record = DirectoryRecord(path: string) | FileRecord(path: string, size: nat, digest: string)

  function Encode(r: Record): (text: string)
    ensures |text| >= 2
  {
    match r
    case DirectoryRecord(path) => ['D', NUL] + path + "\n"
    case FileRecord(path, size, digest) => ['F', NUL] + path + [NUL] + Decimal(size) + [NUL] + digest + "\n"
  }

  /** "".join(records) */
  function Concat(texts: seq<string>): string { if texts == [] then "" else texts[0] + Concat(texts[1..]) }

  function EncodeAll(records: seq<Record>): string {
    if records == [] then "" else Encode(records[0]) + EncodeAll(records[1..])
  }

  /** The mark is not in the path, and the digest is as hexdigest writes it: without NUL or newline. */
  predicate Plain(mark: char, r: Record) {
    mark !in r.path && (r.FileRecord? ==> NUL !in r.digest && '\n' !in r.digest)
  }

  predicate AllPlain(mark: char, records: seq<Record>) { forall i :: 0 <= i < |records| ==> Plain(mark, records[i]) }

  // ---------- the text of a list of records can be read in one way only ----------

  /** The first mark divides a text in one way. */
  lemma DivideAtFirst(mark: char, a: string, b: string, c: string, d: string)
    requires mark !in a && mark !in c && a + [mark] + b == c + [mark] + d
    ensures a == c && b == d
  {
    var s := a + [mark] + b;
    assert s[|a|] == mark && forall i :: 0 <= i < |a| ==> s[i] == a[i];
    assert s[|c|] == mark && forall i :: 0 <= i < |c| ==> s[i] == c[i];
    assert |a| == |c|;
    assert s[..|a|] == a && s[..|c|] == c && s[|a| + 1..] == b && s[|c| + 1..] == d;
  }

  /** Nothing, or a kind letter and a NUL. */
  predicate StreamTail(text: string) { text == "" || (|text| >= 2 && text[0] != NUL && text[1] == NUL) }

  lemma EncodedStart(r: Record, rest: string)
    ensures var text := Encode(r) + rest;
            |text| >= 2 && text[0] == (if r.DirectoryRecord? then 'D' else 'F') && text[1] == NUL
  {}

  lemma StreamStart(records: seq<Record>)
    ensures StreamTail(EncodeAll(records)) && (EncodeAll(records) == "" <==> records == [])
  {
    if records != [] { EncodedStart(records[0], EncodeAll(records[1..])); }
  }

  /** A directory's path ends at the last newline before the next NUL, or before the end. */
  lemma DividePath(p: string, q: string, a: string, b: string)
    requires NUL !in p && NUL !in q && StreamTail(a) && StreamTail(b)
    requires p + "\n" + a == q + "\n" + b
    ensures p == q && a == b
  {
    var s := p + "\n" + a;
    OnlyTailHasNul(p, a);
    OnlyTailHasNul(q, b);
    if a != "" {
      DivideBeforeLetter(p, q, a, b);
    }
    assert |p| == |q| && s[..|p|] == p && s[..|q|] == q && s[|p| + 1..] == a && s[|q| + 1..] == b;
  }

  lemma OnlyTailHasNul(p: string, a: string)
    requires NUL !in p && StreamTail(a)
    ensures NUL in p + "\n" + a <==> a != ""
  {
    if a != "" { assert (p + "\n" + a)[|p| + 2] == NUL; }
  }

  lemma DivideBeforeLetter(p: string, q: string, a: string, b: string)
    requires NUL !in p && NUL !in q && StreamTail(a) && StreamTail(b) && a != "" && b != ""
    requires p + "\n" + a == q + "\n" + b
    ensures |p| == |q|
  {
    var x, y := p + "\n" + [a[0]], q + "\n" + [b[0]];
    assert p + "\n" + a == x + [NUL] + a[2..];
    assert q + "\n" + b == y + [NUL] + b[2..];
    DivideAtFirst(NUL, x, a[2..], y, b[2..]);
  }

  lemma DivideFile(p: string, n: string, h: string, rest: string, q: string, m: string, k: string, other: string)
    requires NUL !in p && NUL !in q && NUL !in n && NUL !in m && '\n' !in h && '\n' !in k
    requires p + [NUL] + (n + [NUL] + (h + ['\n'] + rest)) == q + [NUL] + (m + [NUL] + (k + ['\n'] + other))
    ensures p == q && n == m && h == k && rest == other
  {
    DivideAtFirst(NUL, p, n + [NUL] + (h + ['\n'] + rest), q, m + [NUL] + (k + ['\n'] + other));
    DivideAtFirst(NUL, n, h + ['\n'] + rest, m, k + ['\n'] + other);
    DivideAtFirst('\n', h, rest, k, other);
  }

  lemma DirectoryText(path: string, rest: string)
    ensures (Encode(DirectoryRecord(path)) + rest)[2..] == path + "\n" + rest
  {}

  lemma FileText(r: Record, rest: string)
    requires r.FileRecord?
    ensures (Encode(r) + rest)[2..] == r.path + [NUL] + (Decimal(r.size) + [NUL] + (r.digest + ['\n'] + rest))
  {
    hide Decimal;
  }

  /** The first record and what follows it are determined by their text. */
  lemma FirstRecord(r: Record, rest: string, q: Record, other: string)
    requires Plain(NUL, r) && Plain(NUL, q) && StreamTail(rest) && StreamTail(other)
    requires Encode(r) + rest == Encode(q) + other
    ensures r == q && rest == other
  {
    EncodedStart(r, rest);
    EncodedStart(q, other);
    hide Encode, Decimal;
    NoNulInSizes(r, q);
    if r.DirectoryRecord? {
      DirectoryText(r.path, rest);
      DirectoryText(q.path, other);
      DividePath(r.path, q.path, rest, other);
    } else {
      FileText(r, rest);
      FileText(q, other);
      DivideFile(r.path, Decimal(r.size), r.digest, rest, q.path, Decimal(q.size), q.digest, other);
      SizesDiffer(r, q);
    }
  }

  /** Sizes are written in digits, so they hold neither mark, ... */
  lemma NoNulInSizes(r: Record, q: Record)
    ensures r.FileRecord? ==> NUL !in Decimal(r.size) && '\n' !in Decimal(r.size)
    ensures q.FileRecord? ==> NUL !in Decimal(q.size) && '\n' !in Decimal(q.size)
  {
    if r.FileRecord? { DecimalRoundTrip(r.size); }
    if q.FileRecord? { DecimalRoundTrip(q.size); }
  }

  /** ... and different sizes are written differently. */
  lemma SizesDiffer(r: Record, q: Record)
    requires r.FileRecord? && q.FileRecord? && Decimal(r.size) == Decimal(q.size)
    ensures r.size == q.size
  {
    DecimalRoundTrip(r.size);
    DecimalRoundTrip(q.size);
  }

  /** Without NULs in paths the text is uniquely decodable, also where paths contain newlines. */
  lemma {:induction false} StreamIsUniquelyDecodable(a: seq<Record>, b: seq<Record>)
    requires AllPlain(NUL, a) && AllPlain(NUL, b) && EncodeAll(a) == EncodeAll(b)
    ensures a == b
  {
    StreamStart(a);
    StreamStart(b);
    if a != [] {
      var s, t := EncodeAll(a[1..]), EncodeAll(b[1..]);
      StreamStart(a[1..]);
      StreamStart(b[1..]);
      PlainParts(NUL, a);
      PlainParts(NUL, b);
      hide Encode, StreamTail, Plain, AllPlain;
      FirstRecord(a[0], s, b[0], t);
      StreamIsUniquelyDecodable(a[1..], b[1..]);
      assert a == [a[0]] + a[1..] && b == [b[0]] + b[1..];
    }
  }

  lemma PlainParts(mark: char, records: seq<Record>)
    requires AllPlain(mark, records) && records != []
    ensures Plain(mark, records[0]) && AllPlain(mark, records[1..])
  {}

  // ---------- paths without newlines ----------

  /** A record without its final newline. */
  function Body(r: Record): string {
    match r
    case DirectoryRecord(path) => ['D', NUL] + path
    case FileRecord(path, size, digest) => ['F', NUL] + path + [NUL] + Decimal(size) + [NUL] + digest
  }

  /** The last mark divides a text in one way. */
  lemma DivideAtLast(mark: char, a: string, b: string, c: string, d: string)
    requires mark !in b && mark !in d && a + [mark] + b == c + [mark] + d
    ensures a == c && b == d
  {
    var s := a + [mark] + b;
    assert s[|a|] == mark && forall i :: |a| < i < |s| ==> s[i] == b[i - |a| - 1];
    assert s[|c|] == mark && forall i :: |c| < i < |s| ==> s[i] == d[i - |c| - 1];
    assert |a| == |c|;
    assert s[..|a|] == a && s[..|c|] == c && s[|a| + 1..] == b && s[|c| + 1..] == d;
  }

  lemma OneLine(r: Record, rest: string)
    requires Plain('\n', r)
    ensures Encode(r) + rest == Body(r) + ['\n'] + rest && '\n' !in Body(r)
  {
    NoNulInSizes(r, r);
    hide Decimal;
  }

  lemma SameBody(r: Record, q: Record)
    requires Plain('\n', r) && Plain('\n', q) && Body(r) == Body(q)
    ensures r == q
  {
    NoNulInSizes(r, q);
    hide Decimal;
    assert Body(r)[0] == (if r.DirectoryRecord? then 'D' else 'F');
    assert Body(q)[0] == (if q.DirectoryRecord? then 'D' else 'F');
    if r.DirectoryRecord? {
      assert Body(r)[2..] == r.path && Body(q)[2..] == q.path;
    } else {
      var x, y := ['F', NUL] + r.path + [NUL] + Decimal(r.size), ['F', NUL] + q.path + [NUL] + Decimal(q.size);
      DivideAtLast(NUL, x, r.digest, y, q.digest);
      DivideAtLast(NUL, ['F', NUL] + r.path, Decimal(r.size), ['F', NUL] + q.path, Decimal(q.size));
      assert (['F', NUL] + r.path)[2..] == r.path && (['F', NUL] + q.path)[2..] == q.path;
      SizesDiffer(r, q);
    }
  }

  /** Without newlines in paths the text is uniquely decodable, also where paths contain NULs. */
  lemma {:induction false} LinesAreUniquelyDecodable(a: seq<Record>, b: seq<Record>)
    requires AllPlain('\n', a) && AllPlain('\n', b) && EncodeAll(a) == EncodeAll(b)
    ensures a == b
  {
    StreamStart(a);
    StreamStart(b);
    if a != [] {
      var s, t := EncodeAll(a[1..]), EncodeAll(b[1..]);
      PlainParts('\n', a);
      PlainParts('\n', b);
      hide Encode, Body, Plain, AllPlain, StreamTail;
      assert EncodeAll(a) == Encode(a[0]) + s && EncodeAll(b) == Encode(b[0]) + t;
      hide EncodeAll;
      OneLine(a[0], s);
      OneLine(b[0], t);
      DivideAtFirst('\n', Body(a[0]), s, Body(b[0]), t);
      SameBody(a[0], b[0]);
      LinesAreUniquelyDecodable(a[1..], b[1..]);
      assert a == [a[0]] + a[1..] && b == [b[0]] + b[1..];
    }
  }

  lemma EncodeTwo(r: Record, q: Record)
    ensures EncodeAll([r, q]) == Encode(r) + Encode(q)
  {
    assert [r, q][1..] == [q] && [q][1..] == [];
    assert EncodeAll([q]) == Encode(q) + "";
    assert EncodeAll([]) == "";
  }

  /** Paths with NULs and newlines: two different lists, both in order, have the same text and inventory. */
  lemma RecordsCanCollide(hash: string -> string)
    ensures var a := [DirectoryRecord("a\nD" + [NUL] + "b"), DirectoryRecord("c")];
            var b := [DirectoryRecord("a"), DirectoryRecord("b\nD" + [NUL] + "c")];
            a != b && RecordsAscending(a) && RecordsAscending(b) && EncodeAll(a) == EncodeAll(b)
            && Summary(hash, a) == Summary(hash, b)
  {
    var a0, a1 := DirectoryRecord("a\nD" + [NUL] + "b"), DirectoryRecord("c");
    var b0, b1 := DirectoryRecord("a"), DirectoryRecord("b\nD" + [NUL] + "c");
    assert a0.path[0] == 'a' && b1.path[0] == 'b' && |a0.path| == 5;
    EncodeTwo(a0, a1);
    EncodeTwo(b0, b1);
    assert Encode(a0) + Encode(a1) == Encode(b0) + Encode(b1);
    CountsTwo(a0, a1);
    CountsTwo(b0, b1);
  }

  lemma CountsTwo(r: Record, q: Record)
    requires r.DirectoryRecord? && q.DirectoryRecord?
    ensures FilesIn([r, q]) == 0 && BytesIn([r, q]) == 0
  {
    assert [r, q][..1] == [r] && [r][..0] == [];
    CountsSnoc([], r);
    CountsSnoc([r], q);
    assert [r] + [q] == [r, q] && [] + [r] == [r];
  }

  predicate RecordsAscending(records: seq<Record>) {
    forall i, j :: 0 <= i < j < |records| ==> Below(records[i].path, records[j].path)
  }

  // ---------- from members to records ----------

  /** SHA-256 is taken to give different texts for different inputs ... */
  ghost predicate Injective<T(!new)>(digest: T -> string) { forall x, y :: digest(x) == digest(y) ==> x == y }

  /** ... which hexdigest writes without NUL or newline. */
  ghost predicate Hexadecimal<T(!new)>(digest: T -> string) {
    forall x :: NUL !in digest(x) && '\n' !in digest(x)
  }

  function RecordOf(digest: Bytes -> string, path: Components, node: Node): Record {
    match node
    case Folder => DirectoryRecord(Text(path))
    case File(content) => FileRecord(Text(path), |content|, digest(content))
  }

  /** The records of an archive in the given order; the root has none. */
  function RecordsOf(digest: Bytes -> string, members: seq<Member>): seq<Record> {
    if members == [] then []
    else
      (if PathOf(members[0]) == [] then [] else [RecordOf(digest, PathOf(members[0]), NodeOf(members[0]))])
      + RecordsOf(digest, members[1..])
  }

  /** The same, as a set, from what the archive denotes. */
  function Entries(digest: Bytes -> string, nodes: map<Components, Node>): set<Record> {
    set p | p in nodes && p != [] :: RecordOf(digest, p, nodes[p])
  }

  predicate Comes(a: Member, b: Member) { Below(Text(PathOf(a)), Text(PathOf(b))) }

  function Insert(m: Member, sorted: seq<Member>): seq<Member> {
    if sorted == [] || !Comes(sorted[0], m) then [m] + sorted else [sorted[0]] + Insert(m, sorted[1..])
  }

  /** sorted(members, key=normalized path) */
  function SortByPath(members: seq<Member>): seq<Member> {
    if members == [] then [] else Insert(members[0], SortByPath(members[1..]))
  }

  predicate Ascending(members: seq<Member>) {
    forall i, j :: 0 <= i < j < |members| ==> Comes(members[i], members[j])
  }

  lemma {:induction false} InsertMembers(m: Member, sorted: seq<Member>)
    ensures multiset(Insert(m, sorted)) == multiset(sorted) + multiset{m}
  {
    hide Comes;
    if sorted != [] {
      assert sorted == [sorted[0]] + sorted[1..];
      InsertMembers(m, sorted[1..]);
    }
  }

  lemma ComesFirst(m: Member, sorted: seq<Member>)
    requires Ascending(sorted) && (sorted == [] || Comes(m, sorted[0]))
    ensures Ascending([m] + sorted)
  {
    hide PathOf, Text, Below;
    forall i | 0 <= i < |sorted| ensures Comes(m, sorted[i]) {
      if i > 0 { BelowTransitive(Text(PathOf(m)), Text(PathOf(sorted[0])), Text(PathOf(sorted[i]))); }
    }
    hide Comes;
  }

  lemma {:induction false} InsertSorts(m: Member, sorted: seq<Member>)
    requires Ascending(sorted) && forall i :: 0 <= i < |sorted| ==> Text(PathOf(sorted[i])) != Text(PathOf(m))
    ensures Ascending(Insert(m, sorted)) && multiset(Insert(m, sorted)) == multiset(sorted) + multiset{m}
  {
    hide PathOf, Text, Below;
    InsertMembers(m, sorted);
    if sorted == [] {
      ComesFirst(m, sorted);
    } else {
      BelowTotal(Text(PathOf(sorted[0])), Text(PathOf(m)));
      if Comes(sorted[0], m) {
        hide Comes;
        InsertSorts(m, sorted[1..]);
        InsertHead(m, sorted[1..]);
        ComesFirst(sorted[0], Insert(m, sorted[1..]));
      } else {
        ComesFirst(m, sorted);
      }
    }
  }

  lemma InsertHead(m: Member, sorted: seq<Member>)
    ensures Insert(m, sorted) != []
    ensures Insert(m, sorted)[0] == m || (sorted != [] && Insert(m, sorted)[0] == sorted[0])
  {
    hide Comes;
  }

  ghost predicate DistinctTexts(members: seq<Member>) {
    forall i, j :: 0 <= i < j < |members| ==> Text(PathOf(members[i])) != Text(PathOf(members[j]))
  }

  lemma TextsDistinct(members: seq<Member>)
    requires AllAcceptable(members) && DistinctPaths(members)
    ensures DistinctTexts(members)
  {
    hide PathOf, Text, Acceptable;
    forall i, j | 0 <= i < j < |members|
      ensures Text(PathOf(members[i])) != Text(PathOf(members[j]))
    {
      SameTextSamePath(members[i], members[j]);
    }
  }

  lemma {:induction false} SortSorts(members: seq<Member>)
    requires DistinctTexts(members)
    ensures Ascending(SortByPath(members)) && multiset(SortByPath(members)) == multiset(members)
  {
    hide PathOf, Text, Below, Ascending;
    if members != [] {
      var rest := members[1..];
      assert members == [members[0]] + rest;
      SortSorts(rest);
      var sorted := SortByPath(rest);
      forall i | 0 <= i < |sorted| ensures Text(PathOf(sorted[i])) != Text(PathOf(members[0])) {
        assert sorted[i] in multiset(rest);
        var j :| 0 <= j < |rest| && rest[j] == sorted[i];
        assert members[j + 1] == rest[j];
      }
      InsertSorts(members[0], sorted);
    } else {
      NothingToSort();
    }
  }

  lemma NothingToSort()
    ensures Ascending([])
  {}

  lemma {:induction false} RecordsOfAscending(digest: Bytes -> string, members: seq<Member>)
    requires Ascending(members)
    ensures RecordsAscending(RecordsOf(digest, members))
    ensures forall r :: r in RecordsOf(digest, members) <==>
              exists i :: 0 <= i < |members| && PathOf(members[i]) != []
                          && r == RecordOf(digest, PathOf(members[i]), NodeOf(members[i]))
  {
    hide PathOf, Text, Below;
    if members != [] {
      var first, rest := members[0], members[1..];
      assert members == [first] + rest;
      RecordsOfAscending(digest, rest);
      var records := RecordsOf(digest, rest);
      forall r | r in records ensures Below(Text(PathOf(first)), r.path) {
        var i :| 0 <= i < |rest| && PathOf(rest[i]) != [] && r == RecordOf(digest, PathOf(rest[i]), NodeOf(rest[i]));
        assert Comes(members[0], members[i + 1]);
      }
    }
  }

  /** The sorted records list exactly the entries. */
  lemma SortedRecords(digest: Bytes -> string, members: seq<Member>)
    requires AllAcceptable(members) && DistinctPaths(members)
    ensures RecordsAscending(RecordsOf(digest, SortByPath(members)))
    ensures forall r :: r in RecordsOf(digest, SortByPath(members)) <==> r in Entries(digest, Nodes(members))
  {
    hide PathOf, Text, Below, Acceptable;
    var sorted := SortByPath(members);
    TextsDistinct(members);
    SortSorts(members);
    RecordsOfAscending(digest, sorted);
    SameMembers(sorted, members);
    PermutedDistinct(members, sorted);
    NodesOfPermuted(sorted, members);
    NodesAre(sorted);
  }

  /** Records in strictly ascending order are determined by their set. */
  lemma {:induction false} AscendingUnique(a: seq<Record>, b: seq<Record>)
    requires RecordsAscending(a) && RecordsAscending(b) && forall r :: r in a <==> r in b
    ensures a == b
  {
    hide Below;
    BothEmpty(a, b);
    if a != [] {
      assert a[0] in b && b[0] in a;
      SameFirstRecord(a, b);
      TailRecords(a);
      TailRecords(b);
      AscendingUnique(a[1..], b[1..]);
      assert a == [a[0]] + a[1..] && b == [b[0]] + b[1..];
    }
  }

  lemma BothEmpty<T>(a: seq<T>, b: seq<T>)
    requires forall x :: x in a <==> x in b
    ensures a == [] <==> b == []
  {
    if a != [] { assert a[0] in b; }
    if b != [] { assert b[0] in a; }
  }

  lemma SameFirstRecord(a: seq<Record>, b: seq<Record>)
    requires RecordsAscending(a) && RecordsAscending(b) && a != [] && b != [] && a[0] in b && b[0] in a
    ensures a[0] == b[0]
  {
    hide Below;
    var i :| 0 <= i < |b| && b[i] == a[0];
    var j :| 0 <= j < |a| && a[j] == b[0];
    if i > 0 && j > 0 {
      BelowTransitive(a[0].path, b[0].path, a[0].path);
      BelowIsStrict(a[0].path);
    }
  }

  lemma TailRecords(a: seq<Record>)
    requires RecordsAscending(a) && a != []
    ensures RecordsAscending(a[1..]) && forall r :: r in a[1..] <==> r in a && r != a[0]
  {
    hide Below;
    BelowIsStrict(a[0].path);
    assert a == [a[0]] + a[1..];
    forall r | r in a[1..] ensures r != a[0] {
      var i :| 0 <= i < |a[1..]| && a[1..][i] == r;
      assert Below(a[0].path, a[i + 1].path);
    }
  }

  // ---------- the inventory ----------

  datatype Inventory = Inventory(entries: nat, files: nat, bytes: nat, rootDigest: string)

  function FilesIn(records: seq<Record>): nat {
    if records == [] then 0
    else FilesIn(records[..|records| - 1]) + if records[|records| - 1].FileRecord? then 1 else 0
  }

  function BytesIn(records: seq<Record>): nat {
    if records == [] then 0
    else BytesIn(records[..|records| - 1]) + match records[|records| - 1]
                                             case DirectoryRecord(_) => 0
                                             case FileRecord(_, size, _) => size
  }

  function Summary(hash: string -> string, records: seq<Record>): Inventory {
    Inventory(|records|, FilesIn(records), BytesIn(records), hash(EncodeAll(records)))
  }

  /** The records an archive is summarized by. */
  function Canonical(digest: Bytes -> string, members: seq<Member>): seq<Record> {
    RecordsOf(digest, SortByPath(members))
  }

  lemma {:induction false} RecordsSnoc(digest: Bytes -> string, members: seq<Member>, m: Member)
    ensures RecordsOf(digest, members + [m]) == RecordsOf(digest, members) + RecordsOf(digest, [m])
  {
    hide PathOf, RecordOf, NodeOf;
    if members == [] {
      assert members + [m] == [m];
    } else {
      var all, rest := members + [m], members[1..];
      assert all[0] == members[0] && all[1..] == rest + [m];
      RecordsSnoc(digest, rest, m);
      hide RecordsOf;
      RecordsCons(digest, all);
      RecordsCons(digest, members);
    }
  }

  lemma RecordsCons(digest: Bytes -> string, members: seq<Member>)
    requires members != []
    ensures RecordsOf(digest, members)
         == (if PathOf(members[0]) == [] then [] else [RecordOf(digest, PathOf(members[0]), NodeOf(members[0]))])
          + RecordsOf(digest, members[1..])
  {}

  lemma OneRecord(digest: Bytes -> string, m: Member)
    ensures RecordsOf(digest, [m])
            == if PathOf(m) == [] then [] else [RecordOf(digest, PathOf(m), NodeOf(m))]
  {
    hide PathOf, RecordOf;
    assert RecordsOf(digest, [m][1..]) == [];
  }

  lemma {:induction false} EncodeSnoc(records: seq<Record>, r: Record)
    ensures EncodeAll(records + [r]) == EncodeAll(records) + Encode(r)
  {
    hide Encode;
    if records == [] {
      assert [r][1..] == [] && EncodeAll([r]) == Encode(r) + "";
    } else {
      EncodeSnoc(records[1..], r);
      assert (records + [r])[1..] == records[1..] + [r];
    }
  }

  lemma CountsSnoc(records: seq<Record>, r: Record)
    ensures FilesIn(records + [r]) == FilesIn(records) + if r.FileRecord? then 1 else 0
    ensures BytesIn(records + [r]) == BytesIn(records) + match r case DirectoryRecord(_) => 0 case FileRecord(_, size, _) => size
  {
    assert (records + [r])[..|records|] == records;
  }

  lemma {:induction false} ConcatSnoc(texts: seq<string>, text: string)
    ensures Concat(texts + [text]) == Concat(texts) + text
  {
    if texts == [] {
      assert [text][1..] == [] && Concat([text]) == text + "";
    } else {
      ConcatSnoc(texts[1..], text);
      assert (texts + [text])[1..] == texts[1..] + [text];
    }
  }

  /** The running totals after the records so far. */
  ghost predicate Totals(records: seq<Record>, texts: seq<string>, entries: nat, files: nat, bytes: nat) {
    && entries == |records| && files == FilesIn(records) && bytes == BytesIn(records)
    && Concat(texts) == EncodeAll(records)
  }

  lemma TotalsSnoc(records: seq<Record>, texts: seq<string>, entries: nat, files: nat, bytes: nat, r: Record)
    requires Totals(records, texts, entries, files, bytes)
    ensures r.DirectoryRecord? ==> Totals(records + [r], texts + [Encode(r)], entries + 1, files, bytes)
    ensures r.FileRecord? ==> Totals(records + [r], texts + [Encode(r)], entries + 1, files + 1, bytes + r.size)
  {
    EncodeSnoc(records, r);
    CountsSnoc(records, r);
    ConcatSnoc(texts, Encode(r));
  }

  /** _inventory_nested_archive: refuses what the validator refuses, summarizes the rest. */
  method InventoryNestedArchive(members: seq<Member>, digest: Bytes -> string, hash: string -> string)
    returns (inventory: Option<Inventory>)
    ensures inventory == if WellFormed(members) then Some(Summary(hash, Canonical(digest, members))) else None
  {
    hide WellFormed, PathOf, Encode, EncodeAll, Concat, RecordsOf, SortByPath;
    var ok := ValidateNestedArchive(members);
    if !ok { return None; }
    var sorted := SortByPath(members);
    var texts: seq<string>, entries: nat, files: nat, bytes: nat := [], 0, 0, 0;
    ghost var records: seq<Record> := [];
    NothingYet(digest, sorted);
    hide Totals;
    for k := 0 to |sorted|
      invariant records == RecordsOf(digest, sorted[..k]) && Totals(records, texts, entries, files, bytes)
    {
      var m := sorted[k];
      RecordsSnoc(digest, sorted[..k], m);
      OneRecord(digest, m);
      assert sorted[..k + 1] == sorted[..k] + [m];
      var path := PathOf(m);
      if path == [] { continue; }
      var r := RecordOf(digest, path, NodeOf(m));
      TotalsSnoc(records, texts, entries, files, bytes, r);
      entries := entries + 1;
      if r.FileRecord? {
        files, bytes := files + 1, bytes + |m.content|;
      }
      texts := texts + [Encode(r)];
      records := records + [r];
    }
    assert sorted[..|sorted|] == sorted;
    FinalTotals(records, texts, entries, files, bytes);
    inventory := Some(Inventory(entries, files, bytes, hash(Concat(texts))));
  }

  lemma NothingYet(digest: Bytes -> string, members: seq<Member>)
    ensures RecordsOf(digest, members[..0]) == [] && Totals([], [], 0, 0, 0)
  {}

  lemma FinalTotals(records: seq<Record>, texts: seq<string>, entries: nat, files: nat, bytes: nat)
    requires Totals(records, texts, entries, files, bytes)
    ensures entries == |records| && files == FilesIn(records) && bytes == BytesIn(records)
    ensures Concat(texts) == EncodeAll(records)
  {}

  // ---------- what the inventory says ----------

  /** The mark is in no path. */
  ghost predicate Avoids(members: seq<Member>, mark: char) {
    forall i :: 0 <= i < |members| ==> mark !in Text(PathOf(members[i]))
  }

  /** The paths of both archives are free of NULs, or the paths of both are free of newlines. */
  ghost predicate Legible(a: seq<Member>, b: seq<Member>) {
    (Avoids(a, NUL) && Avoids(b, NUL)) || (Avoids(a, '\n') && Avoids(b, '\n'))
  }

  lemma CanonicalPlain(mark: char, digest: Bytes -> string, members: seq<Member>)
    requires WellFormed(members) && Avoids(members, mark) && Hexadecimal(digest)
    ensures AllPlain(mark, Canonical(digest, members))
  {
    hide PathOf, Text, Acceptable;
    SortedRecords(digest, members);
    NodesAre(members);
    var records := Canonical(digest, members);
    forall i | 0 <= i < |records| ensures Plain(mark, records[i]) {
      assert records[i] in records;
      var p :| p in Nodes(members) && p != [] && records[i] == RecordOf(digest, p, Nodes(members)[p]);
    }
  }

  lemma CanonicalDecodable(digest: Bytes -> string, a: seq<Member>, b: seq<Member>)
    requires WellFormed(a) && WellFormed(b) && Legible(a, b) && Hexadecimal(digest)
    requires EncodeAll(Canonical(digest, a)) == EncodeAll(Canonical(digest, b))
    ensures Canonical(digest, a) == Canonical(digest, b)
  {
    hide WellFormed, Avoids, Canonical, EncodeAll, AllPlain;
    if Avoids(a, NUL) && Avoids(b, NUL) {
      CanonicalPlain(NUL, digest, a);
      CanonicalPlain(NUL, digest, b);
      StreamIsUniquelyDecodable(Canonical(digest, a), Canonical(digest, b));
    } else {
      CanonicalPlain('\n', digest, a);
      CanonicalPlain('\n', digest, b);
      LinesAreUniquelyDecodable(Canonical(digest, a), Canonical(digest, b));
    }
  }

  /** Equal canonical texts mean equal sets of (kind, path, size, digest), for archives without NULs or without
      newlines in paths; equal sets mean equal texts, for all archives. */
  lemma TextDeterminesEntries(digest: Bytes -> string, a: seq<Member>, b: seq<Member>)
    requires WellFormed(a) && WellFormed(b)
    ensures Entries(digest, Nodes(a)) == Entries(digest, Nodes(b)) ==> Canonical(digest, a) == Canonical(digest, b)
    ensures Legible(a, b) && Hexadecimal(digest) ==>
              (EncodeAll(Canonical(digest, a)) == EncodeAll(Canonical(digest, b))
               <==> Entries(digest, Nodes(a)) == Entries(digest, Nodes(b)))
  {
    var r, q := Canonical(digest, a), Canonical(digest, b);
    SortedRecords(digest, a);
    SortedRecords(digest, b);
    hide EncodeAll, RecordsOf, SortByPath, Entries, Nodes, RecordsAscending, Legible;
    if Entries(digest, Nodes(a)) == Entries(digest, Nodes(b)) { AscendingUnique(r, q); }
    if Legible(a, b) && Hexadecimal(digest) && EncodeAll(r) == EncodeAll(q) {
      CanonicalDecodable(digest, a, b);
      SameSet(Entries(digest, Nodes(a)), Entries(digest, Nodes(b)), r);
    }
  }

  lemma SameSet<T>(a: set<T>, b: set<T>, listed: seq<T>)
    requires (forall x :: x in listed <==> x in a) && (forall x :: x in listed <==> x in b)
    ensures a == b
  {
    forall x ensures x in a <==> x in b {
      assert x in listed <==> x in a;
    }
  }

  /** The entries say everything about the tree: each path, whether it is a directory, and each file's content. */
  lemma EntriesDetermineNodes(digest: Bytes -> string, a: seq<Member>, b: seq<Member>)
    requires WellFormed(a) && WellFormed(b) && Injective(digest)
    ensures Entries(digest, Nodes(a)) == Entries(digest, Nodes(b)) <==> Nodes(a) == Nodes(b)
  {
    hide WellFormed, Nodes;
    if Entries(digest, Nodes(a)) == Entries(digest, Nodes(b)) {
      CleanNodes(a);
      CleanNodes(b);
      SameNodes(digest, Nodes(a), Nodes(b));
      SameNodes(digest, Nodes(b), Nodes(a));
    }
  }

  predicate CleanTree(nodes: map<Components, Node>) {
    [] in nodes && nodes[[]].Folder? && forall p :: p in nodes ==> AllClean(p)
  }

  lemma CleanNodes(members: seq<Member>)
    requires WellFormed(members)
    ensures CleanTree(Nodes(members))
  {
    hide PathOf, AllClean;
    NodesAre(members);
    forall p | p in Nodes(members) ensures AllClean(p) {
      var i :| 0 <= i < |members| && PathOf(members[i]) == p;
      CleanPath(members[i]);
    }
  }

  lemma SameNodes(digest: Bytes -> string, m: map<Components, Node>, n: map<Components, Node>)
    requires Injective(digest) && CleanTree(m) && CleanTree(n) && Entries(digest, m) <= Entries(digest, n)
    ensures forall p :: p in m ==> p in n && n[p] == m[p]
  {
    hide Text, AllClean;
    forall p | p in m ensures p in n && n[p] == m[p] {
      if p != [] {
        assert RecordOf(digest, p, m[p]) in Entries(digest, n);
        var q :| q in n && q != [] && RecordOf(digest, q, n[q]) == RecordOf(digest, p, m[p]);
        assert Text(p) == Text(q);
        TextInjective(p, q);
      }
    }
  }

  /** Two archives without NULs, or without newlines, in paths have the same inventory exactly when they denote the same tree. */
  lemma InventoryDeterminesTree(digest: Bytes -> string, hash: string -> string, a: seq<Member>, b: seq<Member>)
    requires WellFormed(a) && WellFormed(b) && Legible(a, b)
    requires Injective(digest) && Hexadecimal(digest) && Injective(hash)
    ensures Summary(hash, Canonical(digest, a)) == Summary(hash, Canonical(digest, b)) <==> Nodes(a) == Nodes(b)
  {
    hide WellFormed, Legible, EncodeAll, Nodes, Canonical, Entries;
    TextDeterminesEntries(digest, a, b);
    EntriesDetermineNodes(digest, a, b);
  }

  /** The order of the members does not show in the inventory, whatever the paths. */
  lemma InventoryIgnoresOrder(digest: Bytes -> string, hash: string -> string, a: seq<Member>, b: seq<Member>)
    requires WellFormed(a) && multiset(a) == multiset(b)
    ensures WellFormed(b) && Summary(hash, Canonical(digest, a)) == Summary(hash, Canonical(digest, b))
  {
    hide WellFormed, EncodeAll, Nodes, Canonical, Entries;
    OrderIsImmaterial(a, b);
    TextDeterminesEntries(digest, a, b);
  }

  // ---------- the same in plain terms ----------

  /** The regular files among the members, and the bytes they hold. */
  function Regulars(members: seq<Member>): nat {
    if members == [] then 0 else (if members[0].kind.Directory? then 0 else 1) + Regulars(members[1..])
  }

  function BytesHeld(members: seq<Member>): nat {
    if members == [] then 0 else (if members[0].kind.Directory? then 0 else |members[0].content|) + BytesHeld(members[1..])
  }

  lemma {:induction false} InsertTotals(m: Member, sorted: seq<Member>)
    ensures |Insert(m, sorted)| == |sorted| + 1
    ensures Regulars(Insert(m, sorted)) == Regulars([m] + sorted) && BytesHeld(Insert(m, sorted)) == BytesHeld([m] + sorted)
  {
    hide Comes;
    if sorted != [] && Comes(sorted[0], m) {
      InsertTotals(m, sorted[1..]);
      assert ([m] + sorted)[1..] == sorted && ([m] + sorted[1..])[1..] == sorted[1..];
      assert Insert(m, sorted)[1..] == Insert(m, sorted[1..]);
    }
  }

  lemma {:induction false} SortTotals(members: seq<Member>)
    ensures var sorted := SortByPath(members);
            |sorted| == |members| && Regulars(sorted) == Regulars(members) && BytesHeld(sorted) == BytesHeld(members)
  {
    hide Insert;
    if members != [] {
      SortTotals(members[1..]);
      var rest := SortByPath(members[1..]);
      InsertTotals(members[0], rest);
      assert ([members[0]] + rest)[1..] == rest;
    }
  }

  lemma {:induction false} CountsOfCons(r: Record, records: seq<Record>)
    ensures FilesIn([r] + records) == FilesIn(records) + if r.FileRecord? then 1 else 0
    ensures BytesIn([r] + records) == BytesIn(records) + if r.FileRecord? then r.size else 0
  {
    if records == [] {
      CountsSnoc([], r);
      assert [] + [r] == [r] + records;
    } else {
      var n := |records| - 1;
      CountsOfCons(r, records[..n]);
      CountsSnoc(records[..n], records[n]);
      CountsSnoc([r] + records[..n], records[n]);
      assert records == records[..n] + [records[n]] && [r] + records == [r] + records[..n] + [records[n]];
      hide FilesIn, BytesIn;
    }
  }

  lemma {:induction false} RecordsTotals(digest: Bytes -> string, members: seq<Member>)
    requires RootIsDirectory(members)
    ensures var records := RecordsOf(digest, members);
            FilesIn(records) == Regulars(members) && BytesIn(records) == BytesHeld(members)
  {
    hide PathOf, Text;
    if members != [] {
      var first, rest := members[0], members[1..];
      assert forall i :: 0 <= i < |rest| ==> rest[i] == members[i + 1];
      RecordsTotals(digest, rest);
      if PathOf(first) == [] {
        assert [] + RecordsOf(digest, rest) == RecordsOf(digest, rest);
      } else {
        CountsOfCons(RecordOf(digest, PathOf(first), NodeOf(first)), RecordsOf(digest, rest));
      }
    }
  }

  lemma RootStaysDirectory(a: seq<Member>, b: seq<Member>)
    requires RootIsDirectory(a) && multiset(a) == multiset(b)
    ensures RootIsDirectory(b)
  {
    hide PathOf;
    SameMembers(a, b);
    forall i | 0 <= i < |b| && PathOf(b[i]) == [] ensures b[i].kind.Directory? {
      assert b[i] in a;
    }
  }

  /** The inventory counts the regular files of the archive, in whatever order, and the bytes they hold. */
  lemma InventoryCounts(digest: Bytes -> string, hash: string -> string, members: seq<Member>)
    requires WellFormed(members)
    ensures var inventory := Summary(hash, Canonical(digest, members));
            inventory.files == Regulars(members) && inventory.bytes == BytesHeld(members)
  {
    hide Acceptable, PathOf, Text, RecordsOf, SortByPath, FilesIn, BytesIn, EncodeAll;
    SortTotals(members);
    TextsDistinct(members);
    SortSorts(members);
    RootStaysDirectory(members, SortByPath(members));
    RecordsTotals(digest, SortByPath(members));
  }

  /** It lists each member but the root once: a directory by its path, a file by path, length and digest. */
  lemma InventoryLists(digest: Bytes -> string, members: seq<Member>, r: Record)
    requires WellFormed(members)
    ensures r in Canonical(digest, members) <==>
              exists i :: 0 <= i < |members| && PartsOf(members[i].name) != []
                && r == if members[i].kind == Directory then DirectoryRecord(Join(PartsOf(members[i].name)))
                        else FileRecord(Join(PartsOf(members[i].name)), |members[i].content|, digest(members[i].content))
  {
    hide Acceptable, PartsOf, RecordsOf, SortByPath, Join;
    TextsDistinct(members);
    SortSorts(members);
    var sorted := SortByPath(members);
    SameMembers(sorted, members);
    RecordsOfAscending(digest, sorted);
    hide Ascending, DistinctTexts, WellFormed, RecordsAscending;
    if r in Canonical(digest, members) {
      var i :| 0 <= i < |sorted| && PathOf(sorted[i]) != [] && r == RecordOf(digest, PathOf(sorted[i]), NodeOf(sorted[i]));
      assert sorted[i] in members;
      var j :| 0 <= j < |members| && members[j] == sorted[i];
    }
    forall i | 0 <= i < |members| && PathOf(members[i]) != [] && r == RecordOf(digest, PathOf(members[i]), NodeOf(members[i]))
      ensures r in Canonical(digest, members)
    {
      assert members[i] in sorted;
      var j :| 0 <= j < |sorted| && sorted[j] == members[i];
    }
  }

  /** A directory and a twelve-byte file, as they are hashed. */
  lemma KnownText()
    ensures EncodeAll([DirectoryRecord("a"), FileRecord("a/b", 12, "0f")]) == "D\0a\nF\0a/b\012\00f\n"
  {
    assert Decimal(12) == "12" by {
      assert Decimal(1) == "1";
    }
    EncodeTwo(DirectoryRecord("a"), FileRecord("a/b", 12, "0f"));
    hide EncodeAll;
  }
}
