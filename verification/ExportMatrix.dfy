/** The integrity check of a completed export: which files it may list, and in which order.

    A file name is its path components; identifiers are their text. */
module ExportMatrix {
  import opened Wrappers

  datatype Kind = Json | Markdown | Html | Media
  datatype Format = JsonFormat | MarkdownFormat | HtmlFormat | ZipFormat

  datatype Variant = Variant(platform: string, revision: string)

  datatype FileIdentity = FileIdentity(path: seq<string>, kind: Kind, variant: Variant, mediaAsset: Option<string>)

  /** Its schema lets exactly the media files name a media asset. */
  type File = f: FileIdentity | f.kind.Media? <==> f.mediaAsset.Some?
    witness FileIdentity([], Json, Variant("", ""), None)

  datatype Payload = Payload(variants: seq<Variant>, formats: set<Format>, includeMedia: bool)

  datatype Artifact = Artifact(hasArchive: bool, files: seq<File>)

  datatype Fault = FileMatrixMismatch | ArchiveMismatch | UnrequestedMedia | FileUnbound | MediaIdentityInvalid
                 | OrderNondeterministic

  // ---------- the program ----------

  function ContentFile(variant: Variant, kind: Kind, extension: string): File
    requires !kind.Media?
  {
    FileIdentity([variant.platform, variant.revision, "content." + extension], kind, variant, None)
  }

  function ExpectedOf(variant: Variant, formats: set<Format>): seq<File> {
    (if JsonFormat in formats then [ContentFile(variant, Json, "json")] else [])
    + (if MarkdownFormat in formats then [ContentFile(variant, Markdown, "md")] else [])
    + (if HtmlFormat in formats then [ContentFile(variant, Html, "html")] else [])
  }

  function ExpectedNonmedia(variants: seq<Variant>, formats: set<Format>): seq<File> {
    if variants == [] then [] else ExpectedOf(variants[0], formats) + ExpectedNonmedia(variants[1..], formats)
  }

  function KindOrder(kind: Kind): nat {
    match kind case Json => 0 case Markdown => 1 case Html => 2 case Media => 3
  }

  /** The position a dictionary keeps for a variant: the last one. */
  function IndexOf(variants: seq<Variant>, variant: Variant): (i: nat)
    requires variant in variants
    ensures i < |variants| && variants[i] == variant
  {
    if variants[|variants| - 1] == variant then |variants| - 1 else IndexOf(variants[..|variants| - 1], variant)
  }

  /** Prefix test of a file's last component. */
  predicate MediaIdentityValid(file: File) {
    && file.mediaAsset.Some?
    && file.path != []
    && file.path[..|file.path| - 1] == [file.variant.platform, file.variant.revision]
    && "media-" + file.mediaAsset.value + "." <= file.path[|file.path| - 1]
  }

  /** The pair (variant order, kind order), kept as one number; both order alike because kinds stay below 4. */
  function Rank(variants: seq<Variant>, file: File): nat
    requires file.variant in variants
  {
    4 * IndexOf(variants, file.variant) + KindOrder(file.kind)
  }

  predicate Ascending(order: seq<nat>) { forall i, j :: 0 <= i < j < |order| ==> order[i] <= order[j] }

  function FileFault(variants: seq<Variant>, file: File): Option<Fault> {
    if file.variant !in variants then Some(FileUnbound)
    else if file.kind.Media? && !MediaIdentityValid(file) then Some(MediaIdentityInvalid)
    else None
  }

  function FirstFault(variants: seq<Variant>, files: seq<File>): Option<Fault> {
    if files == [] then None
    else if FileFault(variants, files[0]).Some? then FileFault(variants, files[0])
    else FirstFault(variants, files[1..])
  }

  predicate AllBound(variants: seq<Variant>, files: seq<File>) {
    forall i :: 0 <= i < |files| ==> files[i].variant in variants
  }

  function Ranks(variants: seq<Variant>, files: seq<File>): (order: seq<nat>)
    requires AllBound(variants, files)
    ensures |order| == |files|
  {
    seq(|files|, i requires 0 <= i < |files| => Rank(variants, files[i]))
  }

  method ValidateManifestFileOrder(files: seq<File>, variants: seq<Variant>) returns (fault: Option<Fault>)
    ensures FirstFault(variants, files).Some? ==> fault == FirstFault(variants, files)
    ensures FirstFault(variants, files).None? ==>
              && AllBound(variants, files)
              && fault == if Ascending(Ranks(variants, files)) then None else Some(OrderNondeterministic)
  {
    var order: seq<nat> := [];
    for i := 0 to |files|
      invariant AllBound(variants, files[..i]) && order == Ranks(variants, files[..i])
      invariant FirstFault(variants, files) == FirstFault(variants, files[i..])
    {
      var item := files[i];
      if item.variant !in variants { return Some(FileUnbound); }
      if item.kind.Media? && !MediaIdentityValid(item) { return Some(MediaIdentityInvalid); }
      order := order + [Rank(variants, item)];
      assert files[..i + 1] == files[..i] + [item];
    }
    assert files[..|files|] == files;
    if !Ascending(order) { return Some(OrderNondeterministic); }
    return None;
  }

  /** A list comprehension with a condition. */
  function Where<T>(s: seq<T>, keep: T -> bool): seq<T> {
    if s == [] then [] else if keep(s[0]) then [s[0]] + Where(s[1..], keep) else Where(s[1..], keep)
  }

  const IS_CONTENT: File -> bool := (f: File) => !f.kind.Media?

  function Nonmedia(files: seq<File>): seq<File> { Where(files, IS_CONTENT) }

  /** The checks of _validate_public_file_matrix, in order. */
  function Verdict(artifact: Artifact, payload: Payload): Option<Fault> {
    if Nonmedia(artifact.files) != ExpectedNonmedia(payload.variants, payload.formats) then Some(FileMatrixMismatch)
    else if artifact.hasArchive != (ZipFormat in payload.formats) then Some(ArchiveMismatch)
    else if !payload.includeMedia && (exists f :: f in artifact.files && f.kind.Media?) then Some(UnrequestedMedia)
    else if FirstFault(payload.variants, artifact.files).Some? then FirstFault(payload.variants, artifact.files)
    else
      NoFault(payload.variants, artifact.files);
      if Ascending(Ranks(payload.variants, artifact.files)) then None else Some(OrderNondeterministic)
  }

  method ValidatePublicFileMatrix(artifact: Artifact, payload: Payload) returns (fault: Option<Fault>)
    ensures fault == Verdict(artifact, payload)
  {
    var actual := Nonmedia(artifact.files);
    if actual != ExpectedNonmedia(payload.variants, payload.formats) { return Some(FileMatrixMismatch); }
    if artifact.hasArchive != (ZipFormat in payload.formats) { return Some(ArchiveMismatch); }
    if !payload.includeMedia && (exists f :: f in artifact.files && f.kind.Media?) { return Some(UnrequestedMedia); }
    fault := ValidateManifestFileOrder(artifact.files, payload.variants);
  }

  lemma {:induction false} NoFault(variants: seq<Variant>, files: seq<File>)
    ensures FirstFault(variants, files).None? <==> forall i :: 0 <= i < |files| ==> FileFault(variants, files[i]).None?
  {
    if files != [] {
      NoFault(variants, files[1..]);
      assert forall i :: 0 < i < |files| ==> files[i] == files[1..][i - 1];
    }
  }

  // ---------- the canonical layout ----------

  /** Variant by variant: the expected files, then that variant's media. */
  function Layout(variants: seq<Variant>, formats: set<Format>, media: seq<seq<File>>): seq<File>
    requires |media| == |variants|
  {
    if variants == [] then []
    else ExpectedOf(variants[0], formats) + media[0] + Layout(variants[1..], formats, media[1..])
  }

  predicate MediaOf(variant: Variant, files: seq<File>) {
    forall i :: 0 <= i < |files| ==> files[i].kind.Media? && files[i].variant == variant && MediaIdentityValid(files[i])
  }

  predicate MediaFits(variants: seq<Variant>, media: seq<seq<File>>) {
    |media| == |variants| && forall v :: 0 <= v < |variants| ==> MediaOf(variants[v], media[v])
  }

  predicate Distinct(variants: seq<Variant>) { forall i, j :: 0 <= i < j < |variants| ==> variants[i] != variants[j] }

  // ---------- comprehensions ----------

  lemma {:induction false} WhereConcat<T>(a: seq<T>, b: seq<T>, keep: T -> bool)
    ensures Where(a + b, keep) == Where(a, keep) + Where(b, keep)
  {
    if a == [] {
      assert a + b == b;
    } else {
      WhereConcat(a[1..], b, keep);
      assert (a + b)[1..] == a[1..] + b;
    }
  }

  lemma {:induction false} WhereNone<T>(s: seq<T>, keep: T -> bool)
    requires forall i :: 0 <= i < |s| ==> !keep(s[i])
    ensures Where(s, keep) == []
  {
    if s != [] { WhereNone(s[1..], keep); }
  }

  lemma {:induction false} WhereAll<T>(s: seq<T>, keep: T -> bool)
    requires forall i :: 0 <= i < |s| ==> keep(s[i])
    ensures Where(s, keep) == s
  {
    if s != [] { WhereAll(s[1..], keep); }
  }

  lemma {:induction false} WhereTwice<T(!new)>(s: seq<T>, keep: T -> bool, narrow: T -> bool)
    requires forall x :: narrow(x) ==> keep(x)
    ensures Where(Where(s, keep), narrow) == Where(s, narrow)
  {
    if s != [] { WhereTwice(s[1..], keep, narrow); }
  }

  lemma {:induction false} WhereMember<T>(s: seq<T>, keep: T -> bool, x: T)
    ensures x in Where(s, keep) <==> x in s && keep(x)
  {
    if s != [] {
      WhereMember(s[1..], keep, x);
      assert x in s <==> x == s[0] || x in s[1..];
    }
  }

  // ---------- a sorted list is determined by its parts of equal rank ----------

  function Is(variant: Variant, kind: Kind): File -> bool { (f: File) => f.variant == variant && f.kind == kind }

  /** The files of one variant and kind. */
  function Pick(files: seq<File>, variant: Variant, kind: Kind): seq<File> { Where(files, Is(variant, kind)) }

  predicate SortedFiles(variants: seq<Variant>, files: seq<File>) {
    AllBound(variants, files)
    && forall i, j :: 0 <= i < j < |files| ==> Rank(variants, files[i]) <= Rank(variants, files[j])
  }

  lemma RankInjective(variants: seq<Variant>, f: File, g: File)
    requires f.variant in variants && g.variant in variants && Rank(variants, f) == Rank(variants, g)
    ensures f.variant == g.variant && f.kind == g.kind
  {}

  lemma {:induction false} SortedDetermined(variants: seq<Variant>, s: seq<File>, t: seq<File>)
    requires SortedFiles(variants, s) && SortedFiles(variants, t)
    requires forall variant, kind :: Pick(s, variant, kind) == Pick(t, variant, kind)
    ensures s == t
  {
    hide Rank, Pick;
    if s == [] {
      if t != [] {
        assert Pick(s, t[0].variant, t[0].kind) == Pick(t, t[0].variant, t[0].kind);
        PickFirst(t);
        PickMember(s, t[0].variant, t[0].kind, t[0]);
      }
    } else {
      SameFirst(variants, s, t);
      forall variant, kind
        ensures Pick(s[1..], variant, kind) == Pick(t[1..], variant, kind)
      {
        assert Pick(s, variant, kind) == Pick(t, variant, kind);
        PickTail(s, variant, kind);
        PickTail(t, variant, kind);
      }
      SortedDetermined(variants, s[1..], t[1..]);
    }
  }

  lemma PickFirst(s: seq<File>)
    requires s != []
    ensures var picked := Pick(s, s[0].variant, s[0].kind); picked != [] && picked[0] == s[0]
  {}

  lemma PickTail(s: seq<File>, variant: Variant, kind: Kind)
    requires s != []
    ensures var picked := Pick(s, variant, kind);
            if s[0].variant == variant && s[0].kind == kind
              then picked != [] && Pick(s[1..], variant, kind) == picked[1..]
              else Pick(s[1..], variant, kind) == picked
  {}

  lemma PickMember(files: seq<File>, variant: Variant, kind: Kind, f: File)
    ensures f in Pick(files, variant, kind) <==> f in files && f.variant == variant && f.kind == kind
  {
    WhereMember(files, Is(variant, kind), f);
  }

  lemma SameFirst(variants: seq<Variant>, s: seq<File>, t: seq<File>)
    requires SortedFiles(variants, s) && SortedFiles(variants, t) && s != []
    requires forall variant, kind :: Pick(s, variant, kind) == Pick(t, variant, kind)
    ensures t != [] && s[0] == t[0]
  {
    hide Rank, Pick;
    var f := s[0];
    assert Pick(s, f.variant, f.kind) == Pick(t, f.variant, f.kind);
    PickFirst(s);
    PickMember(t, f.variant, f.kind, f);
    var g := t[0];
    assert Pick(s, g.variant, g.kind) == Pick(t, g.variant, g.kind);
    PickFirst(t);
    PickMember(s, g.variant, g.kind, g);
    var i :| 0 <= i < |s| && s[i] == g;
    var j :| 0 <= j < |t| && t[j] == f;
    RankInjective(variants, f, g);
  }

  // ---------- the layout's own parts ----------

  lemma {:induction false} LayoutNonmedia(variants: seq<Variant>, formats: set<Format>, media: seq<seq<File>>)
    requires MediaFits(variants, media)
    ensures Nonmedia(Layout(variants, formats, media)) == ExpectedNonmedia(variants, formats)
  {
    hide ExpectedOf, Where;
    if variants == [] {
      WhereNone<File>([], IS_CONTENT);
    } else {
      var first, rest := ExpectedOf(variants[0], formats), Layout(variants[1..], formats, media[1..]);
      LayoutNonmedia(variants[1..], formats, media[1..]);
      WhereConcat(first + media[0], rest, IS_CONTENT);
      WhereConcat(first, media[0], IS_CONTENT);
      ExpectedAreContent(variants[0], formats);
      WhereAll(first, IS_CONTENT);
      WhereNone(media[0], IS_CONTENT);
      assert first + [] == first;
    }
  }

  lemma ExpectedAreContent(variant: Variant, formats: set<Format>)
    ensures forall i :: 0 <= i < |ExpectedOf(variant, formats)| ==>
              !ExpectedOf(variant, formats)[i].kind.Media? && ExpectedOf(variant, formats)[i].variant == variant
    ensures forall i, j :: 0 <= i < j < |ExpectedOf(variant, formats)| ==>
              KindOrder(ExpectedOf(variant, formats)[i].kind) < KindOrder(ExpectedOf(variant, formats)[j].kind)
  {}

  /** Every file of the layout belongs to one of its variants; media files keep a valid identity. */
  lemma {:induction false} LayoutMembers(variants: seq<Variant>, formats: set<Format>, media: seq<seq<File>>, f: File)
    requires MediaFits(variants, media) && f in Layout(variants, formats, media)
    ensures f.variant in variants && (f.kind.Media? ==> MediaIdentityValid(f) && exists v :: 0 <= v < |media| && f in media[v])
  {
    var first, rest := ExpectedOf(variants[0], formats), Layout(variants[1..], formats, media[1..]);
    if f in rest {
      LayoutMembers(variants[1..], formats, media[1..], f);
      if f.kind.Media? {
        var v :| 0 <= v < |media[1..]| && f in media[1..][v];
        assert f in media[v + 1];
      }
    } else {
      assert f in first || f in media[0];
    }
  }

  lemma {:induction false} LayoutMedia(variants: seq<Variant>, formats: set<Format>, media: seq<seq<File>>, v: nat)
    requires MediaFits(variants, media) && Distinct(variants) && v < |variants|
    ensures Pick(Layout(variants, formats, media), variants[v], Media) == media[v]
  {
    hide ExpectedOf, Where;
    var first, rest := ExpectedOf(variants[0], formats), Layout(variants[1..], formats, media[1..]);
    var keep := Is(variants[v], Media);
    WhereConcat(first + media[0], rest, keep);
    WhereConcat(first, media[0], keep);
    ExpectedAreContent(variants[0], formats);
    WhereNone(first, keep);
    if v == 0 {
      WhereAll(media[0], keep);
      forall i | 0 <= i < |rest|
        ensures rest[i].variant != variants[0]
      {
        LayoutMembers(variants[1..], formats, media[1..], rest[i]);
      }
      WhereNone(rest, keep);
    } else {
      WhereNone(media[0], keep);
      LayoutMedia(variants[1..], formats, media[1..], v - 1);
    }
  }

  /** The block of the k-th variant: content files in kind order, then media. */
  lemma BlockSorted(all: seq<Variant>, k: nat, formats: set<Format>, media: seq<File>)
    requires Distinct(all) && k < |all| && MediaOf(all[k], media)
    ensures var block := ExpectedOf(all[k], formats) + media;
            SortedFiles(all, block) && forall i :: 0 <= i < |block| ==> 4 * k <= Rank(all, block[i]) < 4 * (k + 1)
  {
    hide ExpectedOf;
    IndexIsPosition(all, k);
    ExpectedAreContent(all[k], formats);
  }

  lemma SortedConcat(all: seq<Variant>, a: seq<File>, b: seq<File>, bound: nat)
    requires SortedFiles(all, a) && SortedFiles(all, b)
    requires forall i :: 0 <= i < |a| ==> Rank(all, a[i]) < bound
    requires forall i :: 0 <= i < |b| ==> Rank(all, b[i]) >= bound
    ensures SortedFiles(all, a + b)
  {}

  lemma {:induction false} LayoutSorted(all: seq<Variant>, k: nat, formats: set<Format>, media: seq<seq<File>>)
    requires Distinct(all) && k <= |all| && MediaFits(all[k..], media)
    ensures var layout := Layout(all[k..], formats, media);
            SortedFiles(all, layout) && forall i :: 0 <= i < |layout| ==> Rank(all, layout[i]) >= 4 * k
    decreases |all| - k
  {
    hide ExpectedOf, Rank;
    if k < |all| {
      assert all[k..][1..] == all[k + 1..];
      LayoutSorted(all, k + 1, formats, media[1..]);
      BlockSorted(all, k, formats, media[0]);
      SortedConcat(all, ExpectedOf(all[k], formats) + media[0], Layout(all[k + 1..], formats, media[1..]), 4 * (k + 1));
    }
  }

  lemma IndexIsPosition(all: seq<Variant>, k: nat)
    requires Distinct(all) && k < |all|
    ensures IndexOf(all, all[k]) == k
  {}

  // ---------- the theorem ----------

  function MediaByVariant(variants: seq<Variant>, files: seq<File>): (media: seq<seq<File>>)
    ensures |media| == |variants|
  {
    seq(|variants|, v requires 0 <= v < |variants| => Pick(files, variants[v], Media))
  }

  ghost predicate Canonical(artifact: Artifact, payload: Payload, media: seq<seq<File>>) {
    && MediaFits(payload.variants, media)
    && (!payload.includeMedia ==> forall v :: 0 <= v < |media| ==> media[v] == [])
    && artifact.hasArchive == (ZipFormat in payload.formats)
    && artifact.files == Layout(payload.variants, payload.formats, media)
  }

  /** The checks accept exactly the canonical layouts. */
  lemma AcceptsExactlyCanonical(artifact: Artifact, payload: Payload)
    requires Distinct(payload.variants)
    ensures Verdict(artifact, payload).None? <==> exists media :: Canonical(artifact, payload, media)
  {
    if Verdict(artifact, payload).None? {
      AcceptedIsCanonical(artifact, payload);
    }
    if media :| Canonical(artifact, payload, media) {
      CanonicalIsAccepted(artifact, payload, media);
    }
  }

  lemma SortedRanks(variants: seq<Variant>, files: seq<File>)
    requires AllBound(variants, files)
    ensures Ascending(Ranks(variants, files)) <==> SortedFiles(variants, files)
  {
    hide Rank;
    var order := Ranks(variants, files);
    assert forall i :: 0 <= i < |files| ==> order[i] == Rank(variants, files[i]);
  }

  lemma AcceptedIsCanonical(artifact: Artifact, payload: Payload)
    requires Distinct(payload.variants) && Verdict(artifact, payload).None?
    ensures Canonical(artifact, payload, MediaByVariant(payload.variants, artifact.files))
  {
    hide Rank, Layout, Where, Ranks;
    var variants, files := payload.variants, artifact.files;
    var media := MediaByVariant(variants, files);
    NoFault(variants, files);
    assert AllBound(variants, files) by {
      forall i | 0 <= i < |files| ensures files[i].variant in variants { assert FileFault(variants, files[i]).None?; }
    }
    SortedRanks(variants, files);
    forall v | 0 <= v < |variants|
      ensures MediaOf(variants[v], media[v])
      ensures !payload.includeMedia ==> media[v] == []
    {
      forall f | f in media[v]
        ensures f in files && f.variant == variants[v] && f.kind.Media? && MediaIdentityValid(f)
      {
        PickMember(files, variants[v], Media, f);
        var j :| 0 <= j < |files| && files[j] == f;
        assert FileFault(variants, files[j]).None?;
      }
      assert forall i :: 0 <= i < |media[v]| ==> media[v][i] in media[v];
      if !payload.includeMedia {
        assert forall i :: 0 <= i < |files| ==> files[i] in files;
        WhereNone<File>(files, Is(variants[v], Media));
        assert Pick(files, variants[v], Media) == [];
      }
    }
    var layout := Layout(variants, payload.formats, media);
    assert variants[0..] == variants;
    LayoutSorted(variants, 0, payload.formats, media);
    LayoutNonmedia(variants, payload.formats, media);
    forall variant, kind
      ensures Pick(files, variant, kind) == Pick(layout, variant, kind)
    {
      SamePick(artifact, payload, media, layout, variant, kind);
    }
    SortedDetermined(variants, files, layout);
  }

  lemma SamePick(artifact: Artifact, payload: Payload, media: seq<seq<File>>, layout: seq<File>, variant: Variant, kind: Kind)
    requires Distinct(payload.variants) && AllBound(payload.variants, artifact.files)
    requires MediaFits(payload.variants, media) && media == MediaByVariant(payload.variants, artifact.files)
    requires layout == Layout(payload.variants, payload.formats, media)
    requires Nonmedia(layout) == Nonmedia(artifact.files)
    ensures Pick(artifact.files, variant, kind) == Pick(layout, variant, kind)
  {
    hide Layout, Where;
    if !kind.Media? {
      WhereTwice(artifact.files, IS_CONTENT, Is(variant, kind));
      WhereTwice(layout, IS_CONTENT, Is(variant, kind));
    } else if variant in payload.variants {
      var v :| 0 <= v < |payload.variants| && payload.variants[v] == variant;
      LayoutMedia(payload.variants, payload.formats, media, v);
    } else {
      WhereNone(artifact.files, Is(variant, kind));
      forall i | 0 <= i < |layout|
        ensures layout[i].variant != variant
      {
        LayoutMembers(payload.variants, payload.formats, media, layout[i]);
      }
      WhereNone(layout, Is(variant, kind));
    }
  }

  lemma CanonicalIsAccepted(artifact: Artifact, payload: Payload, media: seq<seq<File>>)
    requires Distinct(payload.variants) && Canonical(artifact, payload, media)
    ensures Verdict(artifact, payload).None?
  {
    hide Rank, Layout, Ranks;
    var variants, files := payload.variants, artifact.files;
    LayoutNonmedia(variants, payload.formats, media);
    forall i | 0 <= i < |files|
      ensures FileFault(variants, files[i]).None?
      ensures !payload.includeMedia ==> !files[i].kind.Media?
    {
      assert files[i] in Layout(variants, payload.formats, media);
      LayoutMembers(variants, payload.formats, media, files[i]);
    }
    NoFault(variants, files);
    assert variants[0..] == variants;
    LayoutSorted(variants, 0, payload.formats, media);
    SortedRanks(variants, files);
  }

  // ---------- the same in plain terms ----------

  lemma ExpectedPlainly(variant: Variant, formats: set<Format>, f: File)
    ensures f in ExpectedOf(variant, formats) <==>
            && f.variant == variant && f.mediaAsset == None
            && ((JsonFormat in formats && f.kind == Json && f.path == [variant.platform, variant.revision, "content.json"])
                || (MarkdownFormat in formats && f.kind == Markdown && f.path == [variant.platform, variant.revision, "content.md"])
                || (HtmlFormat in formats && f.kind == Html && f.path == [variant.platform, variant.revision, "content.html"]))
  {
    assert "content." + "json" == "content.json" && "content." + "md" == "content.md" && "content." + "html" == "content.html";
  }

  lemma {:induction false} ExpectedMember(variants: seq<Variant>, formats: set<Format>, f: File)
    ensures f in ExpectedNonmedia(variants, formats) <==> exists v :: v in variants && f in ExpectedOf(v, formats)
  {
    hide ExpectedOf;
    if variants != [] {
      ExpectedMember(variants[1..], formats, f);
      assert variants == [variants[0]] + variants[1..];
    }
  }

  /** An accepted export lists, for every variant and every requested format, the content file of that name, and no
      other content file. */
  lemma ContentPlainly(artifact: Artifact, payload: Payload, f: File)
    requires Verdict(artifact, payload).None? && !f.kind.Media?
    ensures f in artifact.files <==>
            && f.variant in payload.variants
            && ((JsonFormat in payload.formats && f.kind == Json
                 && f.path == [f.variant.platform, f.variant.revision, "content.json"])
                || (MarkdownFormat in payload.formats && f.kind == Markdown
                    && f.path == [f.variant.platform, f.variant.revision, "content.md"])
                || (HtmlFormat in payload.formats && f.kind == Html
                    && f.path == [f.variant.platform, f.variant.revision, "content.html"]))
  {
    hide ExpectedOf;
    WhereMember(artifact.files, IS_CONTENT, f);
    ExpectedMember(payload.variants, payload.formats, f);
    ExpectedPlainly(f.variant, payload.formats, f);
    hide ExpectedNonmedia;
    forall v | v in payload.variants && f in ExpectedOf(v, payload.formats) ensures f.variant == v {
      ExpectedPlainly(v, payload.formats, f);
    }
  }

  /** Its media files were asked for, and lie beside the content of their variant under their asset's name; there is an
      archive exactly when one was asked for. */
  lemma MediaPlainly(artifact: Artifact, payload: Payload, f: File)
    requires Verdict(artifact, payload).None?
    ensures f in artifact.files && f.kind.Media? ==>
              && payload.includeMedia && f.variant in payload.variants && f.mediaAsset.Some? && |f.path| == 3
              && f.path[0] == f.variant.platform && f.path[1] == f.variant.revision
              && "media-" + f.mediaAsset.value + "." <= f.path[2]
    ensures artifact.hasArchive <==> ZipFormat in payload.formats
  {
    NoFault(payload.variants, artifact.files);
    if f in artifact.files && f.kind.Media? {
      var i :| 0 <= i < |artifact.files| && artifact.files[i] == f;
      assert FileFault(payload.variants, artifact.files[i]).None?;
      var n := |f.path| - 1;
      assert f.path[..n] == [f.variant.platform, f.variant.revision];
      assert n == 2 && f.path[0] == f.path[..n][0] && f.path[1] == f.path[..n][1];
    }
  }

  /** Files come variant by variant, and within a variant as json, markdown, html, media. */
  lemma OrderPlainly(artifact: Artifact, payload: Payload, i: nat, j: nat, a: nat, b: nat)
    requires Distinct(payload.variants) && Verdict(artifact, payload).None? && i < j < |artifact.files|
    requires a < |payload.variants| && artifact.files[i].variant == payload.variants[a]
    requires b < |payload.variants| && artifact.files[j].variant == payload.variants[b]
    ensures a <= b
    ensures a == b ==>
              match artifact.files[j].kind
              case Json => artifact.files[i].kind == Json
              case Markdown => artifact.files[i].kind in {Json, Markdown}
              case Html => artifact.files[i].kind in {Json, Markdown, Html}
              case Media => true
  {
    hide Rank, Ranks;
    var variants, files := payload.variants, artifact.files;
    NoFault(variants, files);
    assert AllBound(variants, files) by {
      forall k | 0 <= k < |files| ensures files[k].variant in variants { assert FileFault(variants, files[k]).None?; }
    }
    SortedRanks(variants, files);
    assert Rank(variants, files[i]) <= Rank(variants, files[j]);
    RanksCompared(variants, files[i], files[j], a, b);
  }

  lemma RanksCompared(variants: seq<Variant>, f: File, g: File, a: nat, b: nat)
    requires Distinct(variants) && a < |variants| && b < |variants| && f.variant == variants[a] && g.variant == variants[b]
    requires Rank(variants, f) <= Rank(variants, g)
    ensures a <= b && (a == b ==> KindOrder(f.kind) <= KindOrder(g.kind))
  {
    IndexIsPosition(variants, a);
    IndexIsPosition(variants, b);
  }
}
