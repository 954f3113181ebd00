/** The opaque cursors of the article and story listings.

    Text encodings that the program borrows are a codec: functions with the laws the program relies on. */
module Cursors {
  import opened Wrappers
  import opened Articles
  import opened Base64Url

  datatype Json = Integer(n: int) | Float(x: real) | Boolean(b: bool) | Text(s: string) | Structure

  datatype Document = Object(fields: map<string, Json>) | NotAnObject

  /** json.dumps/loads, datetime.isoformat/fromisoformat, str(UUID)/UUID(str), and UTF-8. */
  datatype Codec = Codec(
    dumps: map<string, Json> -> seq<Byte>,
    loads: seq<Byte> -> Option<Document>,
    isoFormat: int -> string,
    fromIsoFormat: string -> Option<int>,
    uuidText: nat -> string,
    uuid: string -> Option<nat>,
    utf8: string -> seq<Byte>,
    fromUtf8: seq<Byte> -> Option<string>)

  /** What the encoder writes: integers and texts. */
  predicate Plain(fields: map<string, Json>) { forall k :: k in fields ==> fields[k].Integer? || fields[k].Text? }

  ghost predicate MomentsAndIdsReadBack(codec: Codec) {
    && (forall t {:trigger codec.isoFormat(t)} :: codec.fromIsoFormat(codec.isoFormat(t)) == Some(t))
    && (forall id: nat {:trigger codec.uuidText(id)} :: codec.uuid(codec.uuidText(id)) == Some(id))
  }

  /** What article cursors rely on. */
  ghost predicate ArticleLaws(codec: Codec) {
    && MomentsAndIdsReadBack(codec)
    && (forall fields {:trigger codec.dumps(fields)} | Plain(fields) :: codec.loads(codec.dumps(fields)) == Some(Object(fields)))
  }

  /** What story cursors rely on. */
  ghost predicate StoryLaws(codec: Codec) {
    && MomentsAndIdsReadBack(codec)
    && (forall id: nat {:trigger codec.uuidText(id)} :: '|' !in codec.uuidText(id))
    && (forall s {:trigger codec.utf8(s)} :: codec.fromUtf8(codec.utf8(s)) == Some(s))
  }

  // ---------- articles ----------

  function SortName(sort: Sort): string { if sort.Newest? then "newest" else "score" }

  /** The columns of a row that a cursor holds; newest cursors carry no score. */
  function CursorAt(sort: Sort, score: int, at: int, id: nat): Cursor {
    if sort.Newest? then NewestCursor(at, id) else ScoreCursor(score, at, id)
  }

  function CursorFields(codec: Codec, sort: Sort, filtersKey: string, score: int, at: int, id: nat): map<string, Json> {
    var fields := map["v" := Integer(2), "sort" := Text(SortName(sort)), "filters" := Text(filtersKey),
                      "display_at" := Text(codec.isoFormat(at)), "id" := Text(codec.uuidText(id))];
    if sort.Score? then fields["score" := Integer(score)] else fields
  }

  function EncodeArticleCursor(codec: Codec, sort: Sort, filtersKey: string, score: int, at: int, id: nat): string {
    EncodeCursor(codec.dumps(CursorFields(codec, sort, filtersKey, score, at, id)))
  }

  function ExpectedKeys(sort: Sort): set<string> {
    {"v", "sort", "filters", "display_at", "id"} + if sort.Score? then {"score"} else {}
  }

  /** payload["v"] == 2, for Python's equality of numbers. */
  predicate IsVersionTwo(value: Json) { value == Integer(2) || value == Float(2.0) }

  function ReadFields(codec: Codec, fields: map<string, Json>, sort: Sort, filtersKey: string): Option<Cursor> {
    if fields.Keys != ExpectedKeys(sort) then None
    else if !IsVersionTwo(fields["v"]) || fields["sort"] != Text(SortName(sort)) || fields["filters"] != Text(filtersKey)
      then None
    else match (fields["display_at"], fields["id"])
      case (Text(atText), Text(idText)) =>
        (match (codec.fromIsoFormat(atText), codec.uuid(idText))
         case (Some(at), Some(id)) =>
           if sort.Score? then
             (match fields["score"]
              case Integer(score) => Some(ScoreCursor(score, at, id))
              case _ => None)
           else Some(NewestCursor(at, id))
         case _ => None)
      case _ => None
  }

  function DecodeArticleCursor(codec: Codec, value: string, sort: Sort, filtersKey: string): Option<Cursor> {
    match DecodeStrict(Repad(value))
    case None => None
    case Some(raw) =>
      match codec.loads(raw)
      case Some(Object(fields)) => ReadFields(codec, fields, sort, filtersKey)
      case _ => None
  }

  /** Decoding an encoded cursor under its own sort and filter key gives back the row's key. */
  lemma ArticleCursorRoundTrip(codec: Codec, sort: Sort, filtersKey: string, score: int, at: int, id: nat)
    requires ArticleLaws(codec)
    ensures DecodeArticleCursor(codec, EncodeArticleCursor(codec, sort, filtersKey, score, at, id), sort, filtersKey)
         == Some(CursorAt(sort, score, at, id))
  {
    var fields := CursorFields(codec, sort, filtersKey, score, at, id);
    CursorRoundTrip(codec.dumps(fields));
    assert codec.fromIsoFormat(codec.isoFormat(at)) == Some(at);
    assert codec.uuid(codec.uuidText(id)) == Some(id);
    assert fields.Keys == ExpectedKeys(sort);
  }

  /** No string at all is a cursor of two different listings. */
  lemma CursorBelongsToOneListing(codec: Codec, value: string, sort: Sort, filtersKey: string, otherSort: Sort, otherKey: string)
    requires DecodeArticleCursor(codec, value, sort, filtersKey).Some?
    requires DecodeArticleCursor(codec, value, otherSort, otherKey).Some?
    ensures sort == otherSort && filtersKey == otherKey
  {
    assert SortName(sort) == SortName(otherSort);
    assert "newest"[0] != "score"[0];
  }

  /** A cursor made for one sort and filter set is rejected by every other listing. */
  lemma ForeignCursorRejected<F(!new)>(codec: Codec, fingerprint: F -> string, sort: Sort, filters: F, otherSort: Sort,
                                       otherFilters: F, score: int, at: int, id: nat)
    requires ArticleLaws(codec)
    requires forall f, g :: fingerprint(f) == fingerprint(g) ==> f == g
    requires sort != otherSort || filters != otherFilters
    ensures DecodeArticleCursor(codec, EncodeArticleCursor(codec, sort, fingerprint(filters), score, at, id),
                                otherSort, fingerprint(otherFilters)).None?
  {
    var value := EncodeArticleCursor(codec, sort, fingerprint(filters), score, at, id);
    ArticleCursorRoundTrip(codec, sort, fingerprint(filters), score, at, id);
    if DecodeArticleCursor(codec, value, otherSort, fingerprint(otherFilters)).Some? {
      CursorBelongsToOneListing(codec, value, sort, fingerprint(filters), otherSort, fingerprint(otherFilters));
    }
  }

  // ---------- stories ----------

  function EncodeStoryCursor(codec: Codec, updatedAt: int, id: nat): string {
    EncodeCursor(codec.utf8(codec.isoFormat(updatedAt) + "|" + codec.uuidText(id)))
  }

  /** raw.rsplit("|", 1), when there is a bar at all. */
  function SplitAtLastBar(s: string): Option<(string, string)> {
    if s == "" then None
    else if s[|s| - 1] == '|' then Some((s[..|s| - 1], ""))
    else match SplitAtLastBar(s[..|s| - 1])
      case None => None
      case Some((left, right)) => Some((left, right + [s[|s| - 1]]))
  }

  function DecodeStoryCursor(codec: Codec, value: string): Option<(int, nat)> {
    match DecodeUrlSafe(Repad(value))
    case None => None
    case Some(bytes) =>
      match codec.fromUtf8(bytes)
      case None => None
      case Some(raw) =>
        match SplitAtLastBar(raw)
        case None => None
        case Some((timestamp, storyId)) =>
          match (codec.fromIsoFormat(timestamp), codec.uuid(storyId))
          case (Some(at), Some(id)) => Some((at, id))
          case _ => None
  }

  lemma {:induction false} SplitFindsBar(left: string, right: string)
    requires '|' !in right
    ensures SplitAtLastBar(left + "|" + right) == Some((left, right))
  {
    var s := left + "|" + right;
    if right == "" {
      assert s[..|s| - 1] == left;
    } else {
      var shorter, last := right[..|right| - 1], right[|right| - 1];
      SplitFindsBar(left, shorter);
      assert s[..|s| - 1] == left + "|" + shorter && s[|s| - 1] == last;
      assert shorter + [last] == right;
    }
  }

  /** A story cursor gives back its key. */
  lemma StoryCursorRoundTrip(codec: Codec, updatedAt: int, id: nat)
    requires StoryLaws(codec)
    ensures DecodeStoryCursor(codec, EncodeStoryCursor(codec, updatedAt, id)) == Some((updatedAt, id))
  {
    var text := codec.isoFormat(updatedAt) + "|" + codec.uuidText(id);
    CursorRoundTrip(codec.utf8(text));
    assert codec.fromUtf8(codec.utf8(text)) == Some(text);
    assert codec.fromIsoFormat(codec.isoFormat(updatedAt)) == Some(updatedAt);
    assert codec.uuid(codec.uuidText(id)) == Some(id);
    SplitFindsBar(codec.isoFormat(updatedAt), codec.uuidText(id));
  }

  /** An article cursor is read exactly when it has these fields and no others: version 2, the sort and the filter key of
      the listing, a moment, an identifier and, sorted by score, an integer score. */
  lemma DecodedPlainly(codec: Codec, value: string, sort: Sort, filtersKey: string, raw: seq<Byte>, fields: map<string, Json>)
    requires DecodeStrict(Repad(value)) == Some(raw) && codec.loads(raw) == Some(Object(fields))
    ensures DecodeArticleCursor(codec, value, sort, filtersKey).Some? <==>
              && fields.Keys == (if sort == Newest then {"v", "sort", "filters", "display_at", "id"}
                                 else {"v", "sort", "filters", "display_at", "id", "score"})
              && (fields["v"] == Integer(2) || fields["v"] == Float(2.0))
              && fields["sort"] == Text(if sort == Newest then "newest" else "score") && fields["filters"] == Text(filtersKey)
              && fields["display_at"].Text? && codec.fromIsoFormat(fields["display_at"].s).Some?
              && fields["id"].Text? && codec.uuid(fields["id"].s).Some?
              && (sort == Score ==> fields["score"].Integer?)
    ensures var cursor := DecodeArticleCursor(codec, value, sort, filtersKey);
            cursor.Some? ==>
              cursor.value == if sort == Newest then NewestCursor(codec.fromIsoFormat(fields["display_at"].s).value, codec.uuid(fields["id"].s).value)
                              else ScoreCursor(fields["score"].n, codec.fromIsoFormat(fields["display_at"].s).value, codec.uuid(fields["id"].s).value)
  {
    assert sort == Newest ==> ExpectedKeys(sort) == {"v", "sort", "filters", "display_at", "id"};
    assert sort == Score ==> ExpectedKeys(sort) == {"v", "sort", "filters", "display_at", "id", "score"};
    hide ExpectedKeys;
  }

  /** What is no base64, no JSON or no object is no cursor. */
  lemma UnreadableRejected(codec: Codec, value: string, sort: Sort, filtersKey: string)
    ensures DecodeArticleCursor(codec, value, sort, filtersKey).Some? ==>
              exists raw, fields :: DecodeStrict(Repad(value)) == Some(raw) && codec.loads(raw) == Some(Object(fields))
  {
    hide ReadFields;
  }

  /** A story cursor is read exactly when its text has a bar, a moment before the last bar and an identifier after it. */
  lemma StoryDecodedPlainly(codec: Codec, value: string, left: string, right: string, bytes: seq<Byte>)
    requires DecodeUrlSafe(Repad(value)) == Some(bytes) && codec.fromUtf8(bytes) == Some(left + "|" + right) && '|' !in right
    ensures DecodeStoryCursor(codec, value).Some? <==> codec.fromIsoFormat(left).Some? && codec.uuid(right).Some?
    ensures DecodeStoryCursor(codec, value).Some? ==>
              DecodeStoryCursor(codec, value).value == (codec.fromIsoFormat(left).value, codec.uuid(right).value)
  {
    SplitFindsBar(left, right);
    hide SplitAtLastBar;
  }

  lemma {:induction false} NoBarNoCursor(codec: Codec, value: string, text: string, bytes: seq<Byte>)
    requires DecodeUrlSafe(Repad(value)) == Some(bytes) && codec.fromUtf8(bytes) == Some(text) && '|' !in text
    ensures DecodeStoryCursor(codec, value) == None
  {
    NoBar(text);
  }

  lemma {:induction false} NoBar(text: string)
    requires '|' !in text
    ensures SplitAtLastBar(text) == None
  {
    if text != "" { NoBar(text[..|text| - 1]); }
  }
}
