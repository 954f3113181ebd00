/** The laws of the cursors' codec can be met: a codec that meets all of them. */
module CursorCodec {
  import opened Wrappers
  import opened Decimals
  import opened Base64Url
  import opened Cursors

  // ---------- texts, numbers and fields as bytes ----------

  function NatBytes(n: nat): seq<Byte> { if n == 0 then [0] else [1] + NatBytes(n - 1) }

  function IntBytes(i: int): seq<Byte> { NatBytes(if i >= 0 then 2 * i else -2 * i - 1) }

  function TextBytes(s: string): seq<Byte> {
    if s == "" then [0] else [1] + NatBytes(s[0] as nat) + TextBytes(s[1..])
  }

  function JsonBytes(value: Json): seq<Byte> {
    match value
    case Integer(n) => [0] + IntBytes(n)
    case Text(s) => [1] + TextBytes(s)
    case _ => [2]
  }

  /** The fields one after the other, in whatever order they are picked. */
  ghost function FieldBytes(fields: map<string, Json>): seq<Byte> {
    if fields == map[] then [0]
    else
      var k :| k in fields;
      [1] + TextBytes(k) + JsonBytes(fields[k]) + FieldBytes(fields - {k})
  }

  // ---------- what is written first is read first ----------

  lemma {:induction false} NatFirst(m: nat, n: nat, rest: seq<Byte>, other: seq<Byte>)
    requires NatBytes(m) + rest == NatBytes(n) + other
    ensures m == n && rest == other
  {
    var s, t := NatBytes(m) + rest, NatBytes(n) + other;
    assert s[0] == (if m == 0 then 0 else 1) && t[0] == if n == 0 then 0 else 1;
    if m == 0 {
      assert s[1..] == rest && t[1..] == other;
    } else {
      assert s[1..] == NatBytes(m - 1) + rest && t[1..] == NatBytes(n - 1) + other;
      NatFirst(m - 1, n - 1, rest, other);
    }
  }

  lemma IntFirst(i: int, j: int, rest: seq<Byte>, other: seq<Byte>)
    requires IntBytes(i) + rest == IntBytes(j) + other
    ensures i == j && rest == other
  {
    NatFirst(if i >= 0 then 2 * i else -2 * i - 1, if j >= 0 then 2 * j else -2 * j - 1, rest, other);
  }

  lemma {:induction false} TextFirst(a: string, b: string, rest: seq<Byte>, other: seq<Byte>)
    requires TextBytes(a) + rest == TextBytes(b) + other
    ensures a == b && rest == other
  {
    var s, t := TextBytes(a) + rest, TextBytes(b) + other;
    assert s[0] == (if a == "" then 0 else 1) && t[0] == if b == "" then 0 else 1;
    if a == "" {
      assert s[1..] == rest && t[1..] == other;
    } else {
      var x, y := TextBytes(a[1..]) + rest, TextBytes(b[1..]) + other;
      assert s[1..] == NatBytes(a[0] as nat) + x && t[1..] == NatBytes(b[0] as nat) + y;
      NatFirst(a[0] as nat, b[0] as nat, x, y);
      TextFirst(a[1..], b[1..], rest, other);
      assert a == [a[0]] + a[1..] && b == [b[0]] + b[1..];
    }
  }

  /** A leading byte and what comes after it. */
  lemma Leading(x: Byte, a: seq<Byte>, rest: seq<Byte>)
    ensures ([x] + a + rest)[0] == x && ([x] + a + rest)[1..] == a + rest
  {}

  lemma JsonFirst(v: Json, w: Json, rest: seq<Byte>, other: seq<Byte>)
    requires (v.Integer? || v.Text?) && (w.Integer? || w.Text?)
    requires JsonBytes(v) + rest == JsonBytes(w) + other
    ensures v == w && rest == other
  {
    hide IntBytes, TextBytes;
    Leading(if v.Integer? then 0 else 1, if v.Integer? then IntBytes(v.n) else TextBytes(v.s), rest);
    Leading(if w.Integer? then 0 else 1, if w.Integer? then IntBytes(w.n) else TextBytes(w.s), other);
    hide JsonBytes;
    if v.Integer? {
      IntFirst(v.n, w.n, rest, other);
    } else {
      TextFirst(v.s, w.s, rest, other);
    }
  }

  lemma EntryFirst(k: string, l: string, v: Json, w: Json, rest: seq<Byte>, other: seq<Byte>)
    requires (v.Integer? || v.Text?) && (w.Integer? || w.Text?)
    requires [1] + TextBytes(k) + JsonBytes(v) + rest == [1] + TextBytes(l) + JsonBytes(w) + other
    ensures k == l && v == w && rest == other
  {
    hide TextBytes, JsonBytes;
    var x, y := JsonBytes(v) + rest, JsonBytes(w) + other;
    assert [1] + TextBytes(k) + JsonBytes(v) + rest == [1] + TextBytes(k) + x;
    assert [1] + TextBytes(l) + JsonBytes(w) + other == [1] + TextBytes(l) + y;
    Leading(1, TextBytes(k), x);
    Leading(1, TextBytes(l), y);
    TextFirst(k, l, x, y);
    JsonFirst(v, w, rest, other);
  }

  lemma EmptyFirst(fields: map<string, Json>)
    ensures FieldBytes(fields) != [] && FieldBytes(fields)[0] == if fields == map[] then 0 else 1
  {
    hide TextBytes, JsonBytes;
  }

  lemma {:induction false} FieldsInjective(a: map<string, Json>, b: map<string, Json>)
    requires Plain(a) && Plain(b) && FieldBytes(a) == FieldBytes(b)
    ensures a == b
    decreases |a|
  {
    hide FieldBytes, TextBytes, JsonBytes;
    EmptyFirst(a);
    EmptyFirst(b);
    if a != map[] {
      var k := Picked(a);
      var l := Picked(b);
      EntryFirst(k, l, a[k], b[l], FieldBytes(a - {k}), FieldBytes(b - {l}));
      SmallerWithout(a, k);
      FieldsInjective(a - {k}, b - {l});
      assert a == (a - {k})[k := a[k]] && b == (b - {l})[l := b[l]];
    }
  }

  lemma SmallerWithout(fields: map<string, Json>, k: string)
    requires k in fields
    ensures |fields - {k}| < |fields|
  {
    assert (fields - {k}).Keys == fields.Keys - {k};
    assert |fields.Keys - {k}| == |fields.Keys| - 1;
  }

  lemma Picked(fields: map<string, Json>) returns (k: string)
    requires fields != map[]
    ensures k in fields
    ensures FieldBytes(fields) == [1] + TextBytes(k) + JsonBytes(fields[k]) + FieldBytes(fields - {k})
  {
    assert exists k :: k in fields;
    k :| k in fields && FieldBytes(fields) == [1] + TextBytes(k) + JsonBytes(fields[k]) + FieldBytes(fields - {k});
  }

  // ---------- moments ----------

  function MomentText(t: int): string { if t >= 0 then Decimal(t) else "-" + Decimal(-t) }

  lemma MomentStart(t: int)
    ensures MomentText(t) != "" && (MomentText(t)[0] == '-' <==> t < 0)
  {
    if t >= 0 {
      DecimalRoundTrip(t);
      assert Decimal(t)[0] in Decimal(t);
    }
  }

  lemma MomentInjective(t: int, u: int)
    requires MomentText(t) == MomentText(u)
    ensures t == u
  {
    MomentStart(t);
    MomentStart(u);
    hide Decimal;
    if t < 0 {
      assert MomentText(t)[1..] == Decimal(-t) && MomentText(u)[1..] == Decimal(-u);
      IdInjective(-t, -u);
    } else {
      IdInjective(t, u);
    }
  }

  lemma IdInjective(m: nat, n: nat)
    requires Decimal(m) == Decimal(n)
    ensures m == n
  {
    DecimalRoundTrip(m);
    DecimalRoundTrip(n);
  }

  // ---------- inverses ----------

  /** What was encoded, if anything was. */
  ghost function Inverse<A(!new), B(!new)>(encode: A -> B, domain: A -> bool): B -> Option<A> {
    (b: B) => if exists a :: domain(a) && encode(a) == b then (var a :| domain(a) && encode(a) == b; Some(a)) else None
  }

  lemma InverseReads<A(!new), B(!new)>(encode: A -> B, domain: A -> bool, a: A)
    requires domain(a)
    requires forall x, y :: domain(x) && domain(y) && encode(x) == encode(y) ==> x == y
    ensures Inverse(encode, domain)(encode(a)) == Some(a)
  {}

  /** There is a codec with all the laws of article and story cursors. */
  lemma CodecExists() returns (codec: Codec)
    ensures ArticleLaws(codec) && StoryLaws(codec)
  {
    var dumps := (fields: map<string, Json>) => FieldBytes(fields);
    var written := (fields: map<string, Json>) => Plain(fields);
    var iso := (t: int) => MomentText(t);
    var uuid := (id: nat) => Decimal(id);
    var utf8 := (s: string) => TextBytes(s);
    var moments, ids, texts := (t: int) => true, (id: nat) => true, (s: string) => true;
    var read := Inverse(dumps, written);
    codec := Codec(dumps, (b: seq<Byte>) => if read(b).Some? then Some(Object(read(b).value)) else None,
                   iso, Inverse(iso, moments), uuid, Inverse(uuid, ids), utf8, Inverse(utf8, texts));
    forall fields | Plain(fields) ensures codec.loads(codec.dumps(fields)) == Some(Object(fields)) {
      forall x, y | written(x) && written(y) && dumps(x) == dumps(y) ensures x == y { FieldsInjective(x, y); }
      InverseReads(dumps, written, fields);
    }
    forall t ensures codec.fromIsoFormat(codec.isoFormat(t)) == Some(t) {
      forall x, y | iso(x) == iso(y) ensures x == y { MomentInjective(x, y); }
      InverseReads(iso, moments, t);
    }
    forall id: nat ensures codec.uuid(codec.uuidText(id)) == Some(id) && '|' !in codec.uuidText(id) {
      forall x, y | uuid(x) == uuid(y) ensures x == y { IdInjective(x, y); }
      InverseReads(uuid, ids, id);
      DecimalRoundTrip(id);
    }
    forall s ensures codec.fromUtf8(codec.utf8(s)) == Some(s) {
      forall x, y | utf8(x) == utf8(y) ensures x == y { TextFirst(x, y, [], []); }
      InverseReads(utf8, texts, s);
    }
  }
}
