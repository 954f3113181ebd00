/** Unpadded base64url, sections 3.2 and 5 of RFC 4648, as the cursors use it. */
module Base64Url {
  import opened Wrappers

  type Byte = b: nat | b < 256

  // ---------- the alphabet ----------

  function Symbol(v: nat): char
    requires v < 64
  {
    if v < 26 then (v + 65) as char
    else if v < 52 then (v - 26 + 97) as char
    else if v < 62 then (v - 52 + 48) as char
    else if v == 62 then '-' else '_'
  }

  /** The decoders translate '-' and '_' to '+' and '/', so all four are read. */
  function SymbolValue(c: char): Option<nat> {
    if 'A' <= c <= 'Z' then Some(c as nat - 65)
    else if 'a' <= c <= 'z' then Some(c as nat - 97 + 26)
    else if '0' <= c <= '9' then Some(c as nat - 48 + 52)
    else if c == '-' || c == '+' then Some(62)
    else if c == '_' || c == '/' then Some(63)
    else None
  }

  // ---------- encoding ----------

  function First(a: Byte): nat { a / 4 }

  function Second(a: Byte, b: Byte): nat { a % 4 * 16 + b / 16 }

  function Third(b: Byte, c: Byte): nat { b % 16 * 4 + c / 64 }

  function Fourth(c: Byte): nat { c % 64 }

  /** urlsafe_b64encode: four symbols for three bytes, a short last group filled up with '='. */
  function Encode(bytes: seq<Byte>): string {
    if bytes == [] then ""
    else if |bytes| == 1 then [Symbol(First(bytes[0])), Symbol(Second(bytes[0], 0)), '=', '=']
    else if |bytes| == 2 then
      [Symbol(First(bytes[0])), Symbol(Second(bytes[0], bytes[1])), Symbol(Third(bytes[1], 0)), '=']
    else
      [Symbol(First(bytes[0])), Symbol(Second(bytes[0], bytes[1])), Symbol(Third(bytes[1], bytes[2])),
       Symbol(Fourth(bytes[2]))] + Encode(bytes[3..])
  }

  function StripPadding(s: string): string {
    if s != "" && s[|s| - 1] == '=' then StripPadding(s[..|s| - 1]) else s
  }

  /** value + "=" * (-len(value) % 4) */
  function Repad(s: string): string {
    s + (if |s| % 4 == 3 then "=" else if |s| % 4 == 2 then "==" else if |s| % 4 == 1 then "===" else "")
  }

  // ---------- decoding ----------

  function Byte1(p: nat, q: nat): Byte
    requires p < 64 && q < 64
  {
    p * 4 + q / 16
  }

  function Byte2(q: nat, r: nat): Byte
    requires q < 64 && r < 64
  {
    q % 16 * 16 + r / 4
  }

  function Byte3(r: nat, s: nat): Byte
    requires r < 64 && s < 64
  {
    r % 4 * 64 + s
  }

  predicate InAlphabet(c: char) { SymbolValue(c).Some? }

  function ValueOf(c: char): (v: nat)
    requires InAlphabet(c)
    ensures v < 64
  {
    SymbolValue(c).value
  }

  /** b64decode(..., validate=True): whole groups only, padding only at the end. */
  function DecodeStrict(s: string): Option<seq<Byte>> {
    if s == "" then Some([])
    else if |s| < 4 || !InAlphabet(s[0]) || !InAlphabet(s[1]) then None
    else if |s| == 4 && s[2..] == "==" then Some([Byte1(ValueOf(s[0]), ValueOf(s[1]))])
    else if !InAlphabet(s[2]) then None
    else
      var two := [Byte1(ValueOf(s[0]), ValueOf(s[1])), Byte2(ValueOf(s[1]), ValueOf(s[2]))];
      if |s| == 4 && s[3] == '=' then Some(two)
      else if !InAlphabet(s[3]) then None
      else match DecodeStrict(s[4..])
        case None => None
        case Some(rest) => Some(two + [Byte3(ValueOf(s[2]), ValueOf(s[3]))] + rest)
  }

  /** urlsafe_b64decode: characters outside the alphabet are skipped, and a full padding ends the input. */
  function DecodeLenient(s: string, quad: seq<nat>, pads: nat): Option<seq<Byte>>
    requires |quad| < 4 && forall i :: 0 <= i < |quad| ==> quad[i] < 64
  {
    if s == "" then (if quad == [] then Some([]) else None)
    else if s[0] == '=' then
      if |quad| >= 2 && |quad| + pads + 1 >= 4
        then Some([Byte1(quad[0], quad[1])] + if |quad| == 3 then [Byte2(quad[1], quad[2])] else [])
        else DecodeLenient(s[1..], quad, pads + 1)
    else if !InAlphabet(s[0]) then DecodeLenient(s[1..], quad, pads)
    else if |quad| < 3 then DecodeLenient(s[1..], quad + [ValueOf(s[0])], 0)
    else match DecodeLenient(s[1..], [], 0)
      case None => None
      case Some(rest) =>
        Some([Byte1(quad[0], quad[1]), Byte2(quad[1], quad[2]), Byte3(quad[2], ValueOf(s[0]))] + rest)
  }

  predicate Ascii(s: string) { forall c :: c in s ==> c as int < 128 }

  /** urlsafe_b64decode of a text: only ASCII is accepted. */
  function DecodeUrlSafe(s: string): Option<seq<Byte>> { if Ascii(s) then DecodeLenient(s, [], 0) else None }

  // ---------- the round trip ----------

  lemma SymbolRead(v: nat)
    requires v < 64
    ensures InAlphabet(Symbol(v)) && ValueOf(Symbol(v)) == v && Symbol(v) != '='
  {}

  lemma GroupRead(a: Byte, b: Byte, c: Byte)
    ensures First(a) < 64 && Second(a, b) < 64 && Third(b, c) < 64 && Fourth(c) < 64
    ensures Byte1(First(a), Second(a, b)) == a
    ensures Byte2(Second(a, b), Third(b, c)) == b
    ensures Byte3(Third(b, c), Fourth(c)) == c
  {}

  lemma GroupSymbols(a: Byte, b: Byte, c: Byte)
    ensures First(a) < 64 && Second(a, b) < 64 && Third(b, c) < 64 && Fourth(c) < 64
    ensures InAlphabet(Symbol(First(a))) && ValueOf(Symbol(First(a))) == First(a) && Symbol(First(a)) != '='
    ensures InAlphabet(Symbol(Second(a, b))) && ValueOf(Symbol(Second(a, b))) == Second(a, b) && Symbol(Second(a, b)) != '='
    ensures InAlphabet(Symbol(Third(b, c))) && ValueOf(Symbol(Third(b, c))) == Third(b, c) && Symbol(Third(b, c)) != '='
    ensures InAlphabet(Symbol(Fourth(c))) && ValueOf(Symbol(Fourth(c))) == Fourth(c) && Symbol(Fourth(c)) != '='
  {
    GroupRead(a, b, c);
    SymbolRead(First(a));
    SymbolRead(Second(a, b));
    SymbolRead(Third(b, c));
    SymbolRead(Fourth(c));
  }

  lemma {:induction false} StrictReadsEncoded(bytes: seq<Byte>)
    ensures DecodeStrict(Encode(bytes)) == Some(bytes)
  {
    hide Symbol, SymbolValue, First, Second, Third, Fourth, Byte1, Byte2, Byte3, InAlphabet, ValueOf, Encode;
    if bytes == [] {
      NothingEncoded();
    } else {
      var a, b, c := bytes[0], if |bytes| > 1 then bytes[1] else 0, if |bytes| > 2 then bytes[2] else 0;
      var s := Encode(bytes);
      EncodeHead(bytes, a, b, c);
      GroupSymbols(a, b, c);
      GroupRead(a, b, c);
      assert |bytes| >= 2 ==> s[2..][0] != '=';
      if |bytes| == 1 { assert |s[2..]| == 2 && bytes == [a]; }
      if |bytes| == 2 { assert |s[3..]| == 1 && s[3..][0] == '=' && bytes == [a, b]; }
      if |bytes| >= 3 {
        StrictReadsEncoded(bytes[3..]);
        assert [a, b] + [c] + bytes[3..] == bytes;
        assert DecodeStrict(s) == Some([a, b] + [c] + bytes[3..]);
      }
    }
  }

  lemma LenientTwo(s: string, p: nat, q: nat)
    requires p < 64 && q < 64 && |s| >= 2 && s[0] == Symbol(p) && s[1] == Symbol(q)
    ensures DecodeLenient(s, [], 0) == DecodeLenient(s[2..], [p, q], 0)
  {
    SymbolRead(p);
    SymbolRead(q);
    hide Symbol, SymbolValue, ValueOf, InAlphabet;
    assert s[1..][1..] == s[2..] && [] + [p] == [p] && [p] + [q] == [p, q];
    assert DecodeLenient(s, [], 0) == DecodeLenient(s[1..], [p], 0);
  }

  lemma LenientThree(s: string, p: nat, q: nat, r: nat)
    requires p < 64 && q < 64 && r < 64 && s != "" && s[0] == Symbol(r)
    ensures DecodeLenient(s, [p, q], 0) == DecodeLenient(s[1..], [p, q, r], 0)
  {
    SymbolRead(r);
    assert [p, q] + [r] == [p, q, r];
  }

  lemma LenientFour(s: string, p: nat, q: nat, r: nat, v: nat, rest: seq<Byte>)
    requires p < 64 && q < 64 && r < 64 && v < 64 && s != "" && s[0] == Symbol(v)
    requires DecodeLenient(s[1..], [], 0) == Some(rest)
    ensures DecodeLenient(s, [p, q, r], 0) == Some([Byte1(p, q), Byte2(q, r), Byte3(r, v)] + rest)
  {
    SymbolRead(v);
  }

  lemma LenientEnds(p: nat, q: nat, r: nat)
    requires p < 64 && q < 64 && r < 64
    ensures DecodeLenient("==", [p, q], 0) == Some([Byte1(p, q)])
    ensures DecodeLenient("=", [p, q, r], 0) == Some([Byte1(p, q), Byte2(q, r)])
  {
    assert "=="[1..] == "=";
    assert DecodeLenient("==", [p, q], 0) == DecodeLenient("=", [p, q], 1);
    assert [Byte1(p, q)] + [] == [Byte1(p, q)];
    assert [Byte1(p, q)] + [Byte2(q, r)] == [Byte1(p, q), Byte2(q, r)];
  }

  lemma {:induction false} LenientReadsEncoded(bytes: seq<Byte>)
    ensures DecodeLenient(Encode(bytes), [], 0) == Some(bytes)
  {
    hide Symbol, SymbolValue, First, Second, Third, Fourth, Byte1, Byte2, Byte3, Encode, DecodeLenient;
    if bytes == [] {
      NothingEncoded();
      NothingDecoded();
    } else {
      var a, b, c := bytes[0], if |bytes| > 1 then bytes[1] else 0, if |bytes| > 2 then bytes[2] else 0;
      var s := Encode(bytes);
      GroupRead(a, b, c);
      EncodeHead(bytes, a, b, c);
      var p, q, r := First(a), Second(a, b), Third(b, c);
      LenientTwo(s, p, q);
      LenientEnds(p, q, r);
      if |bytes| == 1 {
        assert bytes == [a];
      } else {
        LenientThree(s[2..], p, q, r);
        assert s[2..][1..] == s[3..];
        if |bytes| == 2 {
          assert bytes == [a, b];
        } else {
          LenientReadsEncoded(bytes[3..]);
          assert s[3..][1..] == s[4..];
          LenientFour(s[3..], p, q, r, Fourth(c), bytes[3..]);
          assert bytes == [a, b, c] + bytes[3..];
        }
      }
    }
  }

  lemma NothingDecoded()
    ensures DecodeLenient("", [], 0) == Some([])
  {}

  /** The first group of an encoding, by the number of bytes left. */
  lemma EncodeHead(bytes: seq<Byte>, a: Byte, b: Byte, c: Byte)
    requires bytes != [] && a == bytes[0]
    requires b == (if |bytes| > 1 then bytes[1] else 0) && c == if |bytes| > 2 then bytes[2] else 0
    ensures First(a) < 64 && Second(a, b) < 64 && Third(b, c) < 64 && Fourth(c) < 64
    ensures var s := Encode(bytes);
            && |s| >= 4 && s[0] == Symbol(First(a)) && s[1] == Symbol(Second(a, b))
            && (|bytes| == 1 ==> s[2..] == "==")
            && (|bytes| >= 2 ==> s[2] == Symbol(Third(b, c)))
            && (|bytes| == 2 ==> s[3..] == "=")
            && (|bytes| >= 3 ==> s[3] == Symbol(Fourth(c)) && s[4..] == Encode(bytes[3..]))
  {
    hide First, Second, Third, Fourth, Symbol;
    GroupRead(a, b, c);
  }

  /** Stripping takes the equal signs at the end, and stops at anything else. */
  lemma {:induction false} StripPads(s: string, pads: nat)
    requires pads <= |s| && forall i :: |s| - pads <= i < |s| ==> s[i] == '='
    requires |s| > pads ==> s[|s| - pads - 1] != '='
    ensures StripPadding(s) == s[..|s| - pads]
    decreases pads
  {
    if pads > 0 {
      var shorter := s[..|s| - 1];
      StripPads(shorter, pads - 1);
      assert shorter[..|shorter| - (pads - 1)] == s[..|s| - pads];
    } else {
      assert s[..|s|] == s;
    }
  }

  /** Stripping the padding loses nothing, whatever the length residue. */
  lemma PaddingRestored(bytes: seq<Byte>)
    ensures Repad(StripPadding(Encode(bytes))) == Encode(bytes)
  {
    hide Symbol, Encode, StripPadding;
    var s := Encode(bytes);
    var pads := PaddingLength(bytes);
    StripPads(s, pads);
    assert s == s[..|s| - pads] + s[|s| - pads..];
    RepadPads(s[..|s| - pads], s[|s| - pads..]);
  }

  lemma RepadPads(body: string, padding: string)
    requires |padding| <= 2 && (|body| + |padding|) % 4 == 0 && forall i :: 0 <= i < |padding| ==> padding[i] == '='
    ensures Repad(body) == body + padding
  {
    if |padding| == 1 {
      assert padding == "=";
    } else if |padding| == 2 {
      assert padding == "==";
    } else {
      assert padding == "";
    }
  }

  lemma {:induction false} PaddingLength(bytes: seq<Byte>) returns (pads: nat)
    ensures var s := Encode(bytes);
            && |s| % 4 == 0 && pads <= 2 && pads <= |s|
            && (forall i :: |s| - pads <= i < |s| ==> s[i] == '=')
            && (|s| > pads ==> s[|s| - pads - 1] != '=')
            && (s == "" ==> pads == 0)
  {
    hide Symbol, SymbolValue, First, Second, Third, Fourth, Encode;
    if bytes == [] {
      assert Encode([]) == "" by { NothingEncoded(); }
      pads := 0;
    } else {
      var a, b, c := bytes[0], if |bytes| > 1 then bytes[1] else 0, if |bytes| > 2 then bytes[2] else 0;
      EncodeHead(bytes, a, b, c);
      GroupSymbols(a, b, c);
      if |bytes| >= 3 {
        pads := PaddingLength(bytes[3..]);
        var s, rest := Encode(bytes), Encode(bytes[3..]);
        assert s == s[..4] + rest;
      } else {
        pads := 3 - |bytes|;
        assert Encode(bytes) == Encode(bytes)[..2] + Encode(bytes)[2..];
      }
    }
  }

  lemma NothingEncoded()
    ensures Encode([]) == ""
  {}

  function EncodeCursor(bytes: seq<Byte>): string { StripPadding(Encode(bytes)) }

  lemma SymbolAscii(v: nat)
    requires v < 64
    ensures Symbol(v) as int < 128
  {}

  lemma {:induction false} EncodedAscii(bytes: seq<Byte>)
    ensures Ascii(Encode(bytes))
  {
    hide Symbol, First, Second, Third, Fourth, Encode;
    if bytes == [] {
      NothingEncoded();
    } else {
      var a, b, c := bytes[0], if |bytes| > 1 then bytes[1] else 0, if |bytes| > 2 then bytes[2] else 0;
      var s := Encode(bytes);
      EncodeHead(bytes, a, b, c);
      SymbolAscii(First(a));
      SymbolAscii(Second(a, b));
      SymbolAscii(Third(b, c));
      SymbolAscii(Fourth(c));
      if |bytes| >= 3 {
        EncodedAscii(bytes[3..]);
        assert s == [s[0], s[1], s[2], s[3]] + s[4..];
      } else if |bytes| == 2 {
        assert s == [s[0], s[1], s[2]] + s[3..];
      } else {
        assert s == [s[0], s[1]] + s[2..];
      }
    }
  }

  /** Every byte string survives the trip through an unpadded cursor, in both decoders. */
  lemma CursorRoundTrip(bytes: seq<Byte>)
    ensures DecodeStrict(Repad(EncodeCursor(bytes))) == Some(bytes)
    ensures DecodeUrlSafe(Repad(EncodeCursor(bytes))) == Some(bytes)
  {
    PaddingRestored(bytes);
    StrictReadsEncoded(bytes);
    LenientReadsEncoded(bytes);
    EncodedAscii(bytes);
  }

  lemma AlphabetPlainly(c: char)
    ensures InAlphabet(c) <==> 'A' <= c <= 'Z' || 'a' <= c <= 'z' || '0' <= c <= '9' || c in {'-', '_', '+', '/'}
  {}

  /** A multiple of four characters, all in the alphabet but for one or two equal signs at the end. */
  predicate WellPadded(s: string) {
    || s == ""
    || (|s| % 4 == 0 && (forall i :: 0 <= i < |s| - 2 ==> InAlphabet(s[i]))
        && ((s[|s| - 2] == '=' && s[|s| - 1] == '=')
            || (InAlphabet(s[|s| - 2]) && (s[|s| - 1] == '=' || InAlphabet(s[|s| - 1])))))
  }

  lemma {:induction false} StrictAcceptsExactly(s: string)
    ensures DecodeStrict(s).Some? <==> WellPadded(s)
  {
    hide DecodeStrict, InAlphabet;
    if |s| > 4 {
      StrictAcceptsExactly(s[4..]);
      StrictFour(s);
      WellPaddedTail(s);
      hide WellPadded;
    } else if |s| == 4 {
      LastFour(s);
    } else {
      StrictShort(s);
    }
  }

  lemma StrictShort(s: string)
    requires |s| < 4
    ensures DecodeStrict(s).Some? <==> s == ""
  {}

  lemma WellPaddedTail(s: string)
    requires |s| > 4
    ensures WellPadded(s) <==>
              InAlphabet(s[0]) && InAlphabet(s[1]) && InAlphabet(s[2]) && InAlphabet(s[3]) && WellPadded(s[4..])
  {
    hide InAlphabet;
    var rest := s[4..];
    assert |rest| % 4 == 0 <==> |s| % 4 == 0;
    assert forall i :: 4 <= i < |s| ==> s[i] == rest[i - 4];
    if |s| % 4 == 0 {
      assert |s| >= 8 && s[|s| - 2] == rest[|rest| - 2] && s[|s| - 1] == rest[|rest| - 1];
      assert (forall i :: 0 <= i < |s| - 2 ==> InAlphabet(s[i])) <==>
               InAlphabet(s[0]) && InAlphabet(s[1]) && InAlphabet(s[2]) && InAlphabet(s[3])
               && forall i :: 0 <= i < |rest| - 2 ==> InAlphabet(rest[i]);
    }
  }

  lemma StrictFour(s: string)
    requires |s| > 4
    ensures DecodeStrict(s).Some? <==>
              InAlphabet(s[0]) && InAlphabet(s[1]) && InAlphabet(s[2]) && InAlphabet(s[3]) && DecodeStrict(s[4..]).Some?
  {
    hide InAlphabet, ValueOf;
  }

  lemma LastFour(s: string)
    requires |s| == 4
    ensures DecodeStrict(s).Some? <==>
              && InAlphabet(s[0]) && InAlphabet(s[1])
              && ((s[2] == '=' && s[3] == '=') || (InAlphabet(s[2]) && (s[3] == '=' || InAlphabet(s[3]))))
  {
    assert s[2..] == [s[2], s[3]] && s[4..] == "";
    assert DecodeStrict("") == Some([]);
    hide ValueOf;
  }

  /** Test vectors of section 10 of RFC 4648, and the two symbols of section 5. */
  lemma KnownEncodings()
    ensures Encode([]) == "" && Encode([102]) == "Zg==" && Encode([102, 111]) == "Zm8=" && Encode([102, 111, 111]) == "Zm9v"
    ensures Encode([102, 111, 111, 98, 97, 114]) == "Zm9vYmFy" && Encode([251, 255, 254]) == "-__-"
    ensures EncodeCursor([102]) == "Zg" && Repad("Zg") == "Zg=="
  {
    KnownShort();
    KnownLong();
    hide Encode;
    assert "Zg=="[..3] == "Zg=" && "Zg="[..2] == "Zg" && StripPadding("Zg") == "Zg";
    assert StripPadding("Zg=") == "Zg";
  }

  lemma KnownShort()
    ensures Encode([]) == "" && Encode([102]) == "Zg==" && Encode([102, 111]) == "Zm8="
  {}

  lemma KnownLong()
    ensures Encode([102, 111, 111]) == "Zm9v" && Encode([251, 255, 254]) == "-__-"
    ensures Encode([102, 111, 111, 98, 97, 114]) == "Zm9vYmFy"
  {
    assert [102, 111, 111, 98, 97, 114][3..] == [98, 97, 114];
    assert Encode([98, 97, 114]) == "YmFy";
  }

  /** The lenient decoder skips what is outside the alphabet, stops at a full padding, and misses one that is not full. */
  lemma KnownLenient()
    ensures DecodeLenient("Z!g==Zg", [], 0) == Some([102]) && DecodeLenient("Zg=", [], 0) == None
  {
    hide Byte1;
    assert Byte1(25, 32) == 102 by { ByteOfF(); }
    assert "Z!g==Zg"[1..] == "!g==Zg" && "!g==Zg"[1..] == "g==Zg" && "g==Zg"[1..] == "==Zg" && "==Zg"[1..] == "=Zg";
    assert [Byte1(25, 32)] + [] == [Byte1(25, 32)];
    assert DecodeLenient("=Zg", [25, 32], 1) == Some([102]);
    assert DecodeLenient("==Zg", [25, 32], 0) == Some([102]);
    assert [25] + [32] == [25, 32] && [] + [25] == [25];
    assert DecodeLenient("g==Zg", [25], 0) == Some([102]);
    assert "Zg="[1..] == "g=" && "g="[1..] == "=" && "="[1..] == "";
    assert DecodeLenient("=", [25, 32], 0) == DecodeLenient("", [25, 32], 1) == None;
    assert DecodeLenient("g=", [25], 0) == None;
  }

  lemma ByteOfF()
    ensures Byte1(25, 32) == 102
  {}
}
