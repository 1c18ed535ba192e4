/**
 * The tag codec. A snippet keeps its tags in one text column holding a JSON
 * array of strings, written by `JSON.stringify` (prisma/seed.ts) and read back
 * by the snippet list with `JSON.parse(s.tags || "[]")`, where any parse
 * failure yields the empty list.
 *
 * The reader is a parser for the part of JSON that the writer produces: an
 * array (section 5 of RFC 8259) of string literals (section 7 of RFC 8259),
 * with the insignificant whitespace of section 2 allowed around every token.
 * The writer is `JSON.stringify` on an array of strings, which quotes each
 * string as section 25.5.2.3 of ECMA-262 (QuoteJSONString) prescribes.
 */
module TagCodec {
  import opened JsText
  import opened Optional

  const Quote: CodeUnit := 0x22
  const Comma: CodeUnit := 0x2C
  const Slash: CodeUnit := 0x2F
  const LBracket: CodeUnit := 0x5B
  const Backslash: CodeUnit := 0x5C
  const RBracket: CodeUnit := 0x5D

  /** The text `[]`, which stands in for an empty tags column. */
  const EmptyArrayText: JsString := [LBracket, RBracket]

  /** JSON's insignificant whitespace: space, tab, line feed, carriage return. */
  predicate IsJsonSpace(u: CodeUnit) {
    u == 0x20 || u == 0x09 || u == 0x0A || u == 0x0D
  }

  /** `s` without its leading JSON whitespace. */
  function SkipSpace(s: JsString): (r: JsString)
    ensures |r| <= |s|
    ensures r != [] ==> !IsJsonSpace(r[0])
  {
    if s != [] && IsJsonSpace(s[0]) then SkipSpace(s[1..]) else s
  }

  /** The value of a hexadecimal digit, either case. */
  function HexValue(u: CodeUnit): (r: Option<int>)
    ensures r.Some? ==> 0 <= r.value < 16
  {
    if 0x30 <= u <= 0x39 then Some(u - 0x30)
    else if 0x61 <= u <= 0x66 then Some(u - 0x61 + 10)
    else if 0x41 <= u <= 0x46 then Some(u - 0x41 + 10)
    else None
  }

  /** The code unit written by the four hexadecimal digits of a `\u` escape. */
  function ParseHex4(s: JsString): (r: Option<CodeUnit>)
    requires |s| == 4
  {
    match (HexValue(s[0]), HexValue(s[1]), HexValue(s[2]), HexValue(s[3]))
    case (Some(a), Some(b), Some(c), Some(d)) => Some(a * 0x1000 + b * 0x100 + c * 0x10 + d)
    case _ => None
  }

  /** The code unit a two-character escape `\c` stands for. */
  function Unescape(c: CodeUnit): Option<CodeUnit> {
    if c == Quote || c == Backslash || c == Slash then Some(c)
    else if c == 0x62 then Some(0x08)  // \b
    else if c == 0x66 then Some(0x0C)  // \f
    else if c == 0x6E then Some(0x0A)  // \n
    else if c == 0x72 then Some(0x0D)  // \r
    else if c == 0x74 then Some(0x09)  // \t
    else None
  }

  /**
   * The code unit an escape sequence stands for, and the text after it;
   * `s` starts just after the backslash.
   */
  function ParseEscape(s: JsString): (r: Option<(CodeUnit, JsString)>)
    ensures r.Some? ==> |r.value.1| < |s|
  {
    if s == [] then None
    else match Unescape(s[0])
      case Some(u) => Some((u, s[1..]))
      case None =>
        if s[0] == 0x75 && |s| >= 5 then  // \uXXXX
          match ParseHex4(s[1..5])
          case Some(u) => Some((u, s[5..]))
          case None => None
        else None
  }

  /** Puts `p` in front of the characters of a parse result. */
  function PrependChars(p: JsString, r: Option<(JsString, JsString)>): Option<(JsString, JsString)> {
    match r
    case None => None
    case Some((cs, rest)) => Some((p + cs, rest))
  }

  /**
   * The characters of a string literal and the text after its closing
   * quote; `s` starts just after the opening quote. A control character
   * (below U+0020) may appear only escaped.
   */
  function ParseChars(s: JsString): (r: Option<(JsString, JsString)>)
    ensures r.Some? ==> |r.value.1| < |s|
    decreases |s|
  {
    if s == [] || s[0] < 0x20 then None
    else if s[0] == Quote then Some(([], s[1..]))
    else if s[0] == Backslash then
      match ParseEscape(s[1..])
      case None => None
      case Some((u, rest)) => PrependChars([u], ParseChars(rest))
    else PrependChars([s[0]], ParseChars(s[1..]))
  }

  /** Skipping whitespace drops only JSON whitespace, from the front of the text. */
  lemma {:induction false} SkipSpaceSuffix(s: JsString)
    ensures SkipSpace(s) == s[|s| - |SkipSpace(s)|..]
    ensures forall i :: 0 <= i < |s| - |SkipSpace(s)| ==> IsJsonSpace(s[i])
    decreases |s|
  {
    if s != [] && IsJsonSpace(s[0]) {
      SkipSpaceSuffix(s[1..]);
      assert s[1..][|s| - 1 - |SkipSpace(s)|..] == s[|s| - |SkipSpace(s)|..];
    }
  }

  /**
   * A string literal's body ends at a quote, and the text left over is what
   * follows that quote in the input.
   */
  lemma {:induction false} ParseCharsRest(s: JsString)
    ensures ParseChars(s).Some? ==>
              var rest := ParseChars(s).value.1;
              rest == s[|s| - |rest|..] && s[|s| - |rest| - 1] == Quote
    decreases |s|
  {
    if s == [] || s[0] < 0x20 || s[0] == Quote {
    } else if s[0] == Backslash {
      match ParseEscape(s[1..])
      case None =>
      case Some((u, after)) =>
        assert after == s[|s| - |after|..];
        ParseCharsRest(after);
        if ParseChars(s).Some? {
          var rest := ParseChars(s).value.1;
          assert rest == ParseChars(after).value.1;
          assert after[|after| - |rest|..] == s[|s| - |rest|..];
          assert after[|after| - |rest| - 1] == s[|s| - |rest| - 1];
        }
    } else {
      ParseCharsRest(s[1..]);
      if ParseChars(s).Some? {
        var rest := ParseChars(s).value.1;
        assert rest == ParseChars(s[1..]).value.1;
        assert s[1..][|s| - 1 - |rest|..] == s[|s| - |rest|..];
      }
    }
  }

  /**
   * One string literal of an array and what follows it: `true` and the text
   * after the comma (and its whitespace) when another literal follows,
   * `false` and the text after the closing bracket when the array ends.
   */
  function ParseItem(s: JsString): (r: Option<(JsString, bool, JsString)>)
    ensures r.Some? ==> |r.value.2| < |s|
  {
    if s == [] || s[0] != Quote then None
    else
      match ParseChars(s[1..])
      case None => None
      case Some((item, rest)) =>
        var t := SkipSpace(rest);
        if t != [] && t[0] == RBracket then Some((item, false, t[1..]))
        else if t != [] && t[0] == Comma then Some((item, true, SkipSpace(t[1..])))
        else None
  }

  /**
   * The string literals of a non-empty array up to and including its
   * closing bracket, and the text after it; `s` starts at the first
   * literal.
   */
  function ParseItems(s: JsString): (r: Option<(seq<JsString>, JsString)>)
    decreases |s|
  {
    match ParseItem(s)
    case None => None
    case Some((item, false, rest)) => Some(([item], rest))
    case Some((item, true, rest)) =>
      match ParseItems(rest)
      case None => None
      case Some((items, tail)) => Some(([item] + items, tail))
  }

  /** The strings of `s` when the whole of `s` is a JSON array of strings. */
  function ParseArray(s: JsString): (r: Option<seq<JsString>>)
    ensures r.Some? ==> SkipSpace(s) != [] && SkipSpace(s)[0] == LBracket
    ensures r.Some? && r.value != [] ==> SkipSpace(SkipSpace(s)[1..]) != [] && SkipSpace(SkipSpace(s)[1..])[0] == Quote
  {
    var t := SkipSpace(s);
    if t == [] || t[0] != LBracket then None
    else
      var u := SkipSpace(t[1..]);
      if u != [] && u[0] == RBracket then
        if SkipSpace(u[1..]) == [] then Some([]) else None
      else
        match ParseItems(u)
        case None => None
        case Some((items, rest)) => if SkipSpace(rest) == [] then Some(items) else None
  }

  /**
   * The tags of a snippet, `JSON.parse(tags || "[]")` guarded by a catch:
   * an empty column and a column that is not a JSON array of strings both
   * give the empty list, and no input makes decoding fail.
   */
  function DecodeTags(raw: JsString): (r: seq<JsString>)
    ensures raw == [] ==> r == []
    ensures ParseArray(raw).None? ==> r == []
    ensures ParseArray(raw).Some? ==> r == ParseArray(raw).value
  {
    var text := if raw == [] then EmptyArrayText else raw;
    match ParseArray(text)
    case Some(tags) => tags
    case None => []
  }

  // ---------------------------------------------------------------------
  // The writer: JSON.stringify on an array of strings.

  predicate IsHighSurrogate(u: CodeUnit) { 0xD800 <= u <= 0xDBFF }

  predicate IsLowSurrogate(u: CodeUnit) { 0xDC00 <= u <= 0xDFFF }

  /** A lower-case hexadecimal digit. */
  function HexDigit(d: int): CodeUnit
    requires 0 <= d < 16
  {
    if d < 10 then 0x30 + d else 0x61 + (d - 10)
  }

  /** The four lower-case hexadecimal digits of `u`. */
  function Hex4(u: CodeUnit): (r: JsString)
    ensures |r| == 4
  {
    [HexDigit(u / 0x1000), HexDigit(u / 0x100 % 0x10), HexDigit(u / 0x10 % 0x10), HexDigit(u % 0x10)]
  }

  /**
   * The letter of the two-character escape QuoteJSONString writes for `u`:
   * backspace, tab, line feed, form feed, carriage return, quote and
   * backslash have one.
   */
  function ShortEscape(u: CodeUnit): Option<CodeUnit> {
    if u == 0x08 then Some(0x62)
    else if u == 0x09 then Some(0x74)
    else if u == 0x0A then Some(0x6E)
    else if u == 0x0C then Some(0x66)
    else if u == 0x0D then Some(0x72)
    else if u == Quote || u == Backslash then Some(u)
    else None
  }

  /**
   * How QuoteJSONString writes one code unit that is not half of a
   * surrogate pair: a two-character escape where there is one; `\u` and
   * four lower-case digits for the other control characters and for a lone
   * surrogate; the unit itself otherwise.
   */
  function EscapeUnit(u: CodeUnit): (r: JsString)
    ensures r != []
    ensures forall i :: 0 <= i < |r| ==> r[i] >= 0x20 && !IsHighSurrogate(r[i]) && !IsLowSurrogate(r[i])
  {
    match ShortEscape(u)
    case Some(c) => [Backslash, c]
    case None =>
      if u < 0x20 || IsHighSurrogate(u) || IsLowSurrogate(u) then [Backslash, 0x75] + Hex4(u)
      else [u]
  }

  /** The body of a quoted string: a surrogate pair is copied as it is. */
  function EscapeChars(s: JsString): (r: JsString)
    ensures forall i :: 0 <= i < |r| ==> r[i] >= 0x20
    decreases |s|
  {
    if s == [] then []
    else if |s| >= 2 && IsHighSurrogate(s[0]) && IsLowSurrogate(s[1]) then [s[0], s[1]] + EscapeChars(s[2..])
    else EscapeUnit(s[0]) + EscapeChars(s[1..])
  }

  /** A JSON string literal holding `s`. */
  function QuoteString(s: JsString): (r: JsString)
    ensures |r| >= 2 && r[0] == Quote && r[|r| - 1] == Quote
  {
    [Quote] + EscapeChars(s) + [Quote]
  }

  /** The quoted strings of `tags`, separated by commas. */
  function JoinQuoted(tags: seq<JsString>): (r: JsString)
    ensures r == [] <==> tags == []
    ensures tags != [] ==> r[0] == Quote && r[|r| - 1] == Quote
    decreases |tags|
  {
    if tags == [] then []
    else if |tags| == 1 then QuoteString(tags[0])
    else QuoteString(tags[0]) + [Comma] + JoinQuoted(tags[1..])
  }

  /** `JSON.stringify(tags)`: a JSON array of string literals, no whitespace. */
  function EncodeTags(tags: seq<JsString>): (r: JsString)
    ensures |r| >= 2 && r[0] == LBracket && r[|r| - 1] == RBracket
  {
    [LBracket] + JoinQuoted(tags) + [RBracket]
  }

  // ---------------------------------------------------------------------
  // Round trip: whatever the writer stores, the reader gets back.

  lemma {:induction false} HexDigitValue(d: int)
    requires 0 <= d < 16
    ensures HexValue(HexDigit(d)) == Some(d)
  {
  }

  lemma HexPlaces(u: CodeUnit)
    ensures u / 0x1000 * 0x1000 + u / 0x100 % 0x10 * 0x100 + u / 0x10 % 0x10 * 0x10 + u % 0x10 == u
  {
    assert u == (u / 0x10) * 0x10 + u % 0x10;
    assert u / 0x10 == (u / 0x100) * 0x10 + u / 0x10 % 0x10;
    assert u / 0x100 == (u / 0x1000) * 0x10 + u / 0x100 % 0x10;
  }

  lemma Hex4RoundTrip(u: CodeUnit)
    ensures ParseHex4(Hex4(u)) == Some(u)
  {
    HexDigitValue(u / 0x1000);
    HexDigitValue(u / 0x100 % 0x10);
    HexDigitValue(u / 0x10 % 0x10);
    HexDigitValue(u % 0x10);
    HexPlaces(u);
  }

  /** A two-character escape stands for the unit it was written for. */
  lemma ShortEscapeStep(u: CodeUnit, t: JsString)
    requires ShortEscape(u).Some?
    ensures ParseChars([Backslash, ShortEscape(u).value] + t) == PrependChars([u], ParseChars(t))
  {
    var s := [Backslash, ShortEscape(u).value] + t;
    assert Unescape(ShortEscape(u).value) == Some(u);
    assert s[1..][1..] == t;
  }

  /** A `\u` escape stands for the unit whose digits it carries. */
  lemma UnicodeEscapeStep(u: CodeUnit, t: JsString)
    ensures ParseChars([Backslash, 0x75] + Hex4(u) + t) == PrependChars([u], ParseChars(t))
  {
    var h := Hex4(u);
    var e := [0x75, h[0], h[1], h[2], h[3]] + t;
    assert [Backslash, 0x75] + Hex4(u) + t == [Backslash] + e;
    assert ([Backslash] + e)[1..] == e;
    assert e[1..5] == h;
    Hex4RoundTrip(u);
    assert e[5..] == t;
  }

  /** Reading the escape written for `u` gives back `u`. */
  lemma EscapeUnitRoundTrip(u: CodeUnit, t: JsString)
    ensures ParseChars(EscapeUnit(u) + t) == PrependChars([u], ParseChars(t))
  {
    if ShortEscape(u).Some? {
      ShortEscapeStep(u, t);
    } else if u < 0x20 || IsHighSurrogate(u) || IsLowSurrogate(u) {
      UnicodeEscapeStep(u, t);
    } else {
      LiteralStep(u, t);
    }
  }

  /** A code unit that needs no escape stands for itself. */
  lemma LiteralStep(u: CodeUnit, t: JsString)
    requires 0x20 <= u && u != Quote && u != Backslash
    ensures ParseChars([u] + t) == PrependChars([u], ParseChars(t))
  {
    assert ([u] + t)[1..] == t;
  }

  lemma ConcatAssoc<T>(a: seq<T>, b: seq<T>, c: seq<T>)
    ensures a + b + c == a + (b + c)
  {
  }

  lemma PairLayout(s: JsString, t: JsString)
    requires |s| >= 2 && IsHighSurrogate(s[0]) && IsLowSurrogate(s[1])
    ensures EscapeChars(s) + t == [s[0]] + ([s[1]] + (EscapeChars(s[2..]) + t))
  {
    assert EscapeChars(s) == [s[0]] + [s[1]] + EscapeChars(s[2..]);
    ConcatAssoc([s[0]] + [s[1]], EscapeChars(s[2..]), t);
    ConcatAssoc([s[0]], [s[1]], EscapeChars(s[2..]) + t);
  }

  lemma PrependSplit(s: JsString, r: Option<(JsString, JsString)>)
    requires s != []
    ensures PrependChars([s[0]], PrependChars(s[1..], r)) == PrependChars(s, r)
  {
    match r
    case None =>
    case Some((cs, rest)) =>
      ConcatAssoc([s[0]], s[1..], cs);
      assert [s[0]] + s[1..] == s;
  }

  /** The step of the round trip for a surrogate pair, copied as it is. */
  lemma PairStep(s: JsString, t: JsString)
    requires |s| >= 2 && IsHighSurrogate(s[0]) && IsLowSurrogate(s[1])
    requires ParseChars(EscapeChars(s[2..]) + t) == PrependChars(s[2..], ParseChars(t))
    ensures ParseChars(EscapeChars(s) + t) == PrependChars(s, ParseChars(t))
  {
    var tail := EscapeChars(s[2..]) + t;
    PairLayout(s, t);
    LiteralStep(s[1], tail);
    LiteralStep(s[0], [s[1]] + tail);
    PrependSplit(s[1..], ParseChars(t));
    assert s[1..][1..] == s[2..];
    PrependSplit(s, ParseChars(t));
  }

  /** The step of the round trip for a unit written on its own. */
  lemma UnitStep(s: JsString, t: JsString)
    requires s != [] && !(|s| >= 2 && IsHighSurrogate(s[0]) && IsLowSurrogate(s[1]))
    requires ParseChars(EscapeChars(s[1..]) + t) == PrependChars(s[1..], ParseChars(t))
    ensures ParseChars(EscapeChars(s) + t) == PrependChars(s, ParseChars(t))
  {
    var tail := EscapeChars(s[1..]) + t;
    EscapeUnitRoundTrip(s[0], tail);
    ConcatAssoc(EscapeUnit(s[0]), EscapeChars(s[1..]), t);
    PrependSplit(s, ParseChars(t));
  }

  /** Reading the body written for `s` gives back `s`, whatever text follows it. */
  lemma {:induction false} EscapeCharsRoundTrip(s: JsString, t: JsString)
    ensures ParseChars(EscapeChars(s) + t) == PrependChars(s, ParseChars(t))
    decreases |s|
  {
    if s == [] {
      assert EscapeChars(s) + t == t;
      match ParseChars(t)
      case None =>
      case Some((cs, rest)) => assert s + cs == cs;
    } else if |s| >= 2 && IsHighSurrogate(s[0]) && IsLowSurrogate(s[1]) {
      EscapeCharsRoundTrip(s[2..], t);
      PairStep(s, t);
    } else {
      EscapeCharsRoundTrip(s[1..], t);
      UnitStep(s, t);
    }
  }

  /** Reading a quoted string the writer produced gives back the string. */
  lemma QuoteStringRoundTrip(s: JsString, rest: JsString)
    ensures ParseChars(EscapeChars(s) + [Quote] + rest) == Some((s, rest))
  {
    EscapeCharsRoundTrip(s, [Quote] + rest);
    ConcatAssoc(EscapeChars(s), [Quote], rest);
    assert ([Quote] + rest)[1..] == rest;
    assert s + [] == s;
  }

  lemma SkipSpaceNoSpace(s: JsString)
    requires s == [] || !IsJsonSpace(s[0])
    ensures SkipSpace(s) == s
  {
  }

  /** A quoted item followed by the closing bracket ends the array. */
  lemma ParseLastItem(item: JsString, rest: JsString)
    ensures ParseItem(QuoteString(item) + [RBracket] + rest) == Some((item, false, rest))
  {
    var s := QuoteString(item) + [RBracket] + rest;
    var after := [RBracket] + rest;
    assert s[1..] == EscapeChars(item) + [Quote] + after;
    QuoteStringRoundTrip(item, after);
    SkipSpaceNoSpace(after);
    assert after[1..] == rest;
  }

  /** A quoted item followed by a comma and another literal. */
  lemma ParseNextItem(item: JsString, more: JsString)
    requires more != [] && more[0] == Quote
    ensures ParseItem(QuoteString(item) + [Comma] + more) == Some((item, true, more))
  {
    var s := QuoteString(item) + [Comma] + more;
    var after := [Comma] + more;
    assert s[1..] == EscapeChars(item) + [Quote] + after;
    QuoteStringRoundTrip(item, after);
    SkipSpaceNoSpace(after);
    assert after[1..] == more;
    SkipSpaceNoSpace(more);
  }

  lemma JoinQuotedLayout(tags: seq<JsString>, rest: JsString)
    requires |tags| >= 2
    ensures JoinQuoted(tags) + [RBracket] + rest
         == QuoteString(tags[0]) + [Comma] + (JoinQuoted(tags[1..]) + [RBracket] + rest)
    ensures JoinQuoted(tags[1..])[0] == Quote
  {
    var q := QuoteString(tags[0]) + [Comma];
    var j := JoinQuoted(tags[1..]);
    assert JoinQuoted(tags) == q + j;
    ConcatAssoc(q, j, [RBracket]);
    ConcatAssoc(q, j + [RBracket], rest);
  }

  lemma ParseItemsStep(s: JsString, item: JsString, more: JsString, items: seq<JsString>, rest: JsString)
    requires ParseItem(s) == Some((item, true, more))
    requires ParseItems(more) == Some((items, rest))
    ensures ParseItems(s) == Some(([item] + items, rest))
  {
  }

  /** Reading the items written for a non-empty `tags`, then `]`, gives back `tags`. */
  lemma {:induction false} JoinQuotedRoundTrip(tags: seq<JsString>, rest: JsString)
    requires tags != []
    ensures ParseItems(JoinQuoted(tags) + [RBracket] + rest) == Some((tags, rest))
    decreases |tags|
  {
    var x := JoinQuoted(tags) + [RBracket] + rest;
    if |tags| == 1 {
      assert x == QuoteString(tags[0]) + [RBracket] + rest;
      ParseLastItem(tags[0], rest);
      assert [tags[0]] == tags;
    } else {
      var more := JoinQuoted(tags[1..]) + [RBracket] + rest;
      JoinQuotedLayout(tags, rest);
      ParseNextItem(tags[0], more);
      JoinQuotedRoundTrip(tags[1..], rest);
      ParseItemsStep(x, tags[0], more, tags[1..], rest);
      assert [tags[0]] + tags[1..] == tags;
    }
  }

  /** `JSON.parse(JSON.stringify(tags))` gives back `tags`: the array is parsed whole. */
  lemma EncodeTagsParses(tags: seq<JsString>)
    ensures ParseArray(EncodeTags(tags)) == Some(tags)
  {
    var s := EncodeTags(tags);
    var inner := JoinQuoted(tags) + [RBracket];
    assert SkipSpace(s) == s && s[0] == LBracket by {
      SkipSpaceNoSpace(s);
    }
    assert s[1..] == inner;
    if tags == [] {
      assert SkipSpace(inner) == [RBracket] by {
        assert inner == [RBracket];
        SkipSpaceNoSpace(inner);
      }
      assert [RBracket][1..] == [];
    } else {
      assert SkipSpace(inner) == inner by {
        assert inner[0] == Quote;
        SkipSpaceNoSpace(inner);
      }
      assert ParseItems(inner) == Some((tags, [])) by {
        JoinQuotedRoundTrip(tags, []);
        assert inner == JoinQuoted(tags) + [RBracket] + [];
      }
    }
  }

  /** Decoding the column the writer produced gives back exactly the tags written. */
  lemma DecodeEncodeTags(tags: seq<JsString>)
    ensures DecodeTags(EncodeTags(tags)) == tags
  {
    EncodeTagsParses(tags);
  }
}
