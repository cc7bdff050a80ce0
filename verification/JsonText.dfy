/**
 The JSON line type generation emits for each definition, and the JSON grammar (section 7
 of RFC 8259, surrogate pairs as in section 2.1 of RFC 2781) that reads it back.
 */
module JsonText {
  import opened Sequences
  import opened Wrappers

  // ----- escaping

  function HexDigit(n: nat): char
    requires n < 16
  {
    if n < 10 then (n + '0' as int) as char else (n - 10 + 'A' as int) as char
  }

  function Hex4(u: nat): string
    requires u < 0x10000
  {
    [HexDigit(u / 0x1000), HexDigit(u / 0x100 % 16), HexDigit(u / 16 % 16), HexDigit(u % 16)]
  }

  // The UTF-16 code units of a scalar value.
  function Utf16(c: char): seq<nat>
    ensures forall i | 0 <= i < |Utf16(c)| :: Utf16(c)[i] < 0x10000
  {
    var n := c as int;
    if n < 0x10000 then [n] else [0xD800 + (n - 0x10000) / 0x400, 0xDC00 + (n - 0x10000) % 0x400]
  }

  predicate AsciiGraphic(c: char) {
    '!' <= c <= '~'
  }

  const BACKSPACE := 8 as char
  const FORM_FEED := 12 as char

  function EscapeChar(c: char): string {
    if c == BACKSPACE then "\\b"
    else if c == FORM_FEED then "\\f"
    else if c == '\n' then "\\n"
    else if c == '\r' then "\\r"
    else if c == '\t' then "\\t"
    else if c == '"' then "\\\""
    else if c == '\\' then "\\\\"
    else if c == ' ' || AsciiGraphic(c) then [c]
    else UnicodeEscapes(Utf16(c))
  }

  function UnicodeEscapes(units: seq<nat>): string
    requires forall i | 0 <= i < |units| :: units[i] < 0x10000
  {
    if units == [] then "" else "\\u" + Hex4(units[0]) + UnicodeEscapes(units[1..])
  }

  function Escape(s: string): string {
    if s == [] then [] else EscapeChar(s[0]) + Escape(s[1..])
  }

  lemma {:induction false} EscapeOfMore(s: string, c: char)
    ensures Escape(s + [c]) == Escape(s) + EscapeChar(c)
  {
    if s == [] {
      assert s + [c] == [c] && [c][1..] == [];
      assert EscapeChar(c) + [] == EscapeChar(c) == [] + EscapeChar(c);
    } else {
      EscapeOfMore(s[1..], c);
      assert (s + [c])[1..] == s[1..] + [c];
      Regroup(EscapeChar(s[0]), Escape(s[1..]), EscapeChar(c));
    }
  }

  // `escape_json`
  method EscapeJson(src: string) returns (escaped: string)
    ensures escaped == Escape(src)
  {
    escaped := [];
    for i := 0 to |src|
      invariant escaped == Escape(src[..i])
    {
      EscapeOfMore(src[..i], src[i]);
      assert src[..i + 1] == src[..i] + [src[i]];
      var c := src[i];
      match c {
        case '\n' => escaped := escaped + "\\n";
        case '\r' => escaped := escaped + "\\r";
        case '\t' => escaped := escaped + "\\t";
        case '"' => escaped := escaped + "\\\"";
        case '\\' => escaped := escaped + "\\\\";
        case ' ' => escaped := escaped + " ";
        case _ =>
          if c == BACKSPACE {
            escaped := escaped + "\\b";
          } else if c == FORM_FEED {
            escaped := escaped + "\\f";
          } else if AsciiGraphic(c) {
            escaped := escaped + [c];
          } else {
            var units := PushUnits(Utf16(c));
            escaped := escaped + units;
          }
      }
    }
    assert src[..|src|] == src;
  }

  method PushUnits(units: seq<nat>) returns (out: string)
    requires forall i | 0 <= i < |units| :: units[i] < 0x10000
    ensures out == UnicodeEscapes(units)
  {
    out := [];
    for i := 0 to |units|
      invariant out + UnicodeEscapes(units[i..]) == UnicodeEscapes(units)
    {
      assert units[i..][1..] == units[i + 1..];
      Regroup4(out, "\\u", Hex4(units[i]), UnicodeEscapes(units[i + 1..]));
      out := out + "\\u" + Hex4(units[i]);
    }
    assert out + [] == out;
  }

  // ----- reading a JSON string

  function HexValue(c: char): Option<nat> {
    if '0' <= c <= '9' then Some(c as int - '0' as int)
    else if 'A' <= c <= 'F' then Some(c as int - 'A' as int + 10)
    else if 'a' <= c <= 'f' then Some(c as int - 'a' as int + 10)
    else None
  }

  // The code unit at the front of `s`.
  function ReadHex4(s: string): (u: Option<nat>)
    ensures u.Some? ==> |s| >= 4 && u.value < 0x10000
  {
    if |s| < 4 then None
    else
      match (HexValue(s[0]), HexValue(s[1]), HexValue(s[2]), HexValue(s[3]))
      case (Some(a), Some(b), Some(c), Some(d)) => Some(0x1000 * a + 0x100 * b + 16 * c + d)
      case _ => None
  }

  // The character at the front of `s`, right after `\u`, and how much of `s` it takes: a
  // high surrogate needs its low one, and a low one alone is no character.
  function ReadUnicode(s: string): (r: Option<(char, nat)>)
    ensures r.Some? ==> 4 <= r.value.1 <= |s|
  {
    match ReadHex4(s)
    case None => None
    case Some(u) =>
      if u < 0xD800 || 0xE000 <= u then Some((u as char, 4))
      else if u < 0xDC00 && |s| >= 6 && s[4..6] == "\\u" then
        match ReadHex4(s[6..])
        case Some(v) =>
          if 0xDC00 <= v < 0xE000 then Some(((0x10000 + (u - 0xD800) * 0x400 + (v - 0xDC00)) as char, 10)) else None
        case None => None
      else None
  }

  function ReadEscape(s: string): (r: Option<(char, nat)>)
    ensures r.Some? ==> 1 <= r.value.1 <= |s|
  {
    if s == [] then None
    else
      match s[0]
      case '"' => Some(('"', 1))
      case '\\' => Some(('\\', 1))
      case '/' => Some(('/', 1))
      case 'b' => Some((BACKSPACE, 1))
      case 'f' => Some((FORM_FEED, 1))
      case 'n' => Some(('\n', 1))
      case 'r' => Some(('\r', 1))
      case 't' => Some(('\t', 1))
      case 'u' =>
        (match ReadUnicode(s[1..])
         case Some((c, n)) => Some((c, n + 1))
         case None => None)
      case _ => None
  }

  function Prepend(c: char, r: Option<(string, string)>): Option<(string, string)> {
    match r
    case Some((v, rest)) => Some(([c] + v, rest))
    case None => None
  }

  // A JSON string after its opening quote: its value, and what follows its closing quote.
  function ReadString(s: string): (r: Option<(string, string)>)
    ensures r.Some? ==> |r.value.0| + 1 + |r.value.1| <= |s|
    decreases |s|
  {
    if s == [] then None
    else if s[0] == '"' then Some(("", s[1..]))
    else if s[0] == '\\' then
      match ReadEscape(s[1..])
      case Some((c, n)) => Prepend(c, ReadString(s[1 + n..]))
      case None => None
    else if s[0] < ' ' then None
    else Prepend(s[0], ReadString(s[1..]))
  }

  // ----- a JSON string is read back

  lemma HexRoundTrip(u: nat, rest: string)
    requires u < 0x10000
    ensures ReadHex4(Hex4(u) + rest) == Some(u)
  {
    var a, b, c, d := u / 0x1000, u / 0x100 % 16, u / 16 % 16, u % 16;
    NibbleSum(u);
    var s := Hex4(u) + rest;
    assert s[0] == HexDigit(a) && s[1] == HexDigit(b) && s[2] == HexDigit(c) && s[3] == HexDigit(d);
    DigitRoundTrip(a);
    DigitRoundTrip(b);
    DigitRoundTrip(c);
    DigitRoundTrip(d);
  }

  lemma DigitRoundTrip(n: nat)
    requires n < 16
    ensures HexValue(HexDigit(n)) == Some(n)
  {
  }

  lemma NibbleSum(u: nat)
    requires u < 0x10000
    ensures 0x1000 * (u / 0x1000) + 0x100 * (u / 0x100 % 16) + 16 * (u / 16 % 16) + u % 16 == u
    ensures u / 0x1000 < 16
  {
    assert u / 0x100 == u / 16 / 16 && u / 0x1000 == u / 16 / 16 / 16;
  }

  lemma UnicodeRoundTrip(c: char, rest: string)
    ensures var e := UnicodeEscapes(Utf16(c));
      && |e| >= 6 && e[0] == '\\' && e[1] == 'u'
      && ReadUnicode(e[2..] + rest) == Some((c, |e| - 2))
  {
    var units, e := Utf16(c), UnicodeEscapes(Utf16(c));
    var hi := units[0];
    if |units| == 1 {
      assert units[1..] == [];
      assert UnicodeEscapes(units[1..]) == "";
      assert e == "\\u" + Hex4(hi) + "";
      assert e[2..] + rest == Hex4(hi) + rest;
      HexRoundTrip(hi, rest);
    } else {
      var lo := units[1];
      assert units[1..] == [lo] && [lo][1..] == [];
      assert UnicodeEscapes([lo]) == "\\u" + Hex4(lo) + "";
      SurrogatesRoundTrip(c as int, lo, rest, e[2..] + rest);
    }
  }

  lemma SurrogatesRoundTrip(n: int, lo: nat, rest: string, s: string)
    requires 0x10000 <= n < 0x110000 && lo == 0xDC00 + (n - 0x10000) % 0x400
    requires s == Hex4(0xD800 + (n - 0x10000) / 0x400) + ("\\u" + Hex4(lo)) + rest
    ensures ReadUnicode(s) == Some((n as char, 10))
  {
    var hi := 0xD800 + (n - 0x10000) / 0x400;
    SplitAtLow(Hex4(hi), Hex4(lo), rest, s);
    HexRoundTrip(hi, s[4..]);
    HexRoundTrip(lo, rest);
    PairIsRead(n, hi, lo, s);
  }

  lemma PairIsRead(n: int, hi: nat, lo: nat, s: string)
    requires 0x10000 <= n < 0x110000
    requires hi == 0xD800 + (n - 0x10000) / 0x400 && lo == 0xDC00 + (n - 0x10000) % 0x400
    requires ReadHex4(s) == Some(hi) && |s| >= 6 && s[4..6] == "\\u" && ReadHex4(s[6..]) == Some(lo)
    ensures ReadUnicode(s) == Some((n as char, 10))
  {
    assert 0xD800 <= hi < 0xDC00 <= lo < 0xE000;
    assert 0x10000 + (hi - 0xD800) * 0x400 + (lo - 0xDC00) == n;
  }

  lemma SplitAtLow(hi: string, lo: string, rest: string, s: string)
    requires |hi| == 4 && |lo| == 4 && s == hi + ("\\u" + lo) + rest
    ensures |s| >= 10 && s == hi + s[4..] && s[4..6] == "\\u" && s[6..] == lo + rest
  {
  }

  // One escaped character read back, whatever follows.
  lemma CharRoundTrip(c: char, t: string)
    ensures ReadString(EscapeChar(c) + t) == Prepend(c, ReadString(t))
  {
    var e := EscapeChar(c);
    if c in {BACKSPACE, FORM_FEED, '\n', '\r', '\t', '"', '\\'} {
      ShortRoundTrip(e[1], c, t);
      assert e == ['\\', e[1]];
    } else if c == ' ' || AsciiGraphic(c) {
      assert (e + t)[1..] == t;
    } else {
      LongRoundTrip(c, t);
    }
  }

  lemma ShortRoundTrip(e: char, c: char, t: string)
    requires e != 'u' && ReadEscape([e] + t) == Some((c, 1))
    ensures ReadString(['\\', e] + t) == Prepend(c, ReadString(t))
  {
    var s := ['\\', e] + t;
    assert s[1..] == [e] + t && s[2..] == t;
  }

  lemma LongRoundTrip(c: char, t: string)
    ensures ReadString(UnicodeEscapes(Utf16(c)) + t) == Prepend(c, ReadString(t))
  {
    var e := UnicodeEscapes(Utf16(c));
    var s := e + t;
    UnicodeRoundTrip(c, t);
    assert s[1..][1..] == e[2..] + t;
    assert s[1 + (|e| - 1)..] == t;
  }

  // Reading what `escape_json` wrote, up to the closing quote, gives the original, for
  // every string of Unicode scalar values.
  lemma {:induction false} EscapeRoundTrip(v: string, rest: string)
    ensures ReadString(Escape(v) + "\"" + rest) == Some((v, rest))
  {
    if v == [] {
      assert Escape(v) + "\"" + rest == "\"" + rest;
      assert ("\"" + rest)[1..] == rest;
    } else {
      var t := Escape(v[1..]) + "\"" + rest;
      EscapeRoundTrip(v[1..], rest);
      CharRoundTrip(v[0], t);
      Regroup4(EscapeChar(v[0]), Escape(v[1..]), "\"", rest);
      assert [v[0]] + v[1..] == v;
    }
  }

  predicate StaysAsIs(c: char) {
    ' ' <= c <= '~' && c != '"' && c != '\\'
  }

  // The short forms are used where there is one: printable ASCII stays as it is, seven
  // characters take a backslash and one more, and the rest six characters a code unit.
  lemma EscapeSize(c: char)
    ensures |EscapeChar(c)|
      == if StaysAsIs(c) then 1
         else if c in {8 as char, 9 as char, 10 as char, 12 as char, 13 as char, '"', '\\'} then 2
         else if c < 0x10000 as char then 6
         else 12
    ensures EscapeChar(c) == [c] <==> StaysAsIs(c)
  {
    if !StaysAsIs(c) {
      var units := Utf16(c);
      if |units| == 1 {
        assert units[1..] == [];
        assert |UnicodeEscapes(units)| == 6 + |UnicodeEscapes(units[1..])|;
      } else {
        assert units[1..][1..] == [];
        assert |UnicodeEscapes(units[1..])| == 6 + |UnicodeEscapes(units[1..][1..])|;
        assert |UnicodeEscapes(units)| == 6 + |UnicodeEscapes(units[1..])|;
      }
    }
  }

  // What `escape_json` writes is printable ASCII: a definition stays on its own line.
  lemma {:induction false} EscapedIsPrintable(v: string)
    ensures forall i | 0 <= i < |Escape(v)| :: ' ' <= Escape(v)[i] <= '~'
  {
    if v != [] {
      EscapedIsPrintable(v[1..]);
      UnitsArePrintable(Utf16(v[0]));
    }
  }

  lemma {:induction false} UnitsArePrintable(units: seq<nat>)
    requires forall i | 0 <= i < |units| :: units[i] < 0x10000
    ensures forall i | 0 <= i < |UnicodeEscapes(units)| :: ' ' <= UnicodeEscapes(units)[i] <= '~'
  {
    if units != [] {
      UnitsArePrintable(units[1..]);
      assert forall n: nat | n < 16 :: ' ' <= HexDigit(n) <= '~';
    }
  }

  // ----- fields written as they are

  // Free of quotes, backslashes and control characters.
  predicate Plain(s: string) {
    forall i | 0 <= i < |s| :: s[i] != '"' && s[i] != '\\' && s[i] >= ' '
  }

  // Inside quotes, `raw` reads as `v`, whatever follows.
  ghost predicate ReadsAs(raw: string, v: string) {
    forall rest: string :: ReadString(raw + "\"" + rest) == Some((v, rest))
  }

  lemma EscapedReadsBack(v: string)
    ensures ReadsAs(Escape(v), v)
  {
    forall rest: string ensures ReadString(Escape(v) + "\"" + rest) == Some((v, rest)) {
      EscapeRoundTrip(v, rest);
    }
  }

  lemma {:induction false} PlainIsRead(v: string, rest: string)
    requires Plain(v)
    ensures ReadString(v + "\"" + rest) == Some((v, rest))
  {
    if v == [] {
      assert v + "\"" + rest == "\"" + rest;
      assert ("\"" + rest)[1..] == rest;
    } else {
      PlainIsRead(v[1..], rest);
      assert (v + "\"" + rest)[1..] == v[1..] + "\"" + rest;
      assert [v[0]] + v[1..] == v;
    }
  }

  // A value as long as its text was written without an escape.
  lemma {:induction false} FullLengthIsPlain(s: string)
    requires ReadString(s).Some? && |ReadString(s).value.0| + 1 + |ReadString(s).value.1| == |s|
    ensures Plain(ReadString(s).value.0) && ReadString(s).value.0 <= s
    decreases |s|
  {
    if s[0] != '"' && s[0] != '\\' {
      FullLengthIsPlain(s[1..]);
    }
  }

  // A field written without escaping is read back exactly when it is plain.
  lemma RawFieldExactly(raw: string)
    ensures ReadsAs(raw, raw) <==> Plain(raw)
  {
    if Plain(raw) {
      forall rest: string ensures ReadString(raw + "\"" + rest) == Some((raw, rest)) {
        PlainIsRead(raw, rest);
      }
    } else if ReadsAs(raw, raw) {
      var s := raw + "\"" + "";
      assert ReadString(s) == Some((raw, ""));
      FullLengthIsPlain(s);
    }
  }

  // ----- a field that is not plain never reads as itself

  function Quotes(s: string): nat {
    if s == [] then 0 else (if s[0] == '"' then 1 else 0) + Quotes(s[1..])
  }

  lemma {:induction false} QuotesOfSum(a: string, b: string)
    ensures Quotes(a + b) == Quotes(a) + Quotes(b)
  {
    if a == [] {
      assert a + b == b;
    } else {
      assert (a + b)[1..] == a[1..] + b;
      QuotesOfSum(a[1..], b);
    }
  }

  lemma {:induction false} NoQuotes(s: string)
    requires forall i | 0 <= i < |s| :: s[i] != '"'
    ensures Quotes(s) == 0
  {
    if s != [] {
      NoQuotes(s[1..]);
    }
  }

  lemma HexHasNoQuote(s: string)
    requires ReadHex4(s).Some?
    ensures forall i | 0 <= i < 4 :: s[i] != '"'
  {
  }

  lemma UnicodeHasNoQuote(s: string)
    requires ReadUnicode(s).Some?
    ensures forall i | 0 <= i < ReadUnicode(s).value.1 :: s[i] != '"'
  {
    HexHasNoQuote(s);
    if ReadUnicode(s).value.1 == 10 {
      HexHasNoQuote(s[6..]);
      assert s[4] == s[4..6][0] && s[5] == s[4..6][1];
      forall i | 0 <= i < 10
        ensures s[i] != '"'
      {
        assert i >= 6 ==> s[i] == s[6..][i - 6];
      }
    }
  }

  // An escape takes a quote only to yield one.
  lemma EscapeKeepsQuotes(s: string)
    requires ReadEscape(s).Some?
    ensures var (c, n) := ReadEscape(s).value;
      Quotes(s[..n]) <= if c == '"' then 1 else 0
  {
    var (c, n) := ReadEscape(s).value;
    if s[0] == '"' {
      assert s[..n] == ['"'];
    } else {
      if s[0] == 'u' {
        UnicodeHasNoQuote(s[1..]);
        assert forall i | 1 <= i < n :: s[i] == s[1..][i - 1];
      }
      NoQuotes(s[..n]);
    }
  }

  // How much of `s` the reader takes before the closing quote.
  function Taken(s: string): nat
    requires ReadString(s).Some?
  {
    |s| - 1 - |ReadString(s).value.1|
  }

  // Every quote taken inside a string is in its value.
  lemma {:induction false} ValueKeepsQuotes(s: string)
    requires ReadString(s).Some?
    ensures Quotes(s[..Taken(s)]) <= Quotes(ReadString(s).value.0)
    decreases |s|
  {
    if s[0] != '"' {
      var n := if s[0] == '\\' then 1 + ReadEscape(s[1..]).value.1 else 1;
      var rest, v := s[n..], ReadString(s).value.0;
      ValueKeepsQuotes(rest);
      assert s[..Taken(s)] == s[..n] + rest[..Taken(rest)];
      QuotesOfSum(s[..n], rest[..Taken(rest)]);
      QuotesOfFront(s, n);
      assert v[1..] == ReadString(rest).value.0;
    }
  }

  lemma QuotesOfFront(s: string, n: nat)
    requires ReadString(s).Some? && s[0] != '"'
    requires n == if s[0] == '\\' then 1 + ReadEscape(s[1..]).value.1 else 1
    ensures n <= |s| && Quotes(s[..n]) <= if ReadString(s).value.0[0] == '"' then 1 else 0
  {
    if s[0] == '\\' {
      EscapeKeepsQuotes(s[1..]);
      assert s[..n][1..] == s[1..][..n - 1];
    } else {
      assert s[..1] == [s[0]];
    }
  }

  lemma OwnQuoteCounts(raw: string, tail: string, k: nat)
    requires |raw| < k <= |raw + "\"" + tail|
    ensures Quotes((raw + "\"" + tail)[..k]) > Quotes(raw)
  {
    var s := raw + "\"" + tail;
    assert s[..k] == raw + s[|raw|..k];
    QuotesOfSum(raw, s[|raw|..k]);
    assert s[|raw|..k][0] == '"';
  }

  // If the reader makes a field of itself, it stops at the field's own quote: the quote
  // would otherwise have been taken into a value that has one quote too few for it.
  lemma SelfReadingIsPlain(raw: string, tail: string)
    requires ReadString(raw + "\"" + tail).Some? && ReadString(raw + "\"" + tail).value.0 == raw
    ensures Plain(raw)
  {
    var s := raw + "\"" + tail;
    if Taken(s) > |raw| {
      ValueKeepsQuotes(s);
      OwnQuoteCounts(raw, tail, Taken(s));
    }
    FullLengthIsPlain(s);
  }

  // ----- the line

  datatype TypeDef = TypeDef(
    kind: string,
    name: string,
    original_name: Option<string>,
    def: string,
    js_mod: Option<string>,
    js_doc: string // as rendered
  )

  datatype Member = Member(key: string, value: string)

  // The members of a line, as values and as they are written between quotes.
  function Members(t: TypeDef): seq<Member> {
    [Member("kind", t.kind), Member("name", t.name), Member("js_doc", t.js_doc), Member("def", t.def)]
    + (if t.original_name.Some? then [Member("original_name", t.original_name.value)] else [])
    + (if t.js_mod.Some? then [Member("js_mod", t.js_mod.value)] else [])
  }

  function Written(t: TypeDef): seq<Member> {
    Members(t.(js_doc := Escape(t.js_doc), def := Escape(t.def)))
  }

  function Line(ms: seq<Member>): string {
    "{" + Joined(ms) + "}"
  }

  function Quoted(m: Member): string {
    "\"" + m.key + "\": \"" + m.value + "\""
  }

  function Joined(ms: seq<Member>): string {
    if ms == [] then ""
    else if |ms| == 1 then Quoted(ms[0])
    else Quoted(ms[0]) + ", " + Joined(ms[1..])
  }

  // `Display for TypeDef`
  method Display(t: TypeDef) returns (out: string)
    ensures out == Line(Written(t))
  {
    var js_mod := if t.js_mod.Some? then ", " + Quoted(Member("js_mod", t.js_mod.value)) else "";
    var original_name :=
      if t.original_name.Some? then ", " + Quoted(Member("original_name", t.original_name.value)) else "";
    var js_doc := EscapeJson(t.js_doc);
    var def := EscapeJson(t.def);
    out := "{" + (Quoted(Member("kind", t.kind)) + (", " + Quoted(Member("name", t.name)))
      + (", " + Quoted(Member("js_doc", js_doc))) + (", " + Quoted(Member("def", def)))
      + original_name + js_mod) + "}";
    JoinedSix(Member("kind", t.kind), Member("name", t.name), Member("js_doc", js_doc), Member("def", def),
      if t.original_name.Some? then [Member("original_name", t.original_name.value)] else [],
      if t.js_mod.Some? then [Member("js_mod", t.js_mod.value)] else []);
  }

  lemma {:induction false} JoinedOfMore(ms: seq<Member>, m: Member)
    requires ms != []
    ensures Joined(ms + [m]) == Joined(ms) + (", " + Quoted(m))
  {
    var more := ms + [m];
    if |ms| == 1 {
      assert more[1..] == [m];
      assert Joined(more) == Quoted(ms[0]) + ", " + Joined([m]);
      Regroup(Quoted(ms[0]), ", ", Quoted(m));
    } else {
      JoinedOfMore(ms[1..], m);
      assert more[1..] == ms[1..] + [m];
      Regroup(Quoted(ms[0]) + ", ", Joined(ms[1..]), ", " + Quoted(m));
    }
  }

  function Optional(ms: seq<Member>): string {
    if |ms| == 1 then ", " + Quoted(ms[0]) else ""
  }

  lemma JoinedSix(a: Member, b: Member, c: Member, d: Member, e: seq<Member>, f: seq<Member>)
    requires |e| <= 1 && |f| <= 1
    ensures Joined([a, b, c, d] + e + f) ==
      Quoted(a) + (", " + Quoted(b)) + (", " + Quoted(c)) + (", " + Quoted(d)) + Optional(e) + Optional(f)
  {
    JoinedOfMore([a], b);
    JoinedOfMore([a, b], c);
    JoinedOfMore([a, b, c], d);
    assert [a] + [b] == [a, b] && [a, b] + [c] == [a, b, c] && [a, b, c] + [d] == [a, b, c, d];
    JoinedOptional([a, b, c, d], e);
    JoinedOptional([a, b, c, d] + e, f);
  }

  lemma JoinedOptional(ms: seq<Member>, more: seq<Member>)
    requires ms != [] && |more| <= 1
    ensures Joined(ms + more) == Joined(ms) + Optional(more)
  {
    if more == [] {
      assert ms + more == ms;
    } else {
      assert more == [more[0]];
      JoinedOfMore(ms, more[0]);
    }
  }

  function SkipSpaces(s: string): (t: string)
    ensures |t| <= |s|
  {
    if s != [] && s[0] in " \t\n\r" then SkipSpaces(s[1..]) else s
  }

  predicate Starts(s: string, c: char) {
    s != [] && s[0] == c
  }

  // A JSON object with string members only.
  function ReadObject(s: string): Option<seq<Member>> {
    if !Starts(s, '{') then None
    else
      match ReadMembers(s[1..])
      case Some((ms, rest)) => if SkipSpaces(rest) == [] then Some(ms) else None
      case None => None
  }

  function ReadMembers(s: string): Option<(seq<Member>, string)>
    decreases |s|
  {
    match ReadMember(SkipSpaces(s))
    case None => None
    case Some((m, end)) =>
      if Starts(end, '}') then Some(([m], end[1..]))
      else if !Starts(end, ',') then None
      else
        match ReadMembers(end[1..])
        case Some((ms, rest)) => Some(([m] + ms, rest))
        case None => None
  }

  // One member, and what follows it but spaces.
  function ReadMember(s: string): (r: Option<(Member, string)>)
    ensures r.Some? ==> |r.value.1| < |s|
  {
    if !Starts(s, '"') then None
    else
      match ReadString(s[1..])
      case None => None
      case Some((key, afterKey)) =>
        var colon := SkipSpaces(afterKey);
        if !Starts(colon, ':') then None
        else
          var value := SkipSpaces(colon[1..]);
          if !Starts(value, '"') then None
          else
            match ReadString(value[1..])
            case None => None
            case Some((v, afterValue)) => Some((Member(key, v), SkipSpaces(afterValue)))
  }

  // ----- the line is read back

  ghost predicate MemberReadsAs(raw: Member, m: Member) {
    raw.key == m.key && ReadsAs(m.key, m.key) && ReadsAs(raw.value, m.value)
  }

  // One member read: its key is as written, its value is what the reader makes of it.
  lemma FrontValue(raw: Member, tail: string)
    requires ReadsAs(raw.key, raw.key)
    ensures Starts(Quoted(raw) + tail, '"')
    ensures ReadMember(Quoted(raw) + tail) ==
      match ReadString(raw.value + "\"" + tail)
      case None => None
      case Some((v, after)) => Some((Member(raw.key, v), SkipSpaces(after)))
  {
    var s, afterKey := Quoted(raw) + tail, AfterKey(raw.value, tail);
    assert s[1..] == raw.key + "\"" + afterKey;
    ColonPart(raw.value, tail);
  }

  lemma FrontMember(raw: Member, m: Member, tail: string)
    requires MemberReadsAs(raw, m)
    ensures Starts(Quoted(raw) + tail, '"')
    ensures ReadMember(Quoted(raw) + tail) == Some((m, SkipSpaces(tail)))
  {
    FrontValue(raw, tail);
  }

  function AfterKey(v: string, tail: string): string {
    ": \"" + v + "\"" + tail
  }

  lemma ColonPart(v: string, tail: string)
    ensures var s := AfterKey(v, tail);
      && Starts(s, ':') && SkipSpaces(s) == s
      && Starts(SkipSpaces(s[1..]), '"') && SkipSpaces(s[1..])[1..] == v + "\"" + tail
  {
    var s := AfterKey(v, tail);
    assert s[1..] == " " + ("\"" + v + "\"" + tail);
    assert s[1..][1..] == "\"" + v + "\"" + tail;
    assert SkipSpaces(s[1..]) == s[1..][1..];
  }

  lemma FirstOfMany(raw: Member, m: Member, tail: string)
    requires MemberReadsAs(raw, m)
    ensures SkipSpaces(Quoted(raw) + tail) == Quoted(raw) + tail
    ensures ReadMember(SkipSpaces(Quoted(raw) + tail)) == Some((m, SkipSpaces(tail)))
  {
    FrontMember(raw, m, tail);
  }

  lemma LastMember(raw: Member, m: Member, rest: string)
    requires MemberReadsAs(raw, m)
    ensures ReadMembers(Quoted(raw) + ("}" + rest)) == Some(([m], rest))
  {
    FirstOfMany(raw, m, "}" + rest);
    AfterSign('}', rest);
  }

  lemma MemberAndMore(raw: Member, m: Member, next: string, ms: seq<Member>, rest: string)
    requires MemberReadsAs(raw, m) && ReadMembers(next) == Some((ms, rest))
    ensures ReadMembers(Quoted(raw) + (", " + next)) == Some(([m] + ms, rest))
  {
    FirstOfMany(raw, m, ", " + next);
    assert ", " + next == [','] + (" " + next);
    AfterSign(',', " " + next);
    LeadingSpace(next);
    CommaThen(Quoted(raw) + (", " + next), m, ", " + next, ms, rest);
  }

  lemma CommaThen(s: string, m: Member, end: string, ms: seq<Member>, rest: string)
    requires ReadMember(SkipSpaces(s)) == Some((m, end)) && Starts(end, ',')
    requires ReadMembers(end[1..]) == Some((ms, rest))
    ensures ReadMembers(s) == Some(([m] + ms, rest))
  {
  }

  lemma AfterSign(c: char, rest: string)
    requires c == ',' || c == '}'
    ensures var s := [c] + rest;
      SkipSpaces(s) == s && Starts(s, c) && !Starts(s, if c == ',' then '}' else ',') && s[1..] == rest
  {
  }

  lemma {:induction false} MembersReadBack(raw: seq<Member>, ms: seq<Member>, rest: string)
    requires |raw| == |ms| > 0 && forall i | 0 <= i < |raw| :: MemberReadsAs(raw[i], ms[i])
    ensures ReadMembers(Joined(raw) + ("}" + rest)) == Some((ms, rest))
    decreases |raw|
  {
    if |raw| == 1 {
      LastMember(raw[0], ms[0], rest);
      assert ms == [ms[0]];
    } else {
      var next := Joined(raw[1..]) + ("}" + rest);
      MembersReadBack(raw[1..], ms[1..], rest);
      MemberAndMore(raw[0], ms[0], next, ms[1..], rest);
      NestTail(Quoted(raw[0]), ", ", Joined(raw[1..]), "}" + rest);
      assert ms == [ms[0]] + ms[1..];
    }
  }

  lemma NestTail(a: string, b: string, c: string, d: string)
    ensures a + b + c + d == a + (b + (c + d))
  {
  }

  lemma LeadingSpace(s: string)
    ensures ReadMembers(" " + s) == ReadMembers(s)
  {
    assert (" " + s)[1..] == s;
  }

  // The fields a line shows as they are.
  predicate RawFieldsPlain(t: TypeDef) {
    && Plain(t.kind) && Plain(t.name)
    && (t.original_name.Some? ==> Plain(t.original_name.value))
    && (t.js_mod.Some? ==> Plain(t.js_mod.value))
  }

  // A member either reads as meant, or is written as it is.
  ghost predicate MayRead(raw: Member, m: Member) {
    raw.key == m.key && ReadsAs(m.key, m.key) && (ReadsAs(raw.value, m.value) || raw.value == m.value)
  }

  lemma FirstReadsAs(raw: Member, m: Member, tail: string)
    requires MayRead(raw, m)
    requires ReadMember(SkipSpaces(Quoted(raw) + tail)).Some?
    requires ReadMember(SkipSpaces(Quoted(raw) + tail)).value.0 == m
    ensures MemberReadsAs(raw, m)
  {
    FrontValue(raw, tail);
    if raw.value == m.value {
      SelfReadingIsPlain(raw.value, tail);
      RawFieldExactly(raw.value);
    }
  }

  // If the members of a line are read back, every one of them reads as meant.
  lemma {:induction false} OnlyWhenEachReads(raw: seq<Member>, ms: seq<Member>, rest: string)
    requires |raw| == |ms| > 0 && forall i | 0 <= i < |raw| :: MayRead(raw[i], ms[i])
    requires ReadMembers(Joined(raw) + ("}" + rest)).Some? && ReadMembers(Joined(raw) + ("}" + rest)).value.0 == ms
    ensures forall i | 0 <= i < |raw| :: MemberReadsAs(raw[i], ms[i])
    decreases |raw|
  {
    if |raw| == 1 {
      FirstReadsAs(raw[0], ms[0], "}" + rest);
    } else {
      var next := Joined(raw[1..]) + ("}" + rest);
      NestTail(Quoted(raw[0]), ", ", Joined(raw[1..]), "}" + rest);
      FirstReadsAs(raw[0], ms[0], ", " + next);
      RestIsRead(raw[0], ms[0], next);
      OnlyWhenEachReads(raw[1..], ms[1..], rest);
      forall i | 0 <= i < |raw|
        ensures MemberReadsAs(raw[i], ms[i])
      {
        assert i > 0 ==> raw[i] == raw[1..][i - 1] && ms[i] == ms[1..][i - 1];
      }
    }
  }

  lemma RestIsRead(raw: Member, m: Member, next: string)
    requires MemberReadsAs(raw, m) && ReadMembers(Quoted(raw) + (", " + next)).Some?
    ensures ReadMembers(next).Some?
    ensures ReadMembers(Quoted(raw) + (", " + next)).value.0 == [m] + ReadMembers(next).value.0
  {
    FirstOfMany(raw, m, ", " + next);
    assert ", " + next == [','] + (" " + next);
    AfterSign(',', " " + next);
    LeadingSpace(next);
  }

  // A line parses back to exactly its fields if and only if those it shows unescaped are
  // free of quotes, backslashes and control characters.
  lemma LineReadsBackExactly(t: TypeDef)
    ensures ReadObject(Line(Written(t))) == Some(Members(t)) <==> RawFieldsPlain(t)
  {
    var raw, ms := Written(t), Members(t);
    EachMayRead(t);
    EscapedReadsBack(t.js_doc);
    EscapedReadsBack(t.def);
    if RawFieldsPlain(t) {
      forall i | 0 <= i < |raw| ensures MemberReadsAs(raw[i], ms[i]) {
        RawFieldExactly(ms[i].value);
        MemberCases(t, i);
      }
      ObjectReadsBack(raw, ms);
    } else if ReadObject(Line(raw)) == Some(ms) {
      BetweenBraces(Joined(raw));
      OnlyWhenEachReads(raw, ms, "");
      EachReadsMeansPlain(t);
    }
  }

  lemma EachMayRead(t: TypeDef)
    ensures |Written(t)| == |Members(t)| > 0
    ensures forall i | 0 <= i < |Written(t)| :: MayRead(Written(t)[i], Members(t)[i])
  {
    EscapedReadsBack(t.js_doc);
    EscapedReadsBack(t.def);
    KeysArePlain();
    forall i | 0 <= i < |Written(t)|
      ensures MayRead(Written(t)[i], Members(t)[i])
    {
      RawFieldExactly(Members(t)[i].key);
      MemberCases(t, i);
    }
  }

  lemma EachReadsMeansPlain(t: TypeDef)
    requires |Written(t)| == |Members(t)|
    requires forall i | 0 <= i < |Written(t)| :: MemberReadsAs(Written(t)[i], Members(t)[i])
    ensures RawFieldsPlain(t)
  {
    var raw, ms := Written(t), Members(t);
    assert MemberReadsAs(raw[0], ms[0]) && MemberReadsAs(raw[1], ms[1]);
    RawFieldExactly(t.kind);
    RawFieldExactly(t.name);
    if t.original_name.Some? {
      assert MemberReadsAs(raw[4], ms[4]);
      RawFieldExactly(t.original_name.value);
    }
    if t.js_mod.Some? {
      assert MemberReadsAs(raw[|raw| - 1], ms[|raw| - 1]);
      RawFieldExactly(t.js_mod.value);
    }
  }

  lemma MemberCases(t: TypeDef, i: nat)
    requires i < |Members(t)|
    ensures |Written(t)| == |Members(t)|
    ensures var raw, m := Written(t)[i], Members(t)[i];
      && raw.key == m.key && m.key in {"kind", "name", "js_doc", "def", "original_name", "js_mod"}
      && (raw == m || (m.value == t.js_doc && raw.value == Escape(m.value)) || (m.value == t.def && raw.value == Escape(m.value)))
      && (raw == m ==> Plain(m.value) || !RawFieldsPlain(t) || m.value == t.js_doc || m.value == t.def)
  {
  }

  lemma ObjectReadsBack(raw: seq<Member>, ms: seq<Member>)
    requires |raw| == |ms| > 0 && forall i | 0 <= i < |raw| :: MemberReadsAs(raw[i], ms[i])
    ensures ReadObject(Line(raw)) == Some(ms)
  {
    MembersReadBack(raw, ms, "");
    BetweenBraces(Joined(raw));
  }

  lemma BetweenBraces(s: string)
    ensures Starts("{" + s + "}", '{') && ("{" + s + "}")[1..] == s + ("}" + "")
  {
  }

  lemma KeysArePlain()
    ensures Plain("kind") && Plain("name") && Plain("js_doc") && Plain("def")
    ensures Plain("original_name") && Plain("js_mod")
  {
  }

  // The value of the first member with this key.
  function ValueOf(ms: seq<Member>, key: string): Option<string> {
    if ms == [] then None else if ms[0].key == key then Some(ms[0].value) else ValueOf(ms[1..], key)
  }

  lemma ValueInFront(m: Member, ms: seq<Member>, key: string)
    ensures ValueOf([m] + ms, key) == if m.key == key then Some(m.value) else ValueOf(ms, key)
  {
    assert ([m] + ms)[1..] == ms;
  }

  lemma MembersUnderTheirNames(t: TypeDef, key: string)
    ensures ValueOf(Members(t), key) ==
      if key == "kind" then Some(t.kind)
      else if key == "name" then Some(t.name)
      else if key == "js_doc" then Some(t.js_doc)
      else if key == "def" then Some(t.def)
      else if key == "original_name" then t.original_name
      else if key == "js_mod" then t.js_mod
      else None
  {
    var mods := if t.js_mod.Some? then [Member("js_mod", t.js_mod.value)] else [];
    var names := if t.original_name.Some? then [Member("original_name", t.original_name.value)] + mods else mods;
    var a, b, c, d := Member("kind", t.kind), Member("name", t.name), Member("js_doc", t.js_doc), Member("def", t.def);
    assert Members(t) == [a] + ([b] + ([c] + ([d] + names)));
    ValueInFront(a, [b] + ([c] + ([d] + names)), key);
    ValueInFront(b, [c] + ([d] + names), key);
    ValueInFront(c, [d] + names, key);
    ValueInFront(d, names, key);
    if t.original_name.Some? {
      ValueInFront(Member("original_name", t.original_name.value), mods, key);
    }
    assert mods == [] || mods[1..] == [];
  }

  // A reader of the line finds each field of the definition under its own name, an absent
  // one not at all, and nothing under any other.
  lemma FieldsUnderTheirNames(t: TypeDef, key: string)
    requires RawFieldsPlain(t)
    ensures var r := ReadObject(Line(Written(t)));
      r.Some? && ValueOf(r.value, key) ==
        if key == "kind" then Some(t.kind)
        else if key == "name" then Some(t.name)
        else if key == "js_doc" then Some(t.js_doc)
        else if key == "def" then Some(t.def)
        else if key == "original_name" then t.original_name
        else if key == "js_mod" then t.js_mod
        else None
  {
    LineReadsBackExactly(t);
    MembersUnderTheirNames(t, key);
  }
}
