/**
 `try_unescape`: turning the literal of a doc attribute back into its text.
 */
module DocUnescape {
  import opened Sequences
  import opened Wrappers

  // What `unescape_unicode` takes a digit for: the letters count from zero.
  function DigitTaken(c: char): Option<nat> {
    if '0' <= c <= '9' then Some(c as int - '0' as int)
    else if 'a' <= c <= 'f' then Some(c as int - 'a' as int)
    else if 'A' <= c <= 'F' then Some(c as int - 'A' as int)
    else None
  }

  predicate IsScalar(value: nat) {
    value < 0xD800 || 0xE000 <= value < 0x110000
  }

  // `char::from_u32`
  function FromU32(value: nat): Option<char> {
    if IsScalar(value) then Some(value as char) else None
  }

  // The digits at the front of `s`, the `i`-th onwards: the character they come to, the
  // character that ended them, and the rest.
  function Digits(s: string, i: nat, value: nat): (r: Option<(char, char, string)>)
    ensures r.Some? ==> |r.value.2| < |s|
  {
    if s == [] then None
    else
      match DigitTaken(s[0])
      case Some(num) => if i >= 6 then None else Digits(s[1..], i + 1, value * 16 + num)
      case None =>
        if i == 0 then None
        else
          match FromU32(value)
          case Some(c) => Some((c, s[0], s[1..]))
          case None => None
  }

  function Simple(c: char): Option<char> {
    match c
    case 't' => Some('\t')
    case 'r' => Some('\r')
    case 'n' => Some('\n')
    case '\\' => Some(c)
    case '\'' => Some(c)
    case '"' => Some(c)
    case _ => None
  }

  function Prepend(text: string, r: Option<string>): Option<string> {
    match r
    case Some(s) => Some(text + s)
    case None => None
  }

  // One escape, after its backslash: the character, and the rest.
  function Escape(s: string): (r: Option<(char, string)>)
    ensures r.Some? ==> |r.value.1| < |s|
  {
    if s == [] then None
    else if s[0] == 'u' then
      if |s| < 2 || s[1] != '{' then None
      else
        match Digits(s[2..], 0, 0)
        case Some((c, next, rest)) => if next == '}' then Some((c, rest)) else None
        case None => None
    else
      match Simple(s[0])
      case Some(c) => Some((c, s[1..]))
      case None => None
  }

  // The text pushed for `s`; a quote at the very start is ignored.
  function Pushed(s: string, start: bool): Option<string>
    decreases |s|
  {
    if s == [] then Some("")
    else if start && s[0] == '"' then Pushed(s[1..], false)
    else if s[0] == '\\' then
      match Escape(s[1..])
      case Some((c, rest)) => Prepend([c], Pushed(rest, false))
      case None => None
    else Prepend([s[0]], Pushed(s[1..], false))
  }

  function DropLastQuote(s: string): string {
    if s != [] && s[|s| - 1] == '"' then s[..|s| - 1] else s
  }

  function Unescaped(s: string): Option<string> {
    match Pushed(s, true)
    case Some(r) => Some(DropLastQuote(r))
    case None => None
  }

  // ----- the loops of the source

  method UnescapeUnicode(s: string, start: nat) returns (r: Option<(char, char)>, pos: nat)
    requires start <= |s|
    ensures pos <= |s|
    ensures match Digits(s[start..], 0, 0)
      case Some((c, next, rest)) => r == Some((c, next)) && rest == s[pos..]
      case None => r == None
  {
    pos := start;
    var value: nat := 0;
    for i := 0 to 7
      invariant start <= pos <= |s|
      invariant Digits(s[start..], 0, 0) == Digits(s[pos..], i, value)
      invariant i == 7 ==> Digits(s[start..], 0, 0) == None
    {
      if pos == |s| {
        return None, pos;
      }
      var c := s[pos];
      pos := pos + 1;
      assert s[pos - 1..][1..] == s[pos..];
      match DigitTaken(c) {
        case None =>
          if i == 0 {
            return None, pos;
          }
          var decoded := FromU32(value);
          return if decoded.Some? then Some((decoded.value, c)) else None, pos;
        case Some(num) =>
          if i >= 6 {
            return None, pos;
          }
          value := value * 16 + num;
      }
    }
    r := None;
  }

  // The arms of the match on the character after a backslash.
  method UnescapeOne(s: string, start: nat) returns (r: Option<char>, pos: nat)
    requires start <= |s|
    ensures r.Some? ==> start < pos <= |s|
    ensures match Escape(s[start..])
      case Some((c, rest)) => r == Some(c) && rest == s[pos..]
      case None => r == None
  {
    pos := start;
    if pos == |s| {
      return None, pos;
    }
    var c := s[pos];
    pos := pos + 1;
    assert s[start..][1..] == s[pos..];
    if c != 'u' {
      return Simple(c), pos;
    }
    if pos == |s| || s[pos] != '{' {
      return None, pos;
    }
    assert s[start..][2..] == s[pos + 1..];
    var decoded, after := UnescapeUnicode(s, pos + 1);
    if decoded.None? || decoded.value.1 != '}' {
      return None, after;
    }
    assert |s[after..]| < |s[pos..]|;
    return Some(decoded.value.0), after;
  }

  method TryUnescape(s: string) returns (r: Option<string>)
    ensures r == Unescaped(s)
  {
    if s == "" {
      return Some("");
    }
    var result, pos := "", 0;
    assert s[0..] == s;
    assert Pushed(s, true).Some? ==> "" + Pushed(s, true).value == Pushed(s, true).value;
    while pos < |s|
      invariant 0 <= pos <= |s|
      invariant Pushed(s, true) == Prepend(result, Pushed(s[pos..], pos == 0))
      decreases |s| - pos
    {
      var c := s[pos];
      assert s[pos..][1..] == s[pos + 1..];
      if pos == 0 && c == '"' {
        pos := 1;
      } else if c == '\\' {
        var e, after := UnescapeOne(s, pos + 1);
        if e.None? {
          return None;
        }
        Associates(result, [e.value], Pushed(s[after..], false));
        result := result + [e.value];
        pos := after;
      } else {
        Associates(result, [c], Pushed(s[pos + 1..], false));
        result := result + [c];
        pos := pos + 1;
      }
    }
    assert result + "" == result;
    r := Some(DropLastQuote(result));
  }

  lemma Associates(a: string, b: string, r: Option<string>)
    ensures Prepend(a, Prepend(b, r)) == Prepend(a + b, r)
  {
    if r.Some? {
      assert a + (b + r.value) == a + b + r.value;
    }
  }

  // ----- quoting

  // One character of a literal: as it is, by a short escape, or by its number.
  datatype Piece = Raw(c: char) | Short(c: char) | Number(hex: string)

  function HexValue(c: char): Option<nat> {
    if '0' <= c <= '9' then Some(c as int - '0' as int)
    else if 'a' <= c <= 'f' then Some(10 + (c as int - 'a' as int))
    else if 'A' <= c <= 'F' then Some(10 + (c as int - 'A' as int))
    else None
  }

  // The code knows the digits there are, takes a decimal one for its value, and a letter for
  // ten less.
  lemma DigitsTakenShort(c: char)
    ensures DigitTaken(c).Some? <==> HexValue(c).Some?
    ensures HexValue(c).Some? ==> DigitTaken(c).value == HexValue(c).value % 10
    ensures HexValue(c).Some? ==> (HexValue(c).value < 10 <==> '0' <= c <= '9')
  {
  }

  function NumberOf(hex: string, value: nat): nat
    requires forall i | 0 <= i < |hex| :: HexValue(hex[i]).Some?
  {
    if hex == [] then value else NumberOf(hex[1..], value * 16 + HexValue(hex[0]).value)
  }

  function NumberTaken(hex: string, value: nat): nat
    requires forall i | 0 <= i < |hex| :: HexValue(hex[i]).Some?
  {
    if hex == [] then value
    else
      assert HexValue(hex[0]).Some?;
      NumberTaken(hex[1..], value * 16 + DigitTaken(hex[0]).value)
  }

  predicate AllDecimal(hex: string) {
    forall i | 0 <= i < |hex| :: '0' <= hex[i] <= '9'
  }

  predicate Valid(p: Piece) {
    match p
    case Raw(c) => c != '\\'
    case Short(c) => c in {'\t', '\r', '\n', '\\', '\'', '"'}
    case Number(hex) =>
      1 <= |hex| <= 6 && (forall i | 0 <= i < |hex| :: HexValue(hex[i]).Some?) && IsScalar(NumberOf(hex, 0))
  }

  function Written(p: Piece): string
    requires Valid(p)
  {
    match p
    case Raw(c) => [c]
    case Short('\t') => "\\t"
    case Short('\r') => "\\r"
    case Short('\n') => "\\n"
    case Short(c) => ['\\', c]
    case Number(hex) => "\\u{" + hex + "}"
  }

  function Meant(p: Piece): char
    requires Valid(p)
  {
    match p
    case Raw(c) => c
    case Short(c) => c
    case Number(hex) => NumberOf(hex, 0) as char
  }

  predicate AllValid(ps: seq<Piece>) {
    forall i | 0 <= i < |ps| :: Valid(ps[i])
  }

  function WrittenAll(ps: seq<Piece>): string
    requires AllValid(ps)
  {
    if ps == [] then "" else Written(ps[0]) + WrittenAll(ps[1..])
  }

  function MeantAll(ps: seq<Piece>): string
    requires AllValid(ps)
  {
    seq(|ps|, i requires 0 <= i < |ps| => Meant(ps[i]))
  }

  function Literal(ps: seq<Piece>): string
    requires AllValid(ps)
  {
    "\"" + WrittenAll(ps) + "\""
  }

  // What the code takes a piece for.
  function TakenFor(p: Piece): Option<char>
    requires Valid(p)
  {
    match p
    case Raw(c) => Some(c)
    case Short(c) => Some(c)
    case Number(hex) => FromU32(NumberTaken(hex, 0))
  }

  predicate IsHex(s: string) {
    forall i | 0 <= i < |s| :: HexValue(s[i]).Some?
  }

  // `n` digits in braces, that come to a character.
  predicate NumberAt(s: string, n: nat) {
    && 1 <= n <= 6 && n + 3 <= |s| && s[0] == 'u' && s[1] == '{' && s[n + 2] == '}'
    && IsHex(s[2..n + 2]) && IsScalar(NumberTaken(s[2..n + 2], 0))
  }

  lemma DigitsThere(s: string, i: nat, value: nat, n: nat)
    requires DigitsAt(s, i, value, n)
    ensures Digits(s, i, value) == Some((NumberTaken(s[..n], value) as char, '}', s[n + 1..]))
  {
    assert s == s[..n] + "}" + s[n + 1..];
    DigitsOfRun(s[..n], s[n + 1..], i, value);
  }

  lemma {:induction false} DigitsTaken(s: string, i: nat, value: nat) returns (n: nat)
    requires i <= 6 && Digits(s, i, value).Some? && Digits(s, i, value).value.1 == '}'
    ensures DigitsAt(s, i, value, n)
  {
    if DigitTaken(s[0]).Some? {
      var m := DigitsTaken(s[1..], i + 1, value * 16 + DigitTaken(s[0]).value);
      n := m + 1;
      assert s[..n] == [s[0]] + s[1..][..m];
      OneMoreDigit(s[0], s[1..][..m], value);
    } else {
      n := 0;
      assert s[..0] == "";
    }
  }

  lemma OneMoreDigit(c: char, hex: string, value: nat)
    requires HexValue(c).Some? && IsHex(hex)
    ensures IsHex([c] + hex)
    ensures NumberTaken([c] + hex, value) == NumberTaken(hex, value * 16 + DigitTaken(c).value)
  {
    assert ([c] + hex)[1..] == hex;
  }

  predicate DigitsAt(s: string, i: nat, value: nat, n: nat) {
    && 1 <= i + n <= 6 && n + 1 <= |s| && s[n] == '}' && IsHex(s[..n]) && IsScalar(NumberTaken(s[..n], value))
  }

  lemma NumberThere(s: string, n: nat)
    requires |s| >= 2 && s[0] == 'u' && s[1] == '{'
    ensures NumberAt(s, n) <==> DigitsAt(s[2..], 0, 0, n)
    ensures NumberAt(s, n) ==> s[2..][..n] == s[2..n + 2] && s[2..][n + 1..] == s[n + 3..]
  {
    if n + 3 <= |s| {
      assert s[2..][..n] == s[2..n + 2] && s[2..][n + 1..] == s[n + 3..];
    }
  }

  // An escape is taken if and only if it is one of the six letters and signs, or one to six
  // hexadecimal digits in braces that come to a character.
  lemma EscapeTakenExactly(s: string)
    ensures Escape(s).Some?
      <==> (s != "" && s[0] in {'t', 'r', 'n', '\\', '\'', '"'}) || exists n: nat :: NumberAt(s, n)
  {
    if |s| >= 2 && s[0] == 'u' && s[1] == '{' {
      if n: nat :| NumberAt(s, n) {
        NumberEscapes(s, n);
      } else if Escape(s).Some? {
        var n := DigitsTaken(s[2..], 0, 0);
        NumberThere(s, n);
      }
    }
  }

  lemma NumberEscapes(s: string, n: nat)
    requires NumberAt(s, n)
    ensures Escape(s) == Some((NumberTaken(s[2..n + 2], 0) as char, s[n + 3..]))
  {
    NumberThere(s, n);
    DigitsThere(s[2..], 0, 0, n);
  }

  lemma {:induction false} DigitsOfRun(hex: string, rest: string, i: nat, value: nat)
    requires (forall k | 0 <= k < |hex| :: HexValue(hex[k]).Some?) && i + |hex| <= 6 && i + |hex| > 0
    ensures var c := FromU32(NumberTaken(hex, value));
      Digits(hex + "}" + rest, i, value) == if c.Some? then Some((c.value, '}', rest)) else None
  {
    var s := hex + "}" + rest;
    if hex == [] {
      assert s == "}" + rest && s[1..] == rest;
    } else {
      assert s[1..] == hex[1..] + "}" + rest;
      DigitsOfRun(hex[1..], rest, i + 1, value * 16 + DigitTaken(hex[0]).value);
    }
  }

  lemma PieceIsPushed(p: Piece, t: string)
    requires Valid(p)
    ensures Pushed(Written(p) + t, false)
      == if TakenFor(p).Some? then Prepend([TakenFor(p).value], Pushed(t, false)) else None
  {
    var s := Written(p) + t;
    match p {
      case Raw(c) => assert s[1..] == t;
      case Short(c) => assert s[1..][1..] == t;
      case Number(hex) => NumberIsPushed(p, t);
    }
  }

  lemma NumberIsPushed(p: Piece, t: string)
    requires Valid(p) && p.Number?
    ensures Pushed(Written(p) + t, false)
      == if TakenFor(p).Some? then Prepend([TakenFor(p).value], Pushed(t, false)) else None
  {
    var s := Written(p) + t;
    DigitsOfRun(p.hex, t, 0, 0);
    assert s[1..] == "u{" + (p.hex + "}" + t);
    assert s[1..][2..] == p.hex + "}" + t;
  }

  // A number is taken for what it is exactly when its digits are decimal.
  lemma {:induction false} NumberTakenExactly(hex: string, value: nat, taken: nat)
    requires forall i | 0 <= i < |hex| :: HexValue(hex[i]).Some?
    requires taken <= value
    ensures NumberTaken(hex, taken) <= NumberOf(hex, value)
    ensures NumberTaken(hex, taken) == NumberOf(hex, value) <==> taken == value && AllDecimal(hex)
  {
    if hex != [] {
      NumberTakenExactly(hex[1..], value * 16 + HexValue(hex[0]).value, taken * 16 + DigitTaken(hex[0]).value);
    }
  }

  predicate DecimalNumbers(ps: seq<Piece>) {
    forall i | 0 <= i < |ps| && ps[i].Number? :: AllDecimal(ps[i].hex)
  }

  lemma TakenAsMeant(p: Piece)
    requires Valid(p)
    ensures TakenFor(p) == Some(Meant(p)) <==> (p.Number? ==> AllDecimal(p.hex))
  {
    if p.Number? {
      NumberTakenExactly(p.hex, 0, 0);
    }
  }

  predicate AllTaken(ps: seq<Piece>)
    requires AllValid(ps)
  {
    forall i | 0 <= i < |ps| :: TakenFor(ps[i]).Some?
  }

  function TakenForAll(ps: seq<Piece>): string
    requires AllValid(ps) && AllTaken(ps)
  {
    seq(|ps|, i requires 0 <= i < |ps| => TakenFor(ps[i]).value)
  }

  lemma AllTakenSplits(ps: seq<Piece>)
    requires ps != [] && AllValid(ps)
    ensures AllTaken(ps) <==> TakenFor(ps[0]).Some? && AllTaken(ps[1..])
  {
    forall i | 1 <= i < |ps|
      ensures TakenFor(ps[i]) == TakenFor(ps[1..][i - 1])
    {
    }
    if TakenFor(ps[0]).Some? && AllTaken(ps[1..]) {
      forall i | 0 <= i < |ps|
        ensures TakenFor(ps[i]).Some?
      {
        assert i > 0 ==> TakenFor(ps[1..][i - 1]).Some?;
      }
    } else if AllTaken(ps) {
      forall i | 0 <= i < |ps[1..]|
        ensures TakenFor(ps[1..][i]).Some?
      {
        assert TakenFor(ps[i + 1]).Some?;
      }
    }
  }

  lemma {:induction false} AllArePushed(ps: seq<Piece>)
    requires AllValid(ps)
    ensures Pushed(WrittenAll(ps) + "\"", false) == if AllTaken(ps) then Some(TakenForAll(ps) + "\"") else None
  {
    if ps == [] {
      assert WrittenAll(ps) + "\"" == "\"" && TakenForAll(ps) + "\"" == "\"";
      assert "\""[1..] == "";
      assert Pushed("", false) == Some("");
      assert ['"'] + "" == "\"";
    } else {
      var p, t := ps[0], WrittenAll(ps[1..]) + "\"";
      AllArePushed(ps[1..]);
      PieceIsPushed(p, t);
      Regroup(Written(p), WrittenAll(ps[1..]), "\"");
      AllTakenSplits(ps);
      if AllTaken(ps) {
        TakenOneMore(ps);
        Regroup([TakenFor(p).value], TakenForAll(ps[1..]), "\"");
      }
    }
  }

  lemma TakenOneMore(ps: seq<Piece>)
    requires ps != [] && AllValid(ps) && AllTaken(ps) && AllTaken(ps[1..])
    ensures TakenForAll(ps) == [TakenFor(ps[0]).value] + TakenForAll(ps[1..])
  {
  }

  // A literal, however each of its characters was written and whatever it ends in, comes
  // back as the text it means if and only if its numeric escapes use decimal digits only.
  lemma UnescapeExactly(ps: seq<Piece>)
    requires AllValid(ps)
    ensures Unescaped(Literal(ps)) == Some(MeantAll(ps)) <==> DecimalNumbers(ps)
  {
    assert Literal(ps)[1..] == WrittenAll(ps) + "\"";
    AllArePushed(ps);
    forall i | 0 <= i < |ps|
      ensures TakenFor(ps[i]) == Some(Meant(ps[i])) <==> (ps[i].Number? ==> AllDecimal(ps[i].hex))
    {
      TakenAsMeant(ps[i]);
    }
    if DecimalNumbers(ps) {
      forall i | 0 <= i < |ps|
        ensures TakenFor(ps[i]) == Some(Meant(ps[i]))
      {
        assert ps[i].Number? ==> AllDecimal(ps[i].hex);
      }
      assert AllTaken(ps) && TakenForAll(ps) == MeantAll(ps);
    }
    if AllTaken(ps) {
      assert DropLastQuote(TakenForAll(ps) + "\"") == TakenForAll(ps);
    }
    if Unescaped(Literal(ps)) == Some(MeantAll(ps)) {
      forall i | 0 <= i < |ps| && ps[i].Number?
        ensures AllDecimal(ps[i].hex)
      {
        assert TakenForAll(ps)[i] == MeantAll(ps)[i];
      }
    }
  }
}
