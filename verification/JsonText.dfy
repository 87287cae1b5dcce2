/**
 The JSON text of a compile spec: `json.dumps` with sorted keys, compact separators and ASCII
 escapes, and a parser that undoes it.
 */
module JsonText {
  import opened Wrappers

  /** What a Python string holds: any code point, lone surrogates included. */
  type CodePoint = c: int | 0 <= c < 0x110000
  type Text = seq<CodePoint>

  /** What a JSON escape can name. */
  type CodeUnit = u: int | 0 <= u < 0x10000
  type Units = seq<CodeUnit>

  /** JSON values over some string type; a float is its shortest decimal representation. */
  datatype Json<T> =
    | Null
    | Bool(b: bool)
    | Num(n: int)
    | Float(token: string)
    | Str(text: T)
    | Arr(items: seq<Json<T>>)
    | Obj(entries: seq<Member<T>>)

  datatype Member<T> = Member(key: T, value: Json<T>)

  type Pod = Json<Text>
  type Wire = Json<Units>

  // ------------------------------------------------------------ strings

  predicate High(c: int) { 0xD800 <= c < 0xDC00 }
  predicate Low(c: int) { 0xDC00 <= c < 0xE000 }

  function Utf16(t: Text): Units {
    if t == [] then []
    else if t[0] < 0x10000 then [t[0]] + Utf16(t[1..])
    else [0xD800 + (t[0] - 0x10000) / 0x400, 0xDC00 + (t[0] - 0x10000) % 0x400] + Utf16(t[1..])
  }

  /** A reader joins a high unit and the low unit after it. */
  function FromUtf16(u: Units): Text {
    if u == [] then []
    else if |u| >= 2 && High(u[0]) && Low(u[1]) then
      [0x10000 + (u[0] - 0xD800) * 0x400 + (u[1] - 0xDC00)] + FromUtf16(u[2..])
    else [u[0]] + FromUtf16(u[1..])
  }

  /** No lone high surrogate directly before a lone low one. */
  predicate Plain(t: Text) {
    |t| < 2 || (!(High(t[0]) && Low(t[1])) && Plain(t[1..]))
  }

  /** Exactly the plain strings survive the escapes. */
  lemma {:induction false} Utf16Exact(t: Text)
    ensures FromUtf16(Utf16(t)) == t <==> Plain(t)
  {
    if t != [] {
      Utf16Exact(t[1..]);
      var rest := Utf16(t[1..]);
      var u := Utf16(t);
      if t[0] >= 0x10000 {
        assert u[2..] == rest;
        assert FromUtf16(u) == [t[0]] + FromUtf16(rest);
      } else {
        assert u[1..] == rest;
        if |t| >= 2 && High(t[0]) && Low(t[1]) {
          assert FromUtf16(u)[0] >= 0x10000;
        } else {
          assert FromUtf16(u) == [t[0]] + FromUtf16(rest);
        }
      }
      assert t == [t[0]] + t[1..];
    }
  }

  /** Reading and escaping again changes nothing: every list of units is the escape of some string. */
  lemma {:induction false} Utf16Onto(u: Units)
    ensures Utf16(FromUtf16(u)) == u
  {
    if u != [] {
      var t := FromUtf16(u);
      if |u| >= 2 && High(u[0]) && Low(u[1]) {
        Utf16Onto(u[2..]);
        assert t[1..] == FromUtf16(u[2..]);
        assert u == [u[0], u[1]] + u[2..];
      } else {
        Utf16Onto(u[1..]);
        assert t[1..] == FromUtf16(u[1..]);
        assert u == [u[0]] + u[1..];
      }
    }
  }

  /** A string with its surrogate pairs joined. */
  function Joined(t: Text): Text { FromUtf16(Utf16(t)) }

  /** Joining keeps the escapes, yields a plain string, and changes exactly the strings that are not
      plain: each of those shares its escapes with a different one. */
  lemma {:induction false} JoinedExact(t: Text)
    ensures Utf16(Joined(t)) == Utf16(t) && Plain(Joined(t)) && (Joined(t) == t <==> Plain(t))
  {
    Utf16Onto(Utf16(t));
    Utf16Exact(t);
    Utf16Exact(Joined(t));
  }

  /** The collision: an emoji and the two surrogates that spell it. */
  lemma SurrogatesCollide()
    ensures var joined: Text := [0x1F600]; var split: Text := [0xD83D, 0xDE00];
            joined != split && Utf16(joined) == Utf16(split) && !Plain(split)
  {
    var split: Text := [0xD83D, 0xDE00];
    assert split[1..] == [0xDE00];
    assert Utf16(split[1..]) == [0xDE00];
  }

  function HexDigit(n: int): char
    requires 0 <= n < 16
  {
    "0123456789abcdef"[n]
  }

  function HexValue(c: char): Option<int> {
    if '0' <= c <= '9' then Some(c as int - '0' as int)
    else if 'a' <= c <= 'f' then Some(c as int - 'a' as int + 10)
    else None
  }

  lemma HexRoundTrip(n: int)
    requires 0 <= n < 16
    ensures HexValue(HexDigit(n)) == Some(n)
  {
    if n < 10 {
      assert HexDigit(n) == "0123456789"[n];
    } else {
      assert HexDigit(n) == "abcdef"[n - 10];
    }
  }

  function Escape(u: CodeUnit): string {
    if u == 34 then "\\\""
    else if u == 92 then "\\\\"
    else if u == 10 then "\\n"
    else if u == 13 then "\\r"
    else if u == 9 then "\\t"
    else if u == 12 then "\\f"
    else if u == 8 then "\\b"
    else if 32 <= u <= 126 then [u as char]
    else HexEscape(u / 4096, u / 256 % 16, u / 16 % 16, u % 16)
  }

  function HexEscape(a: int, b: int, c: int, d: int): string
    requires 0 <= a < 16 && 0 <= b < 16 && 0 <= c < 16 && 0 <= d < 16
  {
    "\\u" + [HexDigit(a), HexDigit(b), HexDigit(c), HexDigit(d)]
  }

  function Quoted(us: Units): string {
    "\"" + EscapeAll(us) + "\""
  }

  function EscapeAll(us: Units): string {
    if us == [] then "" else Escape(us[0]) + EscapeAll(us[1..])
  }

  /** One character of a string body, and what follows it. */
  function ParseUnit(s: string): (r: Option<(CodeUnit, string)>)
    ensures r.Some? ==> |r.value.1| < |s|
  {
    if s == "" then None
    else if s[0] != '\\' then
      if 32 <= s[0] as int <= 126 then Some((s[0] as int, s[1..])) else None
    else if |s| < 2 then None
    else match s[1]
      case '\"' => Some((34, s[2..]))
      case '\\' => Some((92, s[2..]))
      case 'n' => Some((10, s[2..]))
      case 'r' => Some((13, s[2..]))
      case 't' => Some((9, s[2..]))
      case 'f' => Some((12, s[2..]))
      case 'b' => Some((8, s[2..]))
      case 'u' => if |s| < 6 then None else ParseHex(HexValue(s[2]), HexValue(s[3]), HexValue(s[4]), HexValue(s[5]), s[6..])
      case _ => None
  }

  function ParseHex(a: Option<int>, b: Option<int>, c: Option<int>, d: Option<int>, rest: string): (r: Option<(CodeUnit, string)>)
    ensures r.Some? ==> r.value.1 == rest
  {
    if a.Some? && b.Some? && c.Some? && d.Some? then
      var u := a.value * 4096 + b.value * 256 + c.value * 16 + d.value;
      if 0 <= u < 0x10000 then Some((u, rest)) else None
    else None
  }

  /** The body of a string up to its closing quote, and what follows. */
  function ParseChars(s: string): (r: Option<(Units, string)>)
    ensures r.Some? ==> |r.value.1| < |s|
    decreases |s|
  {
    if s == "" then None
    else if s[0] == '\"' then Some(([], s[1..]))
    else
      var first := ParseUnit(s);
      if first.None? then None
      else
        var others := ParseChars(first.value.1);
        if others.None? then None else Some(([first.value.0] + others.value.0, others.value.1))
  }

  lemma HexOf(u: CodeUnit) returns (a: int, b: int, c: int, d: int)
    ensures 0 <= a < 16 && 0 <= b < 16 && 0 <= c < 16 && 0 <= d < 16
    ensures u == a * 4096 + b * 256 + c * 16 + d
    ensures !HasShortEscape(u) && !(32 <= u <= 126) ==> Escape(u) == HexEscape(a, b, c, d)
  {
    a, b, c, d := u / 4096, u / 256 % 16, u / 16 % 16, u % 16;
    assert u / 256 == a * 16 + b;
    assert u / 16 == u / 256 * 16 + c;
  }

  lemma EscapedHex(a: int, b: int, c: int, d: int, rest: string)
    requires 0 <= a < 16 && 0 <= b < 16 && 0 <= c < 16 && 0 <= d < 16
    ensures ParseUnit(HexEscape(a, b, c, d) + rest) == Some((a * 4096 + b * 256 + c * 16 + d, rest))
  {
    var s := HexEscape(a, b, c, d) + rest;
    assert s[6..] == rest;
    HexRoundTrip(a);
    HexRoundTrip(b);
    HexRoundTrip(c);
    HexRoundTrip(d);
  }

  predicate HasShortEscape(u: CodeUnit) { u == 34 || u == 92 || u == 10 || u == 13 || u == 9 || u == 12 || u == 8 }

  lemma EscapedLong(u: CodeUnit, rest: string)
    requires !HasShortEscape(u) && !(32 <= u <= 126)
    ensures ParseUnit(Escape(u) + rest) == Some((u, rest))
  {
    var a, b, c, d := HexOf(u);
    EscapedHex(a, b, c, d, rest);
  }

  lemma EscapedShort(u: CodeUnit, rest: string)
    requires HasShortEscape(u) || 32 <= u <= 126
    ensures ParseUnit(Escape(u) + rest) == Some((u, rest))
  {
    var s := Escape(u) + rest;
    if HasShortEscape(u) {
      assert s[2..] == rest;
    } else {
      assert s[1..] == rest;
    }
  }

  lemma EscapedUnit(u: CodeUnit, rest: string)
    ensures ParseUnit(Escape(u) + rest) == Some((u, rest)) && Escape(u)[0] != '\"'
  {
    if HasShortEscape(u) || 32 <= u <= 126 {
      EscapedShort(u, rest);
    } else {
      EscapedLong(u, rest);
    }
  }

  lemma {:induction false} EscapedText(us: Units, rest: string)
    ensures ParseChars(EscapeAll(us) + "\"" + rest) == Some((us, rest))
  {
    if us == [] {
      ClosedText(EscapeAll(us) + "\"" + rest, rest);
    } else {
      var others := EscapeAll(us[1..]) + "\"" + rest;
      assert EscapeAll(us) + "\"" + rest == Escape(us[0]) + others;
      EscapedUnit(us[0], others);
      EscapedText(us[1..], rest);
      assert us == [us[0]] + us[1..];
    }
  }

  lemma {:induction false} ClosedText(s: string, rest: string)
    requires s == "\"" + rest
    ensures ParseChars(s) == Some(([], rest))
  {
    assert s[1..] == rest;
  }

  // ------------------------------------------------------------ numbers

  predicate NumberChar(c: char) { '0' <= c <= '9' || c == '-' || c == '+' || c == '.' || c == 'e' }

  predicate AllNumber(s: string) { forall i :: 0 <= i < |s| ==> NumberChar(s[i]) }

  predicate IntChar(c: char) { '0' <= c <= '9' || c == '-' }

  predicate AllInt(s: string) { forall i :: 0 <= i < |s| ==> IntChar(s[i]) }

  /** How a finite double is written: number characters, with a point or an exponent. */
  predicate FloatToken(s: string) { AllNumber(s) && !AllInt(s) }

  type FloatText = s: string | FloatToken(s) witness (assert !IntChar("0.0"[1]); "0.0")

  function Digits(n: nat): (s: string)
    ensures s != "" && forall i :: 0 <= i < |s| ==> '0' <= s[i] <= '9'
  {
    if n < 10 then [(n + '0' as int) as char] else Digits(n / 10) + [(n % 10 + '0' as int) as char]
  }

  function Decimal(n: int): string {
    if n < 0 then "-" + Digits(-n) else Digits(n)
  }

  /** A number starts with a minus exactly when it is negative, and with a zero only when it is zero. */
  lemma DecimalForm(n: int)
    ensures Decimal(n)[0] == '-' <==> n < 0
    ensures Decimal(0) == "0" && (n > 0 ==> Decimal(n)[0] != '0') && (n < 0 ==> |Decimal(n)| > 1 && Decimal(n)[1] != '0')
  {
    if n != 0 {
      FirstDigit(if n < 0 then -n else n);
    }
  }

  lemma {:induction false} FirstDigit(n: nat)
    requires n > 0
    ensures Digits(n)[0] != '0'
  {
    if n >= 10 {
      FirstDigit(n / 10);
    }
  }

  function NatOf(s: string): int {
    if s == "" then 0 else NatOf(s[..|s| - 1]) * 10 + (s[|s| - 1] as int - '0' as int)
  }

  function IntOf(s: string): int {
    if s != "" && s[0] == '-' then -NatOf(s[1..]) else NatOf(s)
  }

  lemma {:induction false} NatRoundTrip(n: nat)
    ensures NatOf(Digits(n)) == n
  {
    var s := Digits(n);
    if n < 10 {
      assert s[..|s| - 1] == "";
    } else {
      NatRoundTrip(n / 10);
      assert s[..|s| - 1] == Digits(n / 10);
    }
  }

  lemma IntRoundTrip(n: int)
    ensures IntOf(Decimal(n)) == n && AllInt(Decimal(n)) && AllNumber(Decimal(n)) && Decimal(n) != ""
  {
    if n < 0 {
      NatRoundTrip(-n);
      assert Decimal(n)[1..] == Digits(-n);
    } else {
      NatRoundTrip(n);
    }
  }

  /** Length of the longest prefix of number characters. */
  function NumberRun(s: string): (r: nat)
    ensures r <= |s|
  {
    if s == "" || !NumberChar(s[0]) then 0 else 1 + NumberRun(s[1..])
  }

  /** A number ends where the text ends or a separator follows. */
  predicate Ends(rest: string) { rest == "" || !NumberChar(rest[0]) }

  lemma {:induction false} RunStopsAtEnd(token: string, rest: string)
    requires AllNumber(token) && Ends(rest)
    ensures NumberRun(token + rest) == |token|
  {
    if token == "" {
      assert token + rest == rest;
    } else {
      RunStopsAtEnd(token[1..], rest);
      assert (token + rest)[1..] == token[1..] + rest;
    }
  }

  // ------------------------------------------------------------ the printer

  /** Every float is written as doubles are. */
  ghost predicate WellWritten<T>(w: Json<T>)
    decreases w
  {
    match w
    case Float(token) => FloatToken(token)
    case Arr(items) => forall i :: 0 <= i < |items| ==> WellWritten(items[i])
    case Obj(entries) => forall i :: 0 <= i < |entries| ==> WellWritten(entries[i].value)
    case _ => true
  }

  function Print(w: Wire): string
    decreases w
  {
    match w
    case Null => "null"
    case Bool(b) => if b then "true" else "false"
    case Num(n) => Decimal(n)
    case Float(token) => token
    case Str(text) => Quoted(text)
    case Arr(items) => "[" + PrintItems(items) + "]"
    case Obj(entries) => "{" + PrintEntries(entries) + "}"
  }

  function PrintItems(ws: seq<Wire>): string
    decreases ws
  {
    if ws == [] then ""
    else if |ws| == 1 then Print(ws[0])
    else Print(ws[0]) + "," + PrintItems(ws[1..])
  }

  function PrintMember(e: Member<Units>): string
    decreases e
  {
    Quoted(e.key) + ":" + Print(e.value)
  }

  function PrintEntries(es: seq<Member<Units>>): string
    decreases es
  {
    if es == [] then ""
    else if |es| == 1 then PrintMember(es[0])
    else PrintMember(es[0]) + "," + PrintEntries(es[1..])
  }

  /** The characters of a key: printable ASCII only. */
  predicate PrintableAscii(s: string) { forall i :: 0 <= i < |s| ==> ' ' <= s[i] <= '~' }

  lemma {:induction false} QuotedAscii(us: Units)
    ensures PrintableAscii(Quoted(us))
  {
    EscapedAscii(us);
  }

  lemma {:induction false} EscapedAscii(us: Units)
    ensures PrintableAscii(EscapeAll(us))
  {
    if us != [] {
      EscapedAscii(us[1..]);
      OneAscii(us[0]);
    }
  }

  lemma OneAscii(u: CodeUnit)
    ensures PrintableAscii(Escape(u))
  {
    if !HasShortEscape(u) && !(32 <= u <= 126) {
      var a, b, c, d := HexOf(u);
      HexAscii(a, b, c, d);
    }
  }

  lemma HexAscii(a: int, b: int, c: int, d: int)
    requires 0 <= a < 16 && 0 <= b < 16 && 0 <= c < 16 && 0 <= d < 16
    ensures PrintableAscii(HexEscape(a, b, c, d))
  {
    HexRoundTrip(a);
    HexRoundTrip(b);
    HexRoundTrip(c);
    HexRoundTrip(d);
  }

  /** Whatever a value holds, its text is printable ASCII. */
  lemma {:induction false} PrintAscii(w: Wire)
    requires WellWritten(w)
    ensures PrintableAscii(Print(w))
    decreases w, 0
  {
    match w
    case Num(n) => IntRoundTrip(n);
    case Str(text) => QuotedAscii(text);
    case Arr(items) => ItemsAscii(items);
    case Obj(entries) => EntriesAscii(entries);
    case _ =>
  }

  lemma {:induction false} ItemsAscii(ws: seq<Wire>)
    requires forall i :: 0 <= i < |ws| ==> WellWritten(ws[i])
    ensures PrintableAscii(PrintItems(ws))
    decreases ws, 1
  {
    if ws != [] {
      PrintAscii(ws[0]);
      ItemsAscii(ws[1..]);
    }
  }

  lemma {:induction false} MemberAscii(e: Member<Units>)
    requires WellWritten(e.value)
    ensures PrintableAscii(PrintMember(e))
    decreases e, 1
  {
    QuotedAscii(e.key);
    PrintAscii(e.value);
  }

  lemma {:induction false} EntriesAscii(es: seq<Member<Units>>)
    requires forall i :: 0 <= i < |es| ==> WellWritten(es[i].value)
    ensures PrintableAscii(PrintEntries(es))
    decreases es, 1
  {
    if es != [] {
      MemberAscii(es[0]);
      EntriesAscii(es[1..]);
    }
  }

  // ------------------------------------------------------------ the parser

  type Parsed<T> = Option<(T, string)>

  function ParseNumber(s: string): (r: Parsed<Wire>)
    ensures r.Some? ==> |r.value.1| < |s|
  {
    var k := NumberRun(s);
    if k == 0 then None
    else Some((if AllInt(s[..k]) then Num(IntOf(s[..k])) else Float(s[..k]), s[k..]))
  }

  function ParseWord(s: string, word: string, w: Wire): (r: Parsed<Wire>)
    requires word != ""
    ensures r.Some? ==> |r.value.1| < |s|
  {
    if word <= s then Some((w, s[|word|..])) else None
  }

  function Parse(s: string): (r: Parsed<Wire>)
    ensures r.Some? ==> |r.value.1| < |s|
    decreases |s|, 0
  {
    if s == "" then None
    else if s[0] == '[' then ParseArray(s[1..])
    else if s[0] == '{' then ParseObject(s[1..])
    else ParseScalar(s)
  }

  function ParseScalar(s: string): (r: Parsed<Wire>)
    requires s != ""
    ensures r.Some? ==> |r.value.1| < |s|
  {
    if s[0] == 'n' then ParseWord(s, "null", Null)
    else if s[0] == 't' then ParseWord(s, "true", Bool(true))
    else if s[0] == 'f' then ParseWord(s, "false", Bool(false))
    else if s[0] == '\"' then
      var chars := ParseChars(s[1..]);
      if chars.None? then None else Some((Str(chars.value.0), chars.value.1))
    else ParseNumber(s)
  }

  function ParseArray(s: string): (r: Parsed<Wire>)
    ensures r.Some? ==> |r.value.1| < |s|
    decreases |s|, 3
  {
    if s != "" && s[0] == ']' then Some((Arr([]), s[1..]))
    else
      var items := ParseItems(s);
      if items.None? then None else Some((Arr(items.value.0), items.value.1))
  }

  function ParseObject(s: string): (r: Parsed<Wire>)
    ensures r.Some? ==> |r.value.1| < |s|
    decreases |s|, 3
  {
    if s != "" && s[0] == '}' then Some((Obj([]), s[1..]))
    else
      var entries := ParseEntries(s);
      if entries.None? then None else Some((Obj(entries.value.0), entries.value.1))
  }

  /** One or more values up to the closing bracket. */
  function ParseItems(s: string): (r: Parsed<seq<Wire>>)
    ensures r.Some? ==> |r.value.1| < |s|
    decreases |s|, 1
  {
    var first := Parse(s);
    if first.None? || first.value.1 == "" then None
    else if first.value.1[0] == ']' then Some(([first.value.0], first.value.1[1..]))
    else if first.value.1[0] == ',' then
      var others := ParseItems(first.value.1[1..]);
      if others.None? then None else Some(([first.value.0] + others.value.0, others.value.1))
    else None
  }

  function ParseEntry(s: string): (r: Parsed<Member<Units>>)
    ensures r.Some? ==> |r.value.1| < |s|
    decreases |s|, 1
  {
    if s == "" || s[0] != '\"' then None
    else
      var key := ParseChars(s[1..]);
      if key.None? || key.value.1 == "" || key.value.1[0] != ':' then None
      else
        var value := Parse(key.value.1[1..]);
        if value.None? then None else Some((Member(key.value.0, value.value.0), value.value.1))
  }

  /** One or more entries up to the closing brace. */
  function ParseEntries(s: string): (r: Parsed<seq<Member<Units>>>)
    ensures r.Some? ==> |r.value.1| < |s|
    decreases |s|, 2
  {
    var first := ParseEntry(s);
    if first.None? || first.value.1 == "" then None
    else if first.value.1[0] == '}' then Some(([first.value.0], first.value.1[1..]))
    else if first.value.1[0] == ',' then
      var others := ParseEntries(first.value.1[1..]);
      if others.None? then None else Some(([first.value.0] + others.value.0, others.value.1))
    else None
  }

  // ------------------------------------------------------------ round trip

  lemma {:induction false} NumberRoundTrip(token: string, rest: string)
    requires token != "" && AllNumber(token) && Ends(rest)
    ensures Parse(token + rest) == Some((if AllInt(token) then Num(IntOf(token)) else Float(token), rest))
  {
    var s := token + rest;
    RunStopsAtEnd(token, rest);
    assert s[..|token|] == token && s[|token|..] == rest;
    assert NumberChar(s[0]);
    assert ParseScalar(s) == ParseNumber(s);
  }

  lemma {:induction false} StrRoundTrip(us: Units, rest: string)
    ensures Parse(Quoted(us) + rest) == Some((Str(us), rest))
  {
    QuotedParts(EscapeAll(us), rest);
    EscapedText(us, rest);
  }

  lemma QuotedParts(body: string, rest: string)
    ensures var s := "\"" + body + "\"" + rest; s[0] == '\"' && s[1..] == body + "\"" + rest
  {
  }

  lemma {:induction false} WordRoundTrip(word: string, rest: string)
    requires word == "null" || word == "true" || word == "false"
    ensures Parse(word + rest) == Some((if word == "null" then Null else Bool(word == "true"), rest))
  {
    var s := word + rest;
    assert word <= s && s[|word|..] == rest;
    assert s[0] == word[0];
  }

  /** No printed value starts with a closing bracket. */
  lemma {:induction false} FirstChar(w: Wire)
    requires WellWritten(w)
    ensures Print(w) != "" && Print(w)[0] != ']'
  {
    match w
    case Num(n) =>
      IntRoundTrip(n);
      assert IntChar(Decimal(n)[0]);
    case Float(token) =>
      assert token != "" && NumberChar(token[0]);
    case _ =>
  }

  lemma {:induction false} BracketStep(body: string, rest: string, items: seq<Wire>)
    requires body != "" && body[0] != ']' && ParseItems(body) == Some((items, rest))
    ensures Parse("[" + body) == Some((Arr(items), rest))
  {
    assert ("[" + body)[1..] == body;
  }

  lemma {:induction false} BraceStep(body: string, rest: string, entries: seq<Member<Units>>)
    requires body != "" && body[0] != '}' && ParseEntries(body) == Some((entries, rest))
    ensures Parse("{" + body) == Some((Obj(entries), rest))
  {
    assert ("{" + body)[1..] == body;
  }

  lemma {:induction false} EmptyRoundTrip(rest: string)
    ensures Parse("[]" + rest) == Some((Arr([]), rest)) && Parse("{}" + rest) == Some((Obj([]), rest))
  {
    assert ("[]" + rest)[1..] == "]" + rest && ("]" + rest)[1..] == rest;
    assert ("{}" + rest)[1..] == "}" + rest && ("}" + rest)[1..] == rest;
  }

  /** Parsing undoes printing, whatever follows. */
  lemma {:induction false} RoundTrip(w: Wire, rest: string)
    requires WellWritten(w) && Ends(rest)
    ensures Parse(Print(w) + rest) == Some((w, rest))
    decreases w, 0
  {
    match w
    case Null => WordRoundTrip("null", rest);
    case Bool(b) => WordRoundTrip(if b then "true" else "false", rest);
    case Num(n) =>
      IntRoundTrip(n);
      NumberRoundTrip(Decimal(n), rest);
    case Float(token) => NumberRoundTrip(token, rest);
    case Str(text) => StrRoundTrip(text, rest);
    case Arr(items) => ArrayRoundTrip(items, rest);
    case Obj(entries) => ObjectRoundTrip(entries, rest);
  }

  lemma {:induction false} ArrayRoundTrip(items: seq<Wire>, rest: string)
    requires forall i :: 0 <= i < |items| ==> WellWritten(items[i])
    ensures Parse("[" + PrintItems(items) + "]" + rest) == Some((Arr(items), rest))
    decreases items, 2
  {
    if items == [] {
      EmptyRoundTrip(rest);
      assert "[" + PrintItems(items) + "]" + rest == "[]" + rest;
    } else {
      var body := PrintItems(items) + "]" + rest;
      ItemsRoundTrip(items, rest);
      FirstChar(items[0]);
      assert body[0] == Print(items[0])[0];
      BracketStep(body, rest, items);
      assert "[" + PrintItems(items) + "]" + rest == "[" + body;
    }
  }

  lemma {:induction false} ObjectRoundTrip(entries: seq<Member<Units>>, rest: string)
    requires forall i :: 0 <= i < |entries| ==> WellWritten(entries[i].value)
    ensures Parse("{" + PrintEntries(entries) + "}" + rest) == Some((Obj(entries), rest))
    decreases entries, 2
  {
    if entries == [] {
      EmptyRoundTrip(rest);
      assert "{" + PrintEntries(entries) + "}" + rest == "{}" + rest;
    } else {
      var body := PrintEntries(entries) + "}" + rest;
      EntriesRoundTrip(entries, rest);
      assert body[0] == '\"';
      BraceStep(body, rest, entries);
      assert "{" + PrintEntries(entries) + "}" + rest == "{" + body;
    }
  }

  lemma {:induction false} LastItem(s: string, w: Wire, rest: string)
    requires Parse(s) == Some((w, "]" + rest))
    ensures ParseItems(s) == Some(([w], rest))
  {
    assert ("]" + rest)[1..] == rest;
  }

  lemma {:induction false} NextItem(s: string, w: Wire, tail: string, ws: seq<Wire>, rest: string)
    requires Parse(s) == Some((w, "," + tail)) && ParseItems(tail) == Some((ws, rest))
    ensures ParseItems(s) == Some(([w] + ws, rest))
  {
    assert ("," + tail)[1..] == tail;
  }

  /** What follows the first item of a printed list. */
  function AfterItem(ws: seq<Wire>, rest: string): string
    requires ws != []
  {
    if |ws| == 1 then "]" + rest else "," + (PrintItems(ws[1..]) + "]" + rest)
  }

  lemma {:induction false} ItemsSplit(ws: seq<Wire>, rest: string)
    requires ws != []
    ensures PrintItems(ws) + "]" + rest == Print(ws[0]) + AfterItem(ws, rest)
  {
  }

  lemma {:induction false} ItemsRoundTrip(ws: seq<Wire>, rest: string)
    requires ws != [] && forall i :: 0 <= i < |ws| ==> WellWritten(ws[i])
    ensures ParseItems(PrintItems(ws) + "]" + rest) == Some((ws, rest))
    decreases ws, 1
  {
    ItemsSplit(ws, rest);
    var after := AfterItem(ws, rest);
    RoundTrip(ws[0], after);
    if |ws| == 1 {
      LastItem(Print(ws[0]) + after, ws[0], rest);
      assert ws == [ws[0]];
    } else {
      ItemsRoundTrip(ws[1..], rest);
      NextItem(Print(ws[0]) + after, ws[0], PrintItems(ws[1..]) + "]" + rest, ws[1..], rest);
      assert ws == [ws[0]] + ws[1..];
    }
  }

  lemma {:induction false} EntryStep(chars: string, key: Units, body: string, w: Wire, rest: string)
    requires ParseChars(chars) == Some((key, ":" + body)) && Parse(body) == Some((w, rest))
    ensures ParseEntry("\"" + chars) == Some((Member(key, w), rest))
  {
    assert ("\"" + chars)[1..] == chars;
    assert (":" + body)[1..] == body;
  }

  lemma {:induction false} EntrySplit(e: Member<Units>, rest: string)
    ensures PrintMember(e) + rest == "\"" + (EscapeAll(e.key) + "\"" + (":" + (Print(e.value) + rest)))
  {
  }

  lemma {:induction false} EntryRoundTrip(e: Member<Units>, rest: string)
    requires WellWritten(e.value) && Ends(rest)
    ensures ParseEntry(PrintMember(e) + rest) == Some((e, rest))
    decreases e, 1
  {
    var body := Print(e.value) + rest;
    EntrySplit(e, rest);
    EscapedText(e.key, ":" + body);
    RoundTrip(e.value, rest);
    EntryStep(EscapeAll(e.key) + "\"" + (":" + body), e.key, body, e.value, rest);
  }

  lemma {:induction false} LastEntry(s: string, e: Member<Units>, rest: string)
    requires ParseEntry(s) == Some((e, "}" + rest))
    ensures ParseEntries(s) == Some(([e], rest))
  {
    assert ("}" + rest)[1..] == rest;
  }

  lemma {:induction false} NextEntry(s: string, e: Member<Units>, tail: string, es: seq<Member<Units>>, rest: string)
    requires ParseEntry(s) == Some((e, "," + tail)) && ParseEntries(tail) == Some((es, rest))
    ensures ParseEntries(s) == Some(([e] + es, rest))
  {
    assert ("," + tail)[1..] == tail;
  }

  function AfterEntry(es: seq<Member<Units>>, rest: string): string
    requires es != []
  {
    if |es| == 1 then "}" + rest else "," + (PrintEntries(es[1..]) + "}" + rest)
  }

  lemma {:induction false} EntriesSplit(es: seq<Member<Units>>, rest: string)
    requires es != []
    ensures PrintEntries(es) + "}" + rest == PrintMember(es[0]) + AfterEntry(es, rest)
  {
  }

  lemma {:induction false} EntriesRoundTrip(es: seq<Member<Units>>, rest: string)
    requires es != [] && forall i :: 0 <= i < |es| ==> WellWritten(es[i].value)
    ensures ParseEntries(PrintEntries(es) + "}" + rest) == Some((es, rest))
    decreases es, 1
  {
    EntriesSplit(es, rest);
    var after := AfterEntry(es, rest);
    EntryRoundTrip(es[0], after);
    if |es| == 1 {
      LastEntry(PrintMember(es[0]) + after, es[0], rest);
      assert es == [es[0]];
    } else {
      EntriesRoundTrip(es[1..], rest);
      NextEntry(PrintMember(es[0]) + after, es[0], PrintEntries(es[1..]) + "}" + rest, es[1..], rest);
      assert es == [es[0]] + es[1..];
    }
  }

  /** Two values share their text only when they are the same value. */
  lemma {:induction false} PrintInjective(v: Wire, w: Wire)
    requires WellWritten(v) && WellWritten(w) && Print(v) == Print(w)
    ensures v == w
  {
    RoundTrip(v, "");
    RoundTrip(w, "");
    assert Print(v) + "" == Print(v) && Print(w) + "" == Print(w);
  }
}
