/**
 How the runtime prints a compile fact: the text the spec memo is keyed by. On plain data it is
 faithful, because it can be read back.
 */
module ReprText {
  import opened Wrappers
  import opened JsonText
  import opened CompileSpecs

  /** What printing depends on besides the value: which characters count as printable, and the texts of
      objects that are not plain data. */
  datatype Printing = Printing(printable: CodePoint -> bool, opaqueText: int -> string, legacyText: string)

  // ------------------------------------------------------------ strings

  predicate IsScalar(c: CodePoint) { c < 0xD800 || 0xE000 <= c }

  /** Printed as itself: printable and not ASCII. Surrogates never are. */
  predicate Shown(w: Printing, c: CodePoint) { c >= 128 && IsScalar(c) && w.printable(c) }

  /** The last `count` hexadecimal digits of a number. */
  function HexDigits(n: nat, count: nat): (s: string)
    ensures |s| == count
  {
    if count == 0 then "" else HexDigits(n / 16, count - 1) + [HexDigit(n % 16)]
  }

  /** Single quotes, unless the text holds one and no double quote. */
  function QuoteOf(t: Text): char { if 39 in t && 34 !in t then '\"' else '\'' }

  predicate IsQuote(q: char) { q == '\"' || q == '\'' }

  function EscapeIn(w: Printing, q: char, c: CodePoint): string {
    if c == q as int || c == 92 then ['\\', if c == 92 then '\\' else q]
    else if c == 9 then "\\t"
    else if c == 10 then "\\n"
    else if c == 13 then "\\r"
    else if 32 <= c < 127 then [c as char]
    else if Shown(w, c) then [c as char]
    else if c < 256 then "\\x" + HexDigits(c, 2)
    else if c < 65536 then "\\u" + HexDigits(c, 4)
    else "\\U" + HexDigits(c, 8)
  }

  function EscapeText(w: Printing, q: char, t: Text): string {
    if t == [] then "" else EscapeIn(w, q, t[0]) + EscapeText(w, q, t[1..])
  }

  function ReprStr(w: Printing, t: Text): string { [QuoteOf(t)] + EscapeText(w, QuoteOf(t), t) + [QuoteOf(t)] }

  /** The number that hexadecimal digits spell. */
  function HexNumber(s: string): Option<int> {
    if s == "" then Some(0)
    else
      var front, last := HexNumber(s[..|s| - 1]), HexValue(s[|s| - 1]);
      if front.None? || last.None? then None else Some(front.value * 16 + last.value)
  }

  function ReadHex(s: string, count: nat): (r: Option<(CodePoint, string)>)
    ensures r.Some? ==> |r.value.1| <= |s|
  {
    if |s| < count then None
    else
      var n := HexNumber(s[..count]);
      if n.Some? && 0 <= n.value < 0x110000 then Some((n.value, s[count..])) else None
  }

  /** One character of a string body, and what follows it. */
  function ReadChar(s: string): (r: Option<(CodePoint, string)>)
    ensures r.Some? ==> |r.value.1| < |s|
  {
    if s == "" then None
    else if s[0] != '\\' then Some((s[0] as int, s[1..]))
    else if |s| < 2 then None
    else if s[1] == 't' then Some((9, s[2..]))
    else if s[1] == 'n' then Some((10, s[2..]))
    else if s[1] == 'r' then Some((13, s[2..]))
    else if s[1] == 'x' then ReadHex(s[2..], 2)
    else if s[1] == 'u' then ReadHex(s[2..], 4)
    else if s[1] == 'U' then ReadHex(s[2..], 8)
    else Some((s[1] as int, s[2..]))
  }

  function ReadBody(q: char, s: string): (r: Option<(Text, string)>)
    ensures r.Some? ==> |r.value.1| < |s|
    decreases |s|
  {
    if s == "" then None
    else if s[0] == q then Some(([], s[1..]))
    else
      var first := ReadChar(s);
      if first.None? then None
      else
        var others := ReadBody(q, first.value.1);
        if others.None? then None else Some(([first.value.0] + others.value.0, others.value.1))
  }

  function Power(k: nat): nat { if k == 0 then 1 else Power(k - 1) * 16 }

  lemma {:induction false} HexDigitsBack(n: nat, count: nat)
    requires n < Power(count)
    ensures HexNumber(HexDigits(n, count)) == Some(n)
  {
    if count > 0 {
      QuotientFits(n, Power(count - 1));
      HexDigitsBack(n / 16, count - 1);
      HexRoundTrip(n % 16);
      assert HexDigits(n, count)[..count - 1] == HexDigits(n / 16, count - 1);
    }
  }

  lemma QuotientFits(n: nat, p: nat)
    requires n < p * 16
    ensures n / 16 < p
  {
  }

  lemma Powers()
    ensures Power(2) == 256 && Power(4) == 65536 && Power(8) >= 0x110000
  {
    assert Power(1) == 16 && Power(2) == 256 && Power(3) == 4096 && Power(4) == 65536;
    assert Power(5) == 1048576 && Power(6) == 16777216 && Power(7) == 268435456;
  }

  lemma {:induction false} ReadHexBack(digits: string, n: CodePoint, rest: string)
    requires HexNumber(digits) == Some(n)
    ensures ReadHex(digits + rest, |digits|) == Some((n, rest))
  {
    assert (digits + rest)[..|digits|] == digits && (digits + rest)[|digits|..] == rest;
  }

  /** A backslash, a letter and digits. */
  lemma {:induction false} HexEscapeBack(letter: char, digits: string, n: CodePoint, rest: string)
    requires HexNumber(digits) == Some(n)
    requires (letter == 'x' && |digits| == 2) || (letter == 'u' && |digits| == 4) || (letter == 'U' && |digits| == 8)
    ensures ReadChar(['\\', letter] + digits + rest) == Some((n, rest))
  {
    var s := ['\\', letter] + digits + rest;
    assert s[2..] == digits + rest;
    ReadHexBack(digits, n, rest);
  }

  predicate NeedsHex(w: Printing, q: char, c: CodePoint) {
    c != q as int && c != 92 && c != 9 && c != 10 && c != 13 && !(32 <= c < 127) && !Shown(w, c)
  }

  lemma LongBack(w: Printing, q: char, c: CodePoint, rest: string)
    requires NeedsHex(w, q, c)
    ensures ReadChar(EscapeIn(w, q, c) + rest) == Some((c, rest))
  {
    Powers();
    var count := if c < 256 then 2 else if c < 65536 then 4 else 8;
    HexDigitsBack(c, count);
    HexEscapeBack(if c < 256 then 'x' else if c < 65536 then 'u' else 'U', HexDigits(c, count), c, rest);
  }

  lemma ShortBack(w: Printing, q: char, c: CodePoint, rest: string)
    requires IsQuote(q) && !NeedsHex(w, q, c)
    ensures ReadChar(EscapeIn(w, q, c) + rest) == Some((c, rest))
  {
    var s := EscapeIn(w, q, c) + rest;
    if c == q as int || c == 92 || c == 9 || c == 10 || c == 13 {
      assert s[2..] == rest;
    } else {
      assert s[1..] == rest;
    }
  }

  lemma CharBack(w: Printing, q: char, c: CodePoint, rest: string)
    requires IsQuote(q)
    ensures ReadChar(EscapeIn(w, q, c) + rest) == Some((c, rest)) && EscapeIn(w, q, c) != "" && EscapeIn(w, q, c)[0] != q
  {
    if NeedsHex(w, q, c) {
      LongBack(w, q, c, rest);
    } else {
      ShortBack(w, q, c, rest);
    }
  }

  lemma {:induction false} BodyBack(w: Printing, q: char, t: Text, rest: string)
    requires IsQuote(q)
    ensures ReadBody(q, EscapeText(w, q, t) + ([q] + rest)) == Some((t, rest))
  {
    if t == [] {
      assert EscapeText(w, q, t) + ([q] + rest) == [q] + rest;
      assert ([q] + rest)[1..] == rest;
    } else {
      var others := EscapeText(w, q, t[1..]) + ([q] + rest);
      CharBack(w, q, t[0], others);
      BodyBack(w, q, t[1..], rest);
      BodyStep(q, EscapeIn(w, q, t[0]) + others, t[0], others, t[1..], rest);
      assert EscapeText(w, q, t) + ([q] + rest) == EscapeIn(w, q, t[0]) + others;
      assert t == [t[0]] + t[1..];
    }
  }

  lemma {:induction false} BodyStep(q: char, s: string, c: CodePoint, others: string, t: Text, rest: string)
    requires s != "" && s[0] != q && ReadChar(s) == Some((c, others)) && ReadBody(q, others) == Some((t, rest))
    ensures ReadBody(q, s) == Some(([c] + t, rest))
  {
  }

  // ------------------------------------------------------------ facts

  /** `repr` of a fact. */
  function Repr(w: Printing, v: Fact): string
    decreases v
  {
    match v
    case FNone => "None"
    case FBool(b) => if b then "True" else "False"
    case FInt(n) => Decimal(n)
    case FStr(text) => ReprStr(w, text)
    case FFloat(token) => token
    case FNonFinite(special) => (match special case Nan => "nan" case Inf => "inf" case NegInf => "-inf")
    case FDim(kind, value) => ReprRecord(w, "DimKey(kind=", kind, Repr(w, value))
    case FField(name, value) => ReprRecord(w, "KeyField(name=", name, Repr(w, value))
    case FLegacy => w.legacyText
    case FTuple(items) => "(" + ReprItems(w, items) + TupleEnd(|items|)
    case FList(items) => "[" + ReprItems(w, items) + "]"
    case FDict(pairs) => "{" + ReprPairs(w, pairs) + "}"
    case FOpaque(id) => w.opaqueText(id)
  }

  /** A tuple of one keeps its comma. */
  function TupleEnd(n: nat): string { if n == 1 then ",)" else ")" }

  function ReprRecord(w: Printing, head: string, name: Text, value: string): string {
    head + (ReprStr(w, name) + (", value=" + (value + ")")))
  }

  function ReprItems(w: Printing, vs: seq<Fact>): string
    decreases vs
  {
    if vs == [] then ""
    else if |vs| == 1 then Repr(w, vs[0])
    else Repr(w, vs[0]) + ", " + ReprItems(w, vs[1..])
  }

  function ReprPair(w: Printing, p: Pair): string
    decreases p
  {
    (if p.key.TextKey? then ReprStr(w, p.key.text) else w.opaqueText(p.key.id)) + ": " + Repr(w, p.value)
  }

  function ReprPairs(w: Printing, ps: seq<Pair>): string
    decreases ps
  {
    if ps == [] then ""
    else if |ps| == 1 then ReprPair(w, ps[0])
    else ReprPair(w, ps[0]) + ", " + ReprPairs(w, ps[1..])
  }

  // ------------------------------------------------------------ reading back

  type Read<T> = Option<(T, string)>

  function ReadWord(s: string, word: string, v: Fact): (r: Read<Fact>)
    requires word != ""
    ensures r.Some? ==> |r.value.1| < |s|
  {
    if word <= s then Some((v, s[|word|..])) else None
  }

  function ReadNumber(s: string): (r: Read<Fact>)
    ensures r.Some? ==> |r.value.1| < |s|
  {
    var k := NumberRun(s);
    if k == 0 then None
    else if AllInt(s[..k]) then Some((FInt(IntOf(s[..k])), s[k..]))
    else if FloatToken(s[..k]) then Some((FFloat(s[..k]), s[k..]))
    else None
  }

  function ReadStr(s: string): (r: Read<Text>)
    ensures r.Some? ==> |r.value.1| < |s|
  {
    if s == "" || !IsQuote(s[0]) then None else ReadBody(s[0], s[1..])
  }

  function ReadScalar(s: string): (r: Read<Fact>)
    requires s != ""
    ensures r.Some? ==> |r.value.1| < |s|
  {
    if s[0] == 'N' then ReadWord(s, "None", FNone)
    else if s[0] == 'T' then ReadWord(s, "True", FBool(true))
    else if s[0] == 'F' then ReadWord(s, "False", FBool(false))
    else if IsQuote(s[0]) then
      var t := ReadStr(s);
      if t.None? then None else Some((FStr(t.value.0), t.value.1))
    else ReadNumber(s)
  }

  function ReadFact(s: string): (r: Read<Fact>)
    ensures r.Some? ==> |r.value.1| < |s|
    decreases |s|, 0
  {
    if s == "" then None
    else if s[0] == '(' then
      var items := ReadItems(')', s[1..]);
      if items.None? then None else Some((FTuple(items.value.0), items.value.1))
    else if s[0] == '[' then
      var items := ReadItems(']', s[1..]);
      if items.None? then None else Some((FList(items.value.0), items.value.1))
    else if s[0] == '{' then
      var pairs := ReadPairs(s[1..]);
      if pairs.None? then None else Some((FDict(pairs.value.0), pairs.value.1))
    else if s[0] == 'D' && "DimKey(kind=" <= s then
      var r := ReadRecord(s[12..]);
      if r.None? then None else Some((FDim(r.value.0.0, r.value.0.1), r.value.1))
    else if s[0] == 'K' && "KeyField(name=" <= s then
      var r := ReadRecord(s[14..]);
      if r.None? then None else Some((FField(r.value.0.0, r.value.0.1), r.value.1))
    else ReadScalar(s)
  }

  /** A quoted name, a value and the closing parenthesis. */
  function ReadRecord(s: string): (r: Read<(Text, Fact)>)
    ensures r.Some? ==> |r.value.1| < |s|
    decreases |s|, 1
  {
    var name := ReadStr(s);
    if name.None? || !(", value=" <= name.value.1) then None
    else
      var value := ReadFact(name.value.1[8..]);
      if value.None? || value.value.1 == "" || value.value.1[0] != ')' then None
      else Some(((name.value.0, value.value.0), value.value.1[1..]))
  }

  /** Values up to a closing character; a comma may come before it. */
  function ReadItems(close: char, s: string): (r: Read<seq<Fact>>)
    ensures r.Some? ==> |r.value.1| < |s|
    decreases |s|, 1
  {
    if s == "" then None
    else if s[0] == close then Some(([], s[1..]))
    else
      var first := ReadFact(s);
      if first.None? then None else ReadMore(close, s, first.value.0, first.value.1)
  }

  function ReadMore(close: char, s: string, v: Fact, after: string): (r: Read<seq<Fact>>)
    requires |after| < |s|
    ensures r.Some? ==> |r.value.1| < |s|
    decreases |s|, 0
  {
    if after == "" then None
    else if after[0] == close then Some(([v], after[1..]))
    else if |after| < 2 || after[0] != ',' then None
    else if after[1] == close then Some(([v], after[2..]))
    else if after[1] != ' ' then None
    else
      var others := ReadItems(close, after[2..]);
      if others.None? then None else Some(([v] + others.value.0, others.value.1))
  }

  function ReadPair(s: string): (r: Read<Pair>)
    ensures r.Some? ==> |r.value.1| < |s|
    decreases |s|, 1
  {
    var key := ReadStr(s);
    if key.None? || !(": " <= key.value.1) then None
    else
      var value := ReadFact(key.value.1[2..]);
      if value.None? then None else Some((Pair(TextKey(key.value.0), value.value.0), value.value.1))
  }

  function ReadPairs(s: string): (r: Read<seq<Pair>>)
    ensures r.Some? ==> |r.value.1| < |s|
    decreases |s|, 2
  {
    if s == "" then None
    else if s[0] == '}' then Some(([], s[1..]))
    else
      var first := ReadPair(s);
      if first.None? || first.value.1 == "" then None
      else if first.value.1[0] == '}' then Some(([first.value.0], first.value.1[1..]))
      else if !(", " <= first.value.1) then None
      else
        var others := ReadPairs(first.value.1[2..]);
        if others.None? then None else Some(([first.value.0] + others.value.0, others.value.1))
  }

  // ------------------------------------------------------------ round trip

  lemma StrBack(w: Printing, t: Text, rest: string)
    ensures ReadStr(ReprStr(w, t) + rest) == Some((t, rest))
    ensures ReprStr(w, t) != "" && IsQuote(ReprStr(w, t)[0])
  {
    var q := QuoteOf(t);
    var s := ReprStr(w, t) + rest;
    assert s[0] == q;
    assert s[1..] == EscapeText(w, q, t) + ([q] + rest);
    BodyBack(w, q, t, rest);
  }

  lemma {:induction false} NumberBack(token: string, rest: string)
    requires token != "" && AllNumber(token) && Ends(rest)
    ensures ReadFact(token + rest) ==
            Some((if AllInt(token) then FInt(IntOf(token)) else assert FloatToken(token); FFloat(token), rest))
  {
    var s := token + rest;
    RunStopsAtEnd(token, rest);
    assert s[..|token|] == token && s[|token|..] == rest;
    assert NumberChar(s[0]);
    assert ReadFact(s) == ReadScalar(s) == ReadNumber(s);
  }

  lemma {:induction false} WordBack(word: string, rest: string)
    requires word == "None" || word == "True" || word == "False"
    ensures ReadFact(word + rest) == Some((if word == "None" then FNone else FBool(word == "True"), rest))
  {
    var s := word + rest;
    assert word <= s && s[|word|..] == rest && s[0] == word[0];
  }

  lemma {:induction false} TextBack(w: Printing, t: Text, rest: string)
    ensures ReadFact(ReprStr(w, t) + rest) == Some((FStr(t), rest))
  {
    StrBack(w, t, rest);
    var s := ReprStr(w, t) + rest;
    assert IsQuote(s[0]);
  }

  /** No plain value starts like a closing bracket. */
  lemma {:induction false} FirstOf(w: Printing, v: Fact)
    requires IsJsonPod(v)
    ensures Repr(w, v) != "" && Repr(w, v)[0] !in {')', ']', '}'}
  {
    match v
    case FInt(n) =>
      IntRoundTrip(n);
      assert IntChar(Decimal(n)[0]);
    case FFloat(token) =>
      assert token != "" && NumberChar(token[0]);
    case FStr(text) => StrBack(w, text, "");
    case _ =>
  }

  lemma {:induction false} RecordStep(s: string, name: Text, v: Fact, body: string, rest: string)
    requires ReadStr(s) == Some((name, ", value=" + body)) && ReadFact(body) == Some((v, ")" + rest))
    ensures ReadRecord(s) == Some(((name, v), rest))
  {
    assert (", value=" + body)[8..] == body;
    assert (")" + rest)[1..] == rest;
  }

  lemma {:induction false} DimStep(s: string, name: Text, v: Fact, rest: string)
    requires ReadRecord(s) == Some(((name, v), rest))
    ensures ReadFact("DimKey(kind=" + s) == Some((FDim(name, v), rest))
    ensures ReadFact("KeyField(name=" + s) == Some((FField(name, v), rest))
  {
    assert ("DimKey(kind=" + s)[12..] == s && ("KeyField(name=" + s)[14..] == s;
  }

  lemma {:induction false} BracketBack(s: string, vs: seq<Fact>, rest: string)
    ensures ReadItems(')', s) == Some((vs, rest)) ==> ReadFact("(" + s) == Some((FTuple(vs), rest))
    ensures ReadItems(']', s) == Some((vs, rest)) ==> ReadFact("[" + s) == Some((FList(vs), rest))
  {
    assert ("(" + s)[1..] == s && ("[" + s)[1..] == s;
  }

  lemma {:induction false} BraceBack(s: string, ps: seq<Pair>, rest: string)
    requires ReadPairs(s) == Some((ps, rest))
    ensures ReadFact("{" + s) == Some((FDict(ps), rest))
  {
    assert ("{" + s)[1..] == s;
  }

  /** Reading undoes printing on plain data, whatever follows. */
  lemma {:induction false} ReadsBack(w: Printing, v: Fact, rest: string)
    requires IsJsonPod(v) && Ends(rest)
    ensures ReadFact(Repr(w, v) + rest) == Some((v, rest))
    decreases v, 0
  {
    match v
    case FNone => WordBack("None", rest);
    case FBool(b) => WordBack(if b then "True" else "False", rest);
    case FInt(n) =>
      IntRoundTrip(n);
      NumberBack(Decimal(n), rest);
    case FFloat(token) => NumberBack(token, rest);
    case FStr(text) => TextBack(w, text, rest);
    case FDim(kind, value) =>
      ReadsBack(w, value, ")" + rest);
      RecordBack(w, kind, value, rest);
      RecordParts(w, "DimKey(kind=", kind, value, rest);
    case FField(name, value) =>
      ReadsBack(w, value, ")" + rest);
      RecordBack(w, name, value, rest);
      RecordParts(w, "KeyField(name=", name, value, rest);
    case FTuple(items) => TupleBack(w, items, rest);
    case FList(items) => ListBack(w, items, rest);
    case FDict(pairs) => DictBack(w, pairs, rest);
  }

  function RecordBody(w: Printing, name: Text, value: Fact, rest: string): string {
    ReprStr(w, name) + (", value=" + (Repr(w, value) + (")" + rest)))
  }

  lemma {:induction false} RecordParts(w: Printing, head: string, name: Text, value: Fact, rest: string)
    ensures ReprRecord(w, head, name, Repr(w, value)) + rest == head + RecordBody(w, name, value, rest)
  {
  }

  lemma Regroup(a: string, b: string, c: string, d: string)
    ensures a + b + c + d == a + (b + c + d)
  {
  }

  lemma {:induction false} RecordBack(w: Printing, name: Text, value: Fact, rest: string)
    requires ReadFact(Repr(w, value) + (")" + rest)) == Some((value, ")" + rest))
    ensures ReadFact("DimKey(kind=" + RecordBody(w, name, value, rest)) == Some((FDim(name, value), rest))
    ensures ReadFact("KeyField(name=" + RecordBody(w, name, value, rest)) == Some((FField(name, value), rest))
  {
    var body := Repr(w, value) + (")" + rest);
    StrBack(w, name, ", value=" + body);
    RecordStep(RecordBody(w, name, value, rest), name, value, body, rest);
    DimStep(RecordBody(w, name, value, rest), name, value, rest);
  }

  lemma {:induction false} TupleBack(w: Printing, items: seq<Fact>, rest: string)
    requires forall i :: 0 <= i < |items| ==> IsJsonPod(items[i])
    ensures ReadFact("(" + ReprItems(w, items) + TupleEnd(|items|) + rest) == Some((FTuple(items), rest))
    decreases items, 2
  {
    var body := ReprItems(w, items) + TupleEnd(|items|) + rest;
    if items == [] {
      EmptyBack(')', rest);
      assert body == [')'] + rest;
    } else {
      ItemsBack(w, ')', items, TupleEnd(|items|), rest);
    }
    BracketBack(body, items, rest);
    Regroup("(", ReprItems(w, items), TupleEnd(|items|), rest);
  }

  lemma {:induction false} ListBack(w: Printing, items: seq<Fact>, rest: string)
    requires forall i :: 0 <= i < |items| ==> IsJsonPod(items[i])
    ensures ReadFact("[" + ReprItems(w, items) + "]" + rest) == Some((FList(items), rest))
    decreases items, 2
  {
    var body := ReprItems(w, items) + "]" + rest;
    if items == [] {
      EmptyBack(']', rest);
      assert body == [']'] + rest;
    } else {
      ItemsBack(w, ']', items, "]", rest);
    }
    BracketBack(body, items, rest);
    Regroup("[", ReprItems(w, items), "]", rest);
  }

  lemma {:induction false} EmptyBack(close: char, rest: string)
    ensures ReadItems(close, [close] + rest) == Some(([], rest))
  {
    assert ([close] + rest)[1..] == rest;
  }

  /** What follows the first of several items. */
  function AfterFirst(w: Printing, vs: seq<Fact>, closing: string, rest: string): string
    requires vs != []
  {
    if |vs| == 1 then closing + rest else ", " + (ReprItems(w, vs[1..]) + closing + rest)
  }

  lemma {:induction false} ItemsParts(w: Printing, vs: seq<Fact>, closing: string, rest: string)
    requires vs != []
    ensures ReprItems(w, vs) + closing + rest == Repr(w, vs[0]) + AfterFirst(w, vs, closing, rest)
  {
  }

  predicate IsClosing(close: char, closing: string) { close in {')', ']'} && (closing == [close] || closing == [',', close]) }

  lemma {:induction false} LastBack(close: char, s: string, vs: seq<Fact>, closing: string, rest: string)
    requires |vs| == 1 && IsClosing(close, closing)
    requires s != "" && s[0] != close && ReadFact(s) == Some((vs[0], closing + rest))
    ensures ReadItems(close, s) == Some((vs, rest))
  {
    var after := closing + rest;
    if closing == [close] {
      assert after[1..] == rest;
    } else {
      assert after[2..] == rest;
    }
    assert vs == [vs[0]];
  }

  lemma {:induction false} NextBack(close: char, s: string, vs: seq<Fact>, tail: string, rest: string)
    requires |vs| > 1 && close in {')', ']'}
    requires s != "" && s[0] != close && ReadFact(s) == Some((vs[0], ", " + tail))
    requires ReadItems(close, tail) == Some((vs[1..], rest))
    ensures ReadItems(close, s) == Some((vs, rest))
  {
    assert (", " + tail)[2..] == tail;
    assert vs == [vs[0]] + vs[1..];
  }

  lemma {:induction false} ItemsBack(w: Printing, close: char, vs: seq<Fact>, closing: string, rest: string)
    requires vs != [] && IsClosing(close, closing) && forall i :: 0 <= i < |vs| ==> IsJsonPod(vs[i])
    ensures ReadItems(close, ReprItems(w, vs) + closing + rest) == Some((vs, rest))
    decreases vs, 1
  {
    var s, after := ReprItems(w, vs) + closing + rest, AfterFirst(w, vs, closing, rest);
    ItemsParts(w, vs, closing, rest);
    FirstOfText(w, vs[0], after);
    ReadsBack(w, vs[0], after);
    if |vs| == 1 {
      LastBack(close, s, vs, closing, rest);
    } else {
      ItemsBack(w, close, vs[1..], closing, rest);
      NextBack(close, s, vs, ReprItems(w, vs[1..]) + closing + rest, rest);
    }
  }

  lemma {:induction false} FirstOfText(w: Printing, v: Fact, after: string)
    requires IsJsonPod(v)
    ensures Repr(w, v) + after != "" && (Repr(w, v) + after)[0] !in {')', ']', '}'}
  {
    FirstOf(w, v);
  }

  lemma {:induction false} DictBack(w: Printing, ps: seq<Pair>, rest: string)
    requires forall i :: 0 <= i < |ps| ==> ps[i].key.TextKey? && IsJsonPod(ps[i].value)
    ensures ReadFact("{" + ReprPairs(w, ps) + "}" + rest) == Some((FDict(ps), rest))
    decreases ps, 2
  {
    var body := ReprPairs(w, ps) + "}" + rest;
    if ps == [] {
      assert body == "}" + rest && body[1..] == rest;
    } else {
      PairsBack(w, ps, rest);
    }
    BraceBack(body, ps, rest);
    Regroup("{", ReprPairs(w, ps), "}", rest);
  }

  lemma {:induction false} PairStep(s: string, key: Text, body: string, v: Fact, rest: string)
    requires ReadStr(s) == Some((key, ": " + body)) && ReadFact(body) == Some((v, rest))
    ensures ReadPair(s) == Some((Pair(TextKey(key), v), rest))
  {
    assert (": " + body)[2..] == body;
  }

  lemma {:induction false} PairParts(w: Printing, p: Pair, rest: string)
    requires p.key.TextKey?
    ensures ReprPair(w, p) + rest == ReprStr(w, p.key.text) + (": " + (Repr(w, p.value) + rest))
  {
  }

  lemma {:induction false} PairBack(w: Printing, p: Pair, rest: string)
    requires p.key.TextKey? && IsJsonPod(p.value) && Ends(rest)
    ensures ReadPair(ReprPair(w, p) + rest) == Some((p, rest))
    ensures ReprPair(w, p) + rest != "" && (ReprPair(w, p) + rest)[0] != '}'
    decreases p, 1
  {
    var body := Repr(w, p.value) + rest;
    PairParts(w, p, rest);
    StrBack(w, p.key.text, ": " + body);
    ReadsBack(w, p.value, rest);
    PairStep(ReprPair(w, p) + rest, p.key.text, body, p.value, rest);
  }

  function AfterPair(w: Printing, ps: seq<Pair>, rest: string): string
    requires ps != []
  {
    if |ps| == 1 then "}" + rest else ", " + (ReprPairs(w, ps[1..]) + "}" + rest)
  }

  lemma {:induction false} PairsParts(w: Printing, ps: seq<Pair>, rest: string)
    requires ps != []
    ensures ReprPairs(w, ps) + "}" + rest == ReprPair(w, ps[0]) + AfterPair(w, ps, rest)
  {
  }

  lemma {:induction false} LastPairBack(s: string, ps: seq<Pair>, rest: string)
    requires |ps| == 1 && s != "" && s[0] != '}' && ReadPair(s) == Some((ps[0], "}" + rest))
    ensures ReadPairs(s) == Some((ps, rest))
  {
    assert ("}" + rest)[1..] == rest;
    assert ps == [ps[0]];
  }

  lemma {:induction false} NextPairBack(s: string, ps: seq<Pair>, tail: string, rest: string)
    requires |ps| > 1 && s != "" && s[0] != '}' && ReadPair(s) == Some((ps[0], ", " + tail))
    requires ReadPairs(tail) == Some((ps[1..], rest))
    ensures ReadPairs(s) == Some((ps, rest))
  {
    assert (", " + tail)[2..] == tail;
    assert ps == [ps[0]] + ps[1..];
  }

  lemma {:induction false} PairsBack(w: Printing, ps: seq<Pair>, rest: string)
    requires ps != [] && forall i :: 0 <= i < |ps| ==> ps[i].key.TextKey? && IsJsonPod(ps[i].value)
    ensures ReadPairs(ReprPairs(w, ps) + "}" + rest) == Some((ps, rest))
    decreases ps, 1
  {
    var s := ReprPairs(w, ps) + "}" + rest;
    PairsParts(w, ps, rest);
    PairBack(w, ps[0], AfterPair(w, ps, rest));
    if |ps| == 1 {
      LastPairBack(s, ps, rest);
    } else {
      PairsBack(w, ps[1..], rest);
      NextPairBack(s, ps, ReprPairs(w, ps[1..]) + "}" + rest, rest);
    }
  }

  /** Plain data prints faithfully: different values, different representations. */
  lemma {:induction false} ReprFaithful(w: Printing, v: Fact, u: Fact)
    requires IsJsonPod(v) && IsJsonPod(u) && Repr(w, v) == Repr(w, u)
    ensures v == u
  {
    ReadsBack(w, v, "");
    ReadsBack(w, u, "");
    assert Repr(w, v) + "" == Repr(w, v) && Repr(w, u) + "" == Repr(w, u);
  }
}
