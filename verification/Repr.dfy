/** The quoted forms of strings and bytes (`str_repr`, `bytes_repr` and `bytearray_repr` of
    src/slice.rs), and the reader of Python literals that undoes them. */
module Repr {
  import opened Wrappers
  import opened Sequences

  // ----- hex digits -----

  function HexDigit(d: nat): char
    requires d < 16
  {
    "0123456789abcdef"[d]
  }

  /** `n` in lower-case hex, `width` digits. */
  function Hex(n: nat, width: nat): string {
    if width == 0 then "" else Hex(n / 16, width - 1) + [HexDigit(n % 16)]
  }

  function HexValue(c: char): Option<nat> {
    if '0' <= c <= '9' then Some(c as int - '0' as int)
    else if 'a' <= c <= 'f' then Some(c as int - 'a' as int + 10)
    else None
  }

  function ReadHex(s: string): Option<nat> {
    if s == "" then Some(0)
    else
      var front, last := ReadHex(s[..|s| - 1]), HexValue(s[|s| - 1]);
      if front.None? || last.None? then None else Some(front.value * 16 + last.value)
  }

  function Pow16(n: nat): nat {
    if n == 0 then 1 else 16 * Pow16(n - 1)
  }

  lemma ReadHexLast(front: string, c: char)
    requires ReadHex(front).Some? && HexValue(c).Some?
    ensures ReadHex(front + [c]) == Some(ReadHex(front).value * 16 + HexValue(c).value)
  {
    assert (front + [c])[..|front|] == front;
  }

  lemma HexDigitReads(d: nat)
    requires d < 16
    ensures HexValue(HexDigit(d)) == Some(d)
  {
  }

  lemma {:induction false} HexRoundTrip(n: nat, width: nat)
    requires n < Pow16(width)
    ensures |Hex(n, width)| == width && ReadHex(Hex(n, width)) == Some(n)
  {
    if width > 0 {
      assert Pow16(width) == 16 * Pow16(width - 1);
      assert n / 16 < Pow16(width - 1);
      HexRoundTrip(n / 16, width - 1);
      HexDigitReads(n % 16);
      ReadHexLast(Hex(n / 16, width - 1), HexDigit(n % 16));
    }
  }

  // ----- what is shared -----

  /** The quote that needs fewer escapes, single when in doubt. */
  function Quote(hasSingle: bool, hasDouble: bool): char {
    if hasSingle && !hasDouble then '"' else '\''
  }

  /** The reader of a literal's body up to the closing `quote`: the code points it denotes and the
      text after it. `bytes` literals have no `\u` escapes. */
  function ReadBody(t: string, quote: char, bytes: bool): Option<(seq<int>, string)> {
    if t == "" then None
    else if t[0] == quote then Some(([], t[1..]))
    else if t[0] != '\\' then Prepend(t[0] as int, ReadBody(t[1..], quote, bytes))
    else if |t| < 2 then None
    else match t[1]
      case 'n' => Prepend('\n' as int, ReadBody(t[2..], quote, bytes))
      case 't' => Prepend('\t' as int, ReadBody(t[2..], quote, bytes))
      case 'r' => Prepend('\r' as int, ReadBody(t[2..], quote, bytes))
      case '\\' => Prepend('\\' as int, ReadBody(t[2..], quote, bytes))
      case '\'' => Prepend('\'' as int, ReadBody(t[2..], quote, bytes))
      case '"' => Prepend('"' as int, ReadBody(t[2..], quote, bytes))
      case _ =>
        var width := if t[1] == 'x' then 2 else if bytes then 0 else if t[1] == 'u' then 4 else if t[1] == 'U' then 8 else 0;
        if width == 0 || |t| < 2 + width || ReadHex(t[2..2 + width]).None? then None
        else Prepend(ReadHex(t[2..2 + width]).value, ReadBody(t[2 + width..], quote, bytes))
  }

  function Prepend(c: int, r: Option<(seq<int>, string)>): Option<(seq<int>, string)> {
    if r.None? then None else Some(([c] + r.value.0, r.value.1))
  }

  /** A `\x`, `\u` or `\U` escape reads back as its code. */
  lemma ReadHexEscape(mark: char, n: nat, width: nat, rest: string, quote: char, bytes: bool)
    requires quote != '\\' && n < Pow16(width)
    requires (mark == 'x' && width == 2) || (!bytes && ((mark == 'u' && width == 4) || (mark == 'U' && width == 8)))
    ensures ReadBody(['\\', mark] + Hex(n, width) + rest, quote, bytes) == Prepend(n, ReadBody(rest, quote, bytes))
  {
    HexRoundTrip(n, width);
    var t := ['\\', mark] + Hex(n, width) + rest;
    assert t[2..2 + width] == Hex(n, width) && t[2 + width..] == rest;
    ReadHexStep(t, width, quote, bytes);
  }

  lemma ReadHexStep(t: string, width: nat, quote: char, bytes: bool)
    requires quote != '\\' && 2 + width <= |t| && t[0] == '\\' && ReadHex(t[2..2 + width]).Some?
    requires (t[1] == 'x' && width == 2) || (!bytes && ((t[1] == 'u' && width == 4) || (t[1] == 'U' && width == 8)))
    ensures ReadBody(t, quote, bytes) == Prepend(ReadHex(t[2..2 + width]).value, ReadBody(t[2 + width..], quote, bytes))
  {
  }

  // ----- strings -----

  type Printable = char -> bool

  /** Controls, and whatever else is not printable: an arbitrary predicate outside ASCII. */
  predicate NeedsHex(printable: Printable, c: char) {
    var n := c as int;
    n < 0x20 || n == 0x7F || (n >= 0x80 && !printable(c))
  }

  function EscapeChar(printable: Printable, quote: char, c: char): string {
    if c == '\n' then "\\n"
    else if c == '\t' then "\\t"
    else if c == '\r' then "\\r"
    else if c == '\\' then "\\\\"
    else if c == quote then ['\\', c]
    else if NeedsHex(printable, c) then
      var n := c as int;
      if n <= 0xFF then "\\x" + Hex(n, 2)
      else if n <= 0xFFFF then "\\u" + Hex(n, 4)
      else "\\U" + Hex(n, 8)
    else [c]
  }

  function EscapeAll(printable: Printable, quote: char, s: string): string {
    if s == "" then "" else EscapeChar(printable, quote, s[0]) + EscapeAll(printable, quote, s[1..])
  }

  function QuoteOf(s: string): char {
    Quote('\'' in s, '"' in s)
  }

  function StrRepr(printable: Printable, s: string): string {
    [QuoteOf(s)] + EscapeAll(printable, QuoteOf(s), s) + [QuoteOf(s)]
  }

  method StrReprLoop(printable: Printable, s: string) returns (out: string)
    ensures out == StrRepr(printable, s)
  {
    var quote := QuoteOf(s);
    out := [quote];
    for i := 0 to |s|
      invariant StrRepr(printable, s) == out + EscapeAll(printable, quote, s[i..]) + [quote]
    {
      assert s[i..][1..] == s[i + 1..];
      Assoc(out, EscapeChar(printable, quote, s[i]), EscapeAll(printable, quote, s[i + 1..]));
      out := out + EscapeChar(printable, quote, s[i]);
    }
    out := out + [quote];
  }

  function Codes(s: string): seq<int> {
    seq(|s|, i requires 0 <= i < |s| => s[i] as int)
  }

  lemma CodesOfHead(s: string)
    requires s != ""
    ensures Codes(s) == [s[0] as int] + Codes(s[1..])
  {
  }

  lemma Pow16Values()
    ensures Pow16(2) == 0x100 && Pow16(4) == 0x1_0000 && Pow16(8) == 0x1_0000_0000
  {
    assert Pow16(3) == 0x1000;
    assert Pow16(5) == 0x10_0000;
    assert Pow16(6) == 0x100_0000;
    assert Pow16(7) == 0x1000_0000;
  }

  /** Each escaped character reads back as itself. */
  lemma ReadEscapedChar(printable: Printable, quote: char, c: char, rest: string)
    requires quote == '\'' || quote == '"'
    ensures ReadBody(EscapeChar(printable, quote, c) + rest, quote, false) == Prepend(c as int, ReadBody(rest, quote, false))
  {
    var t := EscapeChar(printable, quote, c) + rest;
    if c in {'\n', '\t', '\r', '\\', quote} {
      assert t[2..] == rest;
    } else if NeedsHex(printable, c) {
      var n := c as int;
      Pow16Values();
      ReadHexEscape(if n <= 0xFF then 'x' else if n <= 0xFFFF then 'u' else 'U', n,
                    if n <= 0xFF then 2 else if n <= 0xFFFF then 4 else 8, rest, quote, false);
    } else {
      assert t[1..] == rest;
    }
  }

  lemma {:induction false} ReadEscaped(printable: Printable, quote: char, s: string, rest: string)
    requires quote == '\'' || quote == '"'
    ensures ReadBody(EscapeAll(printable, quote, s) + [quote] + rest, quote, false) == Some((Codes(s), rest))
  {
    if s == "" {
      assert "" + [quote] + rest == [quote] + rest && ([quote] + rest)[1..] == rest;
      assert Codes(s) == [];
    } else {
      var tail := EscapeAll(printable, quote, s[1..]) + [quote] + rest;
      ReadEscaped(printable, quote, s[1..], rest);
      ReadEscapedChar(printable, quote, s[0], tail);
      Assoc4(EscapeChar(printable, quote, s[0]), EscapeAll(printable, quote, s[1..]), [quote], rest);
      CodesOfHead(s);
    }
  }

  function ReadLiteral(t: string, bytes: bool): Option<(seq<int>, string)> {
    if t == "" || !(t[0] == '\'' || t[0] == '"') then None else ReadBody(t[1..], t[0], bytes)
  }

  lemma ReadLiteralBody(quote: char, body: string, bytes: bool)
    requires quote == '\'' || quote == '"'
    ensures ReadLiteral([quote] + body, bytes) == ReadBody(body, quote, bytes)
  {
    assert ([quote] + body)[1..] == body;
  }

  /** Reading a string's repr, whatever follows it, gives the string back and stops right after. */
  lemma StrReprReadsBack(printable: Printable, s: string, rest: string)
    ensures ReadLiteral(StrRepr(printable, s) + rest, false) == Some((Codes(s), rest))
  {
    var quote := QuoteOf(s);
    var body := EscapeAll(printable, quote, s) + [quote] + rest;
    ReadEscaped(printable, quote, s, rest);
    ReadLiteralBody(quote, body, false);
    Assoc4([quote], EscapeAll(printable, quote, s), [quote], rest);
  }

  lemma CodesAreInjective(a: string, b: string)
    requires Codes(a) == Codes(b)
    ensures a == b
  {
    assert |a| == |Codes(a)| == |Codes(b)| == |b|;
    forall i | 0 <= i < |a| ensures a[i] == b[i] { assert Codes(a)[i] == Codes(b)[i]; }
  }

  /** No repr is a proper prefix of another, so what follows a repr can never be read into it. */
  lemma StrReprIsPrefixFree(printable: Printable, a: string, b: string, restA: string, restB: string)
    requires StrRepr(printable, a) + restA == StrRepr(printable, b) + restB
    ensures a == b && restA == restB
  {
    StrReprReadsBack(printable, a, restA);
    StrReprReadsBack(printable, b, restB);
    CodesAreInjective(a, b);
  }

  // ----- what it looks like -----

  /** The quotes are double exactly when the text holds a single quote and no double one. */
  lemma StrReprIsQuoted(printable: Printable, s: string)
    ensures var r := StrRepr(printable, s);
            && |r| >= 2 && r[0] == r[|r| - 1] && (r[0] == '"' || r[0] == '\'')
            && (r[0] == '"' <==> '\'' in s && '"' !in s)
            && r[1..|r| - 1] == EscapeAll(printable, r[0], s)
  {
    var body := EscapeAll(printable, QuoteOf(s), s);
    assert StrRepr(printable, s)[1..|body| + 1] == body;
  }

  /** Inside, every character is written on its own. */
  lemma {:induction false} EscapeConcat(printable: Printable, quote: char, a: string, b: string)
    ensures EscapeAll(printable, quote, a + b) == EscapeAll(printable, quote, a) + EscapeAll(printable, quote, b)
    ensures forall c :: EscapeAll(printable, quote, [c]) == EscapeChar(printable, quote, c)
  {
    forall c ensures EscapeAll(printable, quote, [c]) == EscapeChar(printable, quote, c) {
      assert [c][1..] == "";
      assert EscapeChar(printable, quote, c) + "" == EscapeChar(printable, quote, c);
    }
    if a == "" {
      assert a + b == b;
    } else {
      assert (a + b)[1..] == a[1..] + b;
      EscapeConcat(printable, quote, a[1..], b);
      Assoc(EscapeChar(printable, quote, a[0]), EscapeAll(printable, quote, a[1..]), EscapeAll(printable, quote, b));
    }
  }

  /** How one character is written: as itself when it is printable and needs no backslash, else behind a
      backslash, by letter, by itself or by its code in the shortest of three widths. */
  lemma CharIsWritten(printable: Printable, quote: char, c: char)
    requires quote == '\'' || quote == '"'
    ensures var e, n := EscapeChar(printable, quote, c), c as int;
            && (e == [c] <==> c != quote && c != '\\' && (0x20 <= n <= 0x7E || (n >= 0x80 && printable(c))))
            && (c == '\n' ==> e == "\\n") && (c == '\t' ==> e == "\\t") && (c == '\r' ==> e == "\\r")
            && (c == '\\' || c == quote ==> e == ['\\', c])
            && (e != [c] && |e| > 2 ==>
                  && e[0] == '\\' && |e| == (if n < 0x100 then 4 else if n < 0x1_0000 then 6 else 10)
                  && e[1] == (if n < 0x100 then 'x' else if n < 0x1_0000 then 'u' else 'U'))
            && (|e| == 2 ==> c in {'\n', '\t', '\r', '\\', quote})
  {
    HexLength(c as int, 2);
    HexLength(c as int, 4);
    HexLength(c as int, 8);
  }

  lemma {:induction false} HexLength(n: nat, width: nat)
    ensures |Hex(n, width)| == width
  {
    if width > 0 { HexLength(n / 16, width - 1); }
  }

  // ----- nested displays -----

  /** A value shown with its strings nested: a string, or a list of values. */
  datatype Value = Text(s: string) | List(items: seq<Value>)

  function Show(printable: Printable, v: Value): string
    decreases v
  {
    match v
    case Text(s) => StrRepr(printable, s)
    case List(items) => "[" + ShowItems(printable, items)
  }

  /** The items joined by `, `, and the closing bracket. */
  function ShowItems(printable: Printable, items: seq<Value>): string
    decreases items, 1
  {
    if items == [] then "]" else Show(printable, items[0]) + ShowRest(printable, items)
  }

  /** What follows the first item. */
  function ShowRest(printable: Printable, items: seq<Value>): string
    requires items != []
    decreases items, 0
  {
    if |items| == 1 then "]" else ", " + ShowItems(printable, items[1..])
  }

  lemma ShowStarts(printable: Printable, v: Value)
    ensures Show(printable, v) != "" && Show(printable, v)[0] == if v.List? then '[' else QuoteOf(v.s)
  {
  }

  /** A list is shown in brackets, its items joined by a comma and a space. */
  lemma ShowJoins(printable: Printable, v: Value, items: seq<Value>)
    ensures Show(printable, List([])) == "[]"
    ensures Show(printable, List([v])) == "[" + (Show(printable, v) + "]")
    ensures items != [] ==>
              Show(printable, List([v] + items)) == "[" + (Show(printable, v) + (", " + Show(printable, List(items))[1..]))
  {
    var more := [v] + items;
    assert more[0] == v && more[1..] == items;
    assert ShowRest(printable, [v]) == "]" && ShowItems(printable, [v]) == Show(printable, v) + "]";
    assert Show(printable, List(items))[1..] == ShowItems(printable, items);
    if items != [] {
      assert ShowRest(printable, more) == ", " + ShowItems(printable, items);
      assert ShowItems(printable, more) == Show(printable, v) + ShowRest(printable, more);
    }
  }

  /** Different values never display alike, even with anything written after them. */
  lemma {:induction false} ShowIsPrefixFree(printable: Printable, v: Value, w: Value, restV: string, restW: string)
    requires Show(printable, v) + restV == Show(printable, w) + restW
    ensures v == w && restV == restW
    decreases v
  {
    ShowStarts(printable, v);
    ShowStarts(printable, w);
    assert (Show(printable, v) + restV)[0] == (Show(printable, w) + restW)[0];
    if v.Text? {
      StrReprIsPrefixFree(printable, v.s, w.s, restV, restW);
    } else {
      AfterBracket(printable, v.items, restV);
      AfterBracket(printable, w.items, restW);
      ItemsArePrefixFree(printable, v.items, w.items, restV, restW);
    }
  }

  lemma AfterBracket(printable: Printable, items: seq<Value>, rest: string)
    ensures (Show(printable, List(items)) + rest)[1..] == ShowItems(printable, items) + rest
  {
    Assoc("[", ShowItems(printable, items), rest);
    assert ("[" + (ShowItems(printable, items) + rest))[1..] == ShowItems(printable, items) + rest;
  }

  lemma {:induction false} ItemsArePrefixFree(printable: Printable, a: seq<Value>, b: seq<Value>, restA: string, restB: string)
    requires ShowItems(printable, a) + restA == ShowItems(printable, b) + restB
    ensures a == b && restA == restB
    decreases a, 1
  {
    SameEmptiness(printable, a, b, restA, restB);
    if a != [] {
      var ra, rb := ShowRest(printable, a) + restA, ShowRest(printable, b) + restB;
      Assoc(Show(printable, a[0]), ShowRest(printable, a), restA);
      Assoc(Show(printable, b[0]), ShowRest(printable, b), restB);
      ShowIsPrefixFree(printable, a[0], b[0], ra, rb);
      RestIsPrefixFree(printable, a, b, restA, restB);
    }
  }

  lemma SameEmptiness(printable: Printable, a: seq<Value>, b: seq<Value>, restA: string, restB: string)
    requires ShowItems(printable, a) + restA == ShowItems(printable, b) + restB
    ensures a == [] <==> b == []
    ensures a == [] ==> restA == restB
  {
    var ta, tb := ShowItems(printable, a) + restA, ShowItems(printable, b) + restB;
    if a != [] { ShowStarts(printable, a[0]); assert ta[0] == Show(printable, a[0])[0]; } else { assert ta[0] == ']'; }
    if b != [] { ShowStarts(printable, b[0]); assert tb[0] == Show(printable, b[0])[0]; } else { assert tb[0] == ']'; }
    if a == [] { assert ta[1..] == restA && tb[1..] == restB; }
  }

  lemma RestStarts(printable: Printable, a: seq<Value>, rest: string)
    requires a != []
    ensures var t := ShowRest(printable, a) + rest;
            && t != "" && t[0] == (if |a| == 1 then ']' else ',')
            && (|a| == 1 ==> t[1..] == rest)
            && (|a| > 1 ==> |t| >= 2 && t[2..] == ShowItems(printable, a[1..]) + rest)
  {
    if |a| > 1 {
      Assoc(", ", ShowItems(printable, a[1..]), rest);
      TwoOff(", ", ShowItems(printable, a[1..]) + rest);
    } else {
      assert ("]" + rest)[1..] == rest;
    }
  }

  lemma TwoOff(head: string, rest: string)
    requires |head| == 2
    ensures (head + rest)[2..] == rest && (head + rest)[0] == head[0]
  {
  }

  lemma {:induction false} RestIsPrefixFree(printable: Printable, a: seq<Value>, b: seq<Value>, restA: string, restB: string)
    requires a != [] && b != [] && a[0] == b[0]
    requires ShowRest(printable, a) + restA == ShowRest(printable, b) + restB
    ensures a == b && restA == restB
    decreases a, 0
  {
    var ra, rb := ShowRest(printable, a) + restA, ShowRest(printable, b) + restB;
    RestStarts(printable, a, restA);
    RestStarts(printable, b, restB);
    if |a| == 1 {
      assert a == [a[0]] && b == [b[0]];
    } else {
      ItemsArePrefixFree(printable, a[1..], b[1..], restA, restB);
      assert a == [a[0]] + a[1..] && b == [b[0]] + b[1..];
    }
  }

  // ----- bytes -----

  type Byte = x: int | 0 <= x < 256

  function EscapeByte(quote: char, alwaysEscapeSingle: bool, b: Byte): string {
    if b == 10 then "\\n"
    else if b == 9 then "\\t"
    else if b == 13 then "\\r"
    else if b == 92 then "\\\\"
    else if b == 39 && (alwaysEscapeSingle || quote == '\'') then "\\'"
    else if 0x20 <= b <= 0x7E then [b as char]
    else "\\x" + Hex(b, 2)
  }

  function EscapeBytes(quote: char, alwaysEscapeSingle: bool, bs: seq<Byte>): string {
    if bs == [] then ""
    else EscapeByte(quote, alwaysEscapeSingle, bs[0]) + EscapeBytes(quote, alwaysEscapeSingle, bs[1..])
  }

  function ByteQuote(bs: seq<Byte>): char {
    Quote(39 in bs, 34 in bs)
  }

  function BytesReprQuoted(bs: seq<Byte>, alwaysEscapeSingle: bool): string {
    "b" + [ByteQuote(bs)] + EscapeBytes(ByteQuote(bs), alwaysEscapeSingle, bs) + [ByteQuote(bs)]
  }

  method BytesReprLoop(bs: seq<Byte>, alwaysEscapeSingle: bool) returns (out: string)
    ensures out == BytesReprQuoted(bs, alwaysEscapeSingle)
  {
    var quote := ByteQuote(bs);
    out := "b" + [quote];
    for i := 0 to |bs|
      invariant BytesReprQuoted(bs, alwaysEscapeSingle) == out + EscapeBytes(quote, alwaysEscapeSingle, bs[i..]) + [quote]
    {
      assert bs[i..][1..] == bs[i + 1..];
      Assoc(out, EscapeByte(quote, alwaysEscapeSingle, bs[i]), EscapeBytes(quote, alwaysEscapeSingle, bs[i + 1..]));
      out := out + EscapeByte(quote, alwaysEscapeSingle, bs[i]);
    }
    out := out + [quote];
  }

  /** How one byte is written, and when the quotes are double. */
  lemma ByteIsWritten(quote: char, always: bool, b: Byte)
    requires quote == '\'' || quote == '"'
    ensures var e := EscapeByte(quote, always, b);
            && (e == [b as char] <==> 0x20 <= b <= 0x7E && b != 92 && (b == 39 ==> !always && quote == '"'))
            && (b == 10 ==> e == "\\n") && (b == 9 ==> e == "\\t") && (b == 13 ==> e == "\\r") && (b == 92 ==> e == "\\\\")
            && (b == 39 && (always || quote == '\'') ==> e == "\\'")
            && ((b < 0x20 && b !in {9, 10, 13}) || b > 0x7E ==> |e| == 4 && e[..2] == "\\x")
  {
    HexLength(b, 2);
  }

  lemma BytesReprIsQuoted(bs: seq<Byte>, always: bool)
    ensures var r := BytesReprQuoted(bs, always);
            && |r| >= 3 && r[0] == 'b' && r[1] == r[|r| - 1] && (r[1] == '"' || r[1] == '\'')
            && (r[1] == '"' <==> 39 in bs && 34 !in bs)
            && r[2..|r| - 1] == EscapeBytes(r[1], always, bs)
  {
    var body := EscapeBytes(ByteQuote(bs), always, bs);
    assert BytesReprQuoted(bs, always)[2..|body| + 2] == body;
  }

  function BytesRepr(bs: seq<Byte>): string {
    BytesReprQuoted(bs, false)
  }

  function BytearrayRepr(bs: seq<Byte>): string {
    "bytearray(" + BytesReprQuoted(bs, true) + ")"
  }

  lemma ReadEscapedByte(quote: char, always: bool, b: Byte, rest: string)
    requires quote == '\'' || (quote == '"' && b != 34)
    ensures ReadBody(EscapeByte(quote, always, b) + rest, quote, true) == Prepend(b, ReadBody(rest, quote, true))
  {
    var t := EscapeByte(quote, always, b) + rest;
    if b in {10, 9, 13, 92} || (b == 39 && (always || quote == '\'')) {
      assert t[2..] == rest;
    } else if 0x20 <= b <= 0x7E {
      assert t[1..] == rest;
    } else {
      Pow16Values();
      ReadHexEscape('x', b, 2, rest, quote, true);
    }
  }

  lemma {:induction false} ReadEscapedBytes(quote: char, always: bool, bs: seq<Byte>, rest: string)
    requires quote == '\'' || (quote == '"' && 34 !in bs)
    ensures ReadBody(EscapeBytes(quote, always, bs) + [quote] + rest, quote, true) == Some((bs, rest))
  {
    if bs == [] {
      assert "" + [quote] + rest == [quote] + rest && ([quote] + rest)[1..] == rest;
    } else {
      var tail := EscapeBytes(quote, always, bs[1..]) + [quote] + rest;
      ReadEscapedBytes(quote, always, bs[1..], rest);
      ReadEscapedByte(quote, always, bs[0], tail);
      Assoc4(EscapeByte(quote, always, bs[0]), EscapeBytes(quote, always, bs[1..]), [quote], rest);
      assert bs == [bs[0]] + bs[1..];
    }
  }

  function ReadBytes(t: string): Option<(seq<int>, string)> {
    if t == "" || t[0] != 'b' then None else ReadLiteral(t[1..], true)
  }

  function ReadBytearray(t: string): Option<seq<int>> {
    var open := "bytearray(";
    if !(open <= t) then None
    else
      var r := ReadBytes(t[|open|..]);
      if r.None? || r.value.1 != ")" then None else Some(r.value.0)
  }

  lemma ReadBytesBody(t: string)
    ensures ReadBytes("b" + t) == ReadLiteral(t, true)
  {
    assert ("b" + t)[1..] == t;
  }

  lemma QuotedBytesReadBack(bs: seq<Byte>, always: bool, rest: string)
    ensures ReadBytes(BytesReprQuoted(bs, always) + rest) == Some((bs, rest))
  {
    var quote := ByteQuote(bs);
    ReadEscapedBytes(quote, always, bs, rest);
    var body := EscapeBytes(quote, always, bs) + [quote] + rest;
    ReadLiteralBody(quote, body, true);
    Assoc4("b" + [quote], EscapeBytes(quote, always, bs), [quote], rest);
    Assoc("b", [quote], body);
    ReadBytesBody([quote] + body);
  }

  /** A bytes repr and a bytearray repr read back as the bytes. */
  lemma BytesReprReadsBack(bs: seq<Byte>, rest: string)
    ensures ReadBytes(BytesRepr(bs) + rest) == Some((bs, rest))
    ensures ReadBytearray(BytearrayRepr(bs)) == Some(bs)
  {
    QuotedBytesReadBack(bs, false, rest);
    QuotedBytesReadBack(bs, true, ")");
    var t := BytearrayRepr(bs);
    assert t[|"bytearray("|..] == BytesReprQuoted(bs, true) + ")";
  }
}
