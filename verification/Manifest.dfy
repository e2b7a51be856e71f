/** The project manifest: what `chezzi init` writes (src/main.rs) and how it is read back
    (src/manifest.rs). */
module Manifest {
  import opened Wrappers
  import opened Sequences

  datatype Manifest = Manifest(name: Option<string>, version: Option<string>, entrypoint: Option<string>)

  datatype ManifestError =
    | MalformedHeader(line: nat)
    | EmptySection(line: nat)
    | NotAPair(line: nat)
    | EmptyKey(line: nat)
    | NotAString(line: nat)

  // ----- characters and lines -----

  predicate IsWhitespace(c: char) {
    var n := c as int;
    || 9 <= n <= 13 || n == 0x20 || n == 0x85 || n == 0xA0 || n == 0x1680
    || 0x2000 <= n <= 0x200A || n == 0x2028 || n == 0x2029 || n == 0x202F || n == 0x205F || n == 0x3000
  }

  predicate IsControl(c: char) {
    var n := c as int;
    n < 0x20 || 0x7F <= n <= 0x9F
  }

  function TrimStart(s: string): string {
    if s != "" && IsWhitespace(s[0]) then TrimStart(s[1..]) else s
  }

  function TrimEnd(s: string): string {
    if s != "" && IsWhitespace(s[|s| - 1]) then TrimEnd(s[..|s| - 1]) else s
  }

  function Trim(s: string): string {
    TrimStart(TrimEnd(s))
  }

  /** The position of the first `c`, or the length. */
  function Find(s: string, c: char): (i: nat)
    ensures i <= |s| && (i < |s| ==> s[i] == c)
  {
    if s == "" || s[0] == c then 0 else 1 + Find(s[1..], c)
  }

  function ChopCr(s: string): string {
    if s != "" && s[|s| - 1] == '\r' then s[..|s| - 1] else s
  }

  /** The lines of a text: a terminator is `\n` or `\r\n`, and the last one is optional. */
  function Lines(s: string): seq<string> {
    var k := Find(s, '\n');
    if s == "" then []
    else if k == |s| then [s]
    else [ChopCr(s[..k])] + Lines(s[k + 1..])
  }

  function StripBom(s: string): string {
    if s != "" && s[0] as int == 0xFEFF then s[1..] else s
  }

  // ----- one line -----

  /** Where the comment scanner is: outside a string, inside one, or just after a backslash in one. */
  datatype Scanner = Outside | Inside | AfterBackslash

  function After(st: Scanner, c: char): Scanner {
    match st
    case Outside => if c == '"' then Inside else Outside
    case Inside => if c == '\\' then AfterBackslash else if c == '"' then Outside else Inside
    case AfterBackslash => Inside
  }

  /** The text up to an unquoted `#`. */
  function StripFrom(t: string, st: Scanner): string {
    if t == "" || (st == Outside && t[0] == '#') then "" else [t[0]] + StripFrom(t[1..], After(st, t[0]))
  }

  function StripComment(line: string): string {
    StripFrom(line, Outside)
  }

  function Unescape(s: string): string {
    if s == "" then ""
    else if s[0] != '\\' then [s[0]] + Unescape(s[1..])
    else if |s| == 1 then "\\"
    else (if s[1] == '"' || s[1] == '\\' then [s[1]] else ['\\', s[1]]) + Unescape(s[2..])
  }

  function ParseStringValue(s: string): Option<string> {
    if |s| < 2 || s[0] != '"' || s[|s| - 1] != '"' then None else Some(Unescape(s[1..|s| - 1]))
  }

  datatype Line = Blank | Section(name: string) | Pair(key: string, value: string) | Bad(error: ManifestError)

  function ParseHeader(line: string, lineno: nat): Line
    requires line != ""
  {
    if |line| < 2 || line[|line| - 1] != ']' then Bad(MalformedHeader(lineno))
    else
      var name := Trim(line[1..|line| - 1]);
      if name == "" then Bad(EmptySection(lineno)) else Section(name)
  }

  function ParsePair(line: string, lineno: nat): Line {
    var eq := Find(line, '=');
    if eq == |line| then Bad(NotAPair(lineno))
    else
      var key := Trim(line[..eq]);
      var value := ParseStringValue(Trim(line[eq + 1..]));
      if key == "" then Bad(EmptyKey(lineno))
      else if value.None? then Bad(NotAString(lineno))
      else Pair(key, value.value)
  }

  function ParseLine(raw: string, lineno: nat): Line {
    var line := Trim(StripComment(raw));
    if line == "" then Blank
    else if line[0] == '[' then ParseHeader(line, lineno)
    else ParsePair(line, lineno)
  }

  // ----- the whole file -----

  const EMPTY := Manifest(None, None, None)

  function Capture(m: Manifest, section: Option<string>, key: string, value: string): Manifest {
    if section != Some("project") then m
    else if key == "name" then m.(name := Some(value))
    else if key == "version" then m.(version := Some(value))
    else if key == "entrypoint" then m.(entrypoint := Some(value))
    else m
  }

  /** Every line on its own, numbered from `first`. */
  function Classify(lines: seq<string>, first: nat): seq<Line> {
    seq(|lines|, i requires 0 <= i < |lines| => ParseLine(lines[i], first + i))
  }

  /** Reads the lines in order, under the section last seen; the first bad line ends the reading. */
  function Collect(lines: seq<Line>, section: Option<string>, m: Manifest): Result<Manifest, ManifestError> {
    if lines == [] then Ok(m)
    else
      match lines[0]
      case Blank => Collect(lines[1..], section, m)
      case Section(name) => Collect(lines[1..], Some(name), m)
      case Pair(key, value) => Collect(lines[1..], section, Capture(m, section, key, value))
      case Bad(e) => Err(e)
  }

  function Parse(src: string): Result<Manifest, ManifestError> {
    Collect(Classify(Lines(StripBom(src)), 1), None, EMPTY)
  }

  // ----- what init writes -----

  function WithoutControls(s: string): string {
    if s == "" then "" else (if IsControl(s[0]) then "" else [s[0]]) + WithoutControls(s[1..])
  }

  function Replace(s: string, c: char, text: string): string {
    if s == "" then "" else (if s[0] == c then text else [s[0]]) + Replace(s[1..], c, text)
  }

  function Escape(s: string): string {
    Replace(Replace(s, '\\', "\\\\"), '"', "\\\"")
  }

  /** The directory's own name; None when it cannot be resolved. */
  function ProjectName(basename: Option<string>): string {
    var raw := if basename.Some? && basename.value != "" then basename.value else "app";
    var escaped := Escape(WithoutControls(raw));
    if escaped == "" then "app" else escaped
  }

  function Quoted(text: string): string {
    "\"" + (text + "\"")
  }

  function SectionText(name: string): string {
    "[" + (name + "]")
  }

  /** A `key = "text"` line; `text` stands between the quotes as it is. */
  datatype Entry = Entry(key: string, text: string, spaces: string, comment: string)

  function EntryText(e: Entry): string {
    e.key + (" = " + (Quoted(e.text) + (e.spaces + e.comment)))
  }

  function EntryTexts(entries: seq<Entry>): seq<string> {
    seq(|entries|, i requires 0 <= i < |entries| => EntryText(entries[i]))
  }

  /** The lines of a file with one section under a header of comment lines. */
  function SectionFile(header: seq<string>, section: string, entries: seq<Entry>): seq<string> {
    header + ([SectionText(section)] + EntryTexts(entries))
  }

  function ProjectEntries(name: string, comment: string): seq<Entry> {
    [Entry("name", name, "", ""), Entry("version", "0.1.0", "", ""), Entry("entrypoint", "src.main:main", "   ", comment)]
  }

  /** Every line with its terminator. */
  function Unlines(lines: seq<string>): string {
    if lines == [] then "" else lines[0] + ("\n" + Unlines(lines[1..]))
  }

  function ManifestText(header: seq<string>, basename: Option<string>, comment: string): string {
    Unlines(SectionFile(header, "project", ProjectEntries(ProjectName(basename), comment)))
  }

  // ----- the loops of the reader -----

  function ScannerOf(inStr: bool, escaped: bool): Scanner {
    if !inStr then Outside else if escaped then AfterBackslash else Inside
  }

  method StripCommentLoop(line: string) returns (kept: string)
    ensures kept == StripComment(line)
  {
    var inStr, escaped, i := false, false, 0;
    while i < |line|
      invariant i <= |line| && (escaped ==> inStr)
      invariant StripComment(line) == line[..i] + StripFrom(line[i..], ScannerOf(inStr, escaped))
    {
      var ch := line[i];
      ghost var st := ScannerOf(inStr, escaped);
      if inStr {
        if escaped {
          escaped := false;
        } else if ch == '\\' {
          escaped := true;
        } else if ch == '"' {
          inStr := false;
        }
      } else if ch == '"' {
        inStr := true;
      } else if ch == '#' {
        return line[..i];
      }
      assert ScannerOf(inStr, escaped) == After(st, ch);
      assert line[i..][1..] == line[i + 1..];
      Assoc(line[..i], [ch], StripFrom(line[i + 1..], After(st, ch)));
      assert line[..i + 1] == line[..i] + [ch];
      i := i + 1;
    }
    assert line[..i] == line;
    return line;
  }

  method ParseStringValueLoop(s: string) returns (value: Option<string>)
    ensures value == ParseStringValue(s)
  {
    if |s| < 2 || s[0] != '"' || s[|s| - 1] != '"' {
      return None;
    }
    var inner := s[1..|s| - 1];
    var out := "";
    var i := 0;
    while i < |inner|
      invariant i <= |inner|
      invariant Unescape(inner) == out + Unescape(inner[i..])
    {
      var piece: string;
      var next: nat;
      if inner[i] != '\\' {
        piece, next := [inner[i]], i + 1;
      } else if i + 1 == |inner| {
        piece, next := "\\", i + 1;
      } else if inner[i + 1] == '"' || inner[i + 1] == '\\' {
        piece, next := [inner[i + 1]], i + 2;
      } else {
        piece, next := ['\\', inner[i + 1]], i + 2;
      }
      assert inner[i..][next - i..] == inner[next..];
      assert Unescape(inner[i..]) == piece + Unescape(inner[next..]);
      Assoc(out, piece, Unescape(inner[next..]));
      out := out + piece;
      i := next;
    }
    assert out + "" == out;
    return Some(out);
  }

  /** One line, as the body of the reading loop takes it apart. */
  method ReadLine(raw: string, lineno: nat) returns (r: Line)
    ensures r == ParseLine(raw, lineno)
  {
    var kept := StripCommentLoop(raw);
    var line := Trim(kept);
    if line == "" {
      return Blank;
    }
    if line[0] == '[' {
      return ParseHeader(line, lineno);
    }
    var eq := Find(line, '=');
    if eq == |line| {
      return Bad(NotAPair(lineno));
    }
    var key := Trim(line[..eq]);
    if key == "" {
      return Bad(EmptyKey(lineno));
    }
    var value := ParseStringValueLoop(Trim(line[eq + 1..]));
    if value.None? {
      return Bad(NotAString(lineno));
    }
    return Pair(key, value.value);
  }

  method ParseManifest(src: string) returns (r: Result<Manifest, ManifestError>)
    ensures r == Parse(src)
  {
    var lines := Lines(StripBom(src));
    var manifest := EMPTY;
    var section: Option<string> := None;
    ghost var all := Classify(lines, 1);
    for i := 0 to |lines|
      invariant Parse(src) == Collect(all[i..], section, manifest)
    {
      var line := ReadLine(lines[i], i + 1);
      assert all[i..][0] == line && all[i..][1..] == all[i + 1..];
      match line
      case Blank =>
      case Section(name) => section := Some(name);
      case Pair(key, value) => manifest := Capture(manifest, section, key, value);
      case Bad(e) => return Err(e);
    }
    return Ok(manifest);
  }

  // ----- escaping -----

  function EscapeChar(c: char): string {
    if c == '\\' || c == '"' then ['\\', c] else [c]
  }

  lemma {:induction false} ReplaceConcat(s: string, t: string, c: char, text: string)
    ensures Replace(s + t, c, text) == Replace(s, c, text) + Replace(t, c, text)
  {
    if s == "" {
      assert s + t == t;
    } else {
      assert (s + t)[1..] == s[1..] + t;
      ReplaceConcat(s[1..], t, c, text);
    }
  }

  /** The two replacement passes amount to escaping one character at a time. */
  lemma EscapeStep(s: string)
    requires s != ""
    ensures Escape(s) == EscapeChar(s[0]) + Escape(s[1..])
  {
    var c := s[0];
    var first: string := if c == '\\' then "\\\\" else [c];
    ReplaceConcat(first, Replace(s[1..], '\\', "\\\\"), '"', "\\\"");
    assert first[1..] == if c == '\\' then "\\" else "";
    assert Replace(first, '"', "\\\"") == EscapeChar(c);
  }

  lemma {:induction false} EscapePlain(s: string)
    requires '\\' !in s && '"' !in s
    ensures Escape(s) == s
  {
    if s != "" {
      EscapeStep(s);
      EscapePlain(s[1..]);
    }
  }

  lemma {:induction false} EscapedChars(s: string)
    ensures forall c :: c in Escape(s) ==> c == '\\' || c in s
  {
    if s != "" {
      EscapeStep(s);
      EscapedChars(s[1..]);
    }
  }

  lemma {:induction false} UnescapeInvertsEscape(s: string)
    ensures Unescape(Escape(s)) == s
  {
    if s != "" {
      EscapeStep(s);
      UnescapeInvertsEscape(s[1..]);
      var e := Escape(s);
      assert e[|EscapeChar(s[0])|..] == Escape(s[1..]);
    }
  }

  // ----- comments -----

  lemma {:induction false} StripPlain(p: string, t: string)
    requires '"' !in p && '#' !in p
    ensures StripFrom(p + t, Outside) == p + StripFrom(t, Outside)
  {
    if p == "" {
      assert p + t == t;
    } else {
      assert (p + t)[1..] == p[1..] + t;
      StripPlain(p[1..], t);
      Assoc([p[0]], p[1..], StripFrom(t, Outside));
    }
  }

  /** A string written with escapes is never left early, whatever quotes and `#` it holds. */
  lemma {:induction false} StripEscaped(v: string, t: string)
    ensures StripFrom(Escape(v) + t, Inside) == Escape(v) + StripFrom(t, Inside)
  {
    if v == "" {
      assert Escape(v) + t == t;
    } else {
      EscapeStep(v);
      StripEscaped(v[1..], t);
      var c, e := v[0], Escape(v[1..]);
      Assoc(EscapeChar(c), e, t);
      Assoc(EscapeChar(c), e, StripFrom(t, Inside));
      StripOneEscaped(c, e + t);
    }
  }

  lemma StripOneEscaped(c: char, t: string)
    ensures StripFrom(EscapeChar(c) + t, Inside) == EscapeChar(c) + StripFrom(t, Inside)
  {
    var s := EscapeChar(c) + t;
    assert s[|EscapeChar(c)|..] == t;
    if |EscapeChar(c)| == 2 {
      assert s[1..][1..] == t;
    }
  }

  // ----- trimming and searching -----

  predicate Tight(s: string) {
    s != "" && !IsWhitespace(s[0]) && !IsWhitespace(s[|s| - 1])
  }

  predicate Spaces(s: string) {
    forall i :: 0 <= i < |s| ==> s[i] == ' '
  }

  lemma {:induction false} TrimEndSpaces(s: string, w: string)
    requires Spaces(w)
    ensures TrimEnd(s + w) == TrimEnd(s)
  {
    if w == "" {
      assert s + w == s;
    } else {
      var v := w[..|w| - 1];
      assert (s + w)[..|s + w| - 1] == s + v;
      TrimEndSpaces(s, v);
    }
  }

  lemma {:induction false} TrimStartSpaces(w: string, s: string)
    requires Spaces(w)
    ensures TrimStart(w + s) == TrimStart(s)
  {
    if w == "" {
      assert w + s == s;
    } else {
      assert (w + s)[1..] == w[1..] + s;
      TrimStartSpaces(w[1..], s);
    }
  }

  lemma TrimSpaces(w: string, s: string, v: string)
    requires Tight(s) && Spaces(w) && Spaces(v)
    ensures Trim(w + s + v) == s
  {
    TrimEndSpaces(w + s, v);
    TrimStartSpaces(w, s);
  }

  lemma {:induction false} FindSkips(p: string, t: string, c: char)
    requires c !in p
    ensures Find(p + t, c) == |p| + Find(t, c)
  {
    if p == "" {
      assert p + t == t;
    } else {
      assert (p + t)[1..] == p[1..] + t;
      FindSkips(p[1..], t, c);
    }
  }

  // ----- one written line -----

  predicate IsKey(key: string) {
    key != "" && forall i :: 0 <= i < |key| ==> 'a' <= key[i] <= 'z'
  }

  predicate IsComment(c: string) {
    c == "" || c[0] == '#'
  }

  lemma StripTail(w: string, comment: string)
    requires Spaces(w) && IsComment(comment)
    ensures StripFrom(w + comment, Outside) == w
  {
    StripPlain(w, comment);
    assert w + "" == w;
  }

  lemma StripQuoted(v: string, t: string)
    ensures StripFrom(Quoted(Escape(v)) + t, Outside) == Quoted(Escape(v)) + StripFrom(t, Outside)
  {
    var e := Escape(v);
    var closed := "\"" + t;
    StripEscaped(v, closed);
    assert closed[1..] == t;
    var u := StripFrom(t, Outside);
    assert StripFrom(closed, Inside) == "\"" + u;
    var s := Quoted(e) + t;
    assert s[1..] == e + closed;
    assert StripFrom(s, Outside) == "\"" + (e + ("\"" + u));
    assert Quoted(e) + u == "\"" + (e + ("\"" + u));
  }

  lemma StripPair(key: string, v: string, w: string, comment: string)
    requires IsKey(key) && Spaces(w) && IsComment(comment)
    ensures StripComment(EntryText(Entry(key, Escape(v), w, comment))) == key + (" = " + (Quoted(Escape(v)) + w))
  {
    StripTail(w, comment);
    StripQuoted(v, w + comment);
    var q := Quoted(Escape(v)) + (w + comment);
    StripPlain(" = ", q);
    StripPlain(key, " = " + q);
  }

  lemma QuotedReadsBack(v: string)
    ensures Tight(Quoted(Escape(v))) && ParseStringValue(Quoted(Escape(v))) == Some(v)
  {
    var q := Quoted(Escape(v));
    assert q[1..|q| - 1] == Escape(v);
    UnescapeInvertsEscape(v);
  }

  /** A key and a value, split at the first `=`, with one space on either side. */
  lemma SplitPair(key: string, q: string)
    requires IsKey(key) && Tight(q)
    ensures var line := key + (" = " + q); var eq := Find(line, '=');
      eq < |line| && Trim(line[..eq]) == key && Trim(line[eq + 1..]) == q
  {
    var line := key + (" = " + q);
    assert " = " + q == " " + ("= " + q);
    FindSkips(key, " = " + q, '=');
    FindSkips(" ", "= " + q, '=');
    var eq := |key| + 1;
    assert Find(line, '=') == eq;
    assert line[..eq] == "" + key + " ";
    TrimSpaces("", key, " ");
    assert line[eq + 1..] == " " + q + "";
    TrimSpaces(" ", q, "");
  }

  lemma PairParses(key: string, v: string, n: nat)
    requires IsKey(key)
    ensures ParsePair(key + (" = " + Quoted(Escape(v))), n) == Pair(key, v)
  {
    QuotedReadsBack(v);
    SplitPair(key, Quoted(Escape(v)));
  }

  lemma TrimPair(key: string, q: string, w: string)
    requires IsKey(key) && Tight(q) && Spaces(w)
    ensures Trim(key + (" = " + (q + w))) == key + (" = " + q)
  {
    var line := key + (" = " + q);
    assert key + (" = " + (q + w)) == "" + line + w;
    TrimSpaces("", line, w);
  }

  /** A pair written with an escaped value reads back as that pair, for every value. */
  lemma PairReadsBack(key: string, v: string, w: string, comment: string, n: nat)
    requires IsKey(key) && Spaces(w) && IsComment(comment)
    ensures ParseLine(EntryText(Entry(key, Escape(v), w, comment)), n) == Pair(key, v)
  {
    StripPair(key, v, w, comment);
    QuotedReadsBack(v);
    TrimPair(key, Quoted(Escape(v)), w);
    PairParses(key, v, n);
  }

  lemma CommentIsBlank(line: string, n: nat)
    requires IsComment(line)
    ensures ParseLine(line, n) == Blank
  {
  }

  lemma SectionReadsBack(name: string, n: nat)
    requires IsKey(name)
    ensures ParseLine(SectionText(name), n) == Section(name)
  {
    var s := SectionText(name);
    StripPlain(s, "");
    assert s + "" == s && "" + s + "" == s;
    TrimSpaces("", s, "");
    assert s[1..|s| - 1] == name && "" + name + "" == name;
    TrimSpaces("", name, "");
  }

  /** Entries whose text is the escaped form of its own value, all on one line. */
  predicate IsEntry(e: Entry) {
    && IsKey(e.key) && Spaces(e.spaces) && IsComment(e.comment) && OneLine(e.comment)
    && '\n' !in e.text && e.text == Escape(Unescape(e.text))
  }

  lemma EntryReadsBack(e: Entry, n: nat)
    requires IsEntry(e)
    ensures ParseLine(EntryText(e), n) == Pair(e.key, Unescape(e.text))
  {
    PairReadsBack(e.key, Unescape(e.text), e.spaces, e.comment, n);
  }

  lemma EntryIsOneLine(e: Entry)
    requires IsEntry(e)
    ensures OneLine(EntryText(e))
  {
    var q := Quoted(e.text);
    assert '\n' !in q && '\n' !in " = ";
    var tail := e.spaces + e.comment;
    assert '\n' !in tail;
    assert q[|q| - 1] == '"';
  }

  // ----- the whole file -----

  /** A line that can stand between terminators. */
  predicate OneLine(s: string) {
    '\n' !in s && (s != "" ==> s[|s| - 1] != '\r')
  }

  lemma CutLine(l: string, rest: string)
    requires '\n' !in l
    ensures Lines(l + (['\n'] + rest)) == [ChopCr(l)] + Lines(rest)
  {
    FindSkips(l, ['\n'] + rest, '\n');
    var s := l + (['\n'] + rest);
    assert Find(s, '\n') == |l|;
    assert s[..|l|] == l && s[|l| + 1..] == rest;
  }

  lemma FirstLine(l: string, rest: string)
    requires OneLine(l)
    ensures Lines(l + ("\n" + rest)) == [l] + Lines(rest)
  {
    CutLine(l, rest);
    assert "\n" == ['\n'];
  }

  predicate AreOneLines(lines: seq<string>) {
    forall i :: 0 <= i < |lines| ==> OneLine(lines[i])
  }

  lemma {:induction false} LinesOfUnlines(lines: seq<string>)
    requires AreOneLines(lines)
    ensures Lines(Unlines(lines)) == lines
  {
    if lines != [] {
      var l, rest := lines[0], Unlines(lines[1..]);
      FirstLine(l, rest);
      assert AreOneLines(lines[1..]);
      LinesOfUnlines(lines[1..]);
      assert [l] + lines[1..] == lines;
    }
  }

  lemma {:induction false} SkipBlanks(blanks: seq<Line>, rest: seq<Line>, section: Option<string>, m: Manifest)
    requires forall i :: 0 <= i < |blanks| ==> blanks[i] == Blank
    ensures Collect(blanks + rest, section, m) == Collect(rest, section, m)
  {
    if blanks == [] {
      assert blanks + rest == rest;
    } else {
      assert (blanks + rest)[1..] == blanks[1..] + rest;
      SkipBlanks(blanks[1..], rest, section, m);
    }
  }

  lemma {:induction false} WithoutControlsHasNone(s: string)
    ensures forall c :: c in WithoutControls(s) <==> c in s && !IsControl(c)
  {
    if s != "" {
      WithoutControlsHasNone(s[1..]);
    }
  }

  predicate IsHeader(header: seq<string>) {
    forall i :: 0 <= i < |header| ==> IsComment(header[i]) && OneLine(header[i])
  }

  /** What the manifest of a directory is meant to name. */
  function ExpectedName(basename: Option<string>): string {
    var clean := WithoutControls(if basename.Some? then basename.value else "");
    if clean == "" then "app" else clean
  }

  /** The written name is the escaped form of the expected one. */
  lemma ProjectNameIsEscaped(basename: Option<string>)
    ensures ProjectName(basename) == Escape(ExpectedName(basename))
  {
    EscapePlain("app");
    if basename.Some? {
      UnescapeInvertsEscape(WithoutControls(basename.value));
    }
  }

  lemma ExpectedNameIsOneLine(basename: Option<string>)
    ensures '\n' !in ExpectedName(basename)
  {
    if basename.Some? {
      WithoutControlsHasNone(basename.value);
    }
  }

  // ----- what is trimmed, cut and split -----

  ghost predicate Blanks(s: string) {
    forall i :: 0 <= i < |s| ==> IsWhitespace(s[i])
  }

  /** The characters that count as white space, and as controls. */
  lemma CharactersAre(c: char)
    ensures IsWhitespace(c) <==>
            c as int in {9, 10, 11, 12, 13, 0x20, 0x85, 0xA0, 0x1680, 0x2000, 0x2001, 0x2002, 0x2003, 0x2004, 0x2005, 0x2006,
                         0x2007, 0x2008, 0x2009, 0x200A, 0x2028, 0x2029, 0x202F, 0x205F, 0x3000}
    ensures IsControl(c) <==> c as int <= 31 || 127 <= c as int <= 159
  {
  }

  lemma {:induction false} TrimStartCuts(s: string) returns (w: string)
    ensures Blanks(w) && s == w + TrimStart(s)
    ensures TrimStart(s) == "" || !IsWhitespace(TrimStart(s)[0])
  {
    if s != "" && IsWhitespace(s[0]) {
      var v := TrimStartCuts(s[1..]);
      w := [s[0]] + v;
      Assoc([s[0]], v, TrimStart(s[1..]));
    } else {
      w := "";
    }
  }

  lemma {:induction false} TrimEndCuts(s: string) returns (w: string)
    ensures Blanks(w) && s == TrimEnd(s) + w
    ensures TrimEnd(s) == "" || !IsWhitespace(TrimEnd(s)[|TrimEnd(s)| - 1])
  {
    if s != "" && IsWhitespace(s[|s| - 1]) {
      var v := TrimEndCuts(s[..|s| - 1]);
      w := v + [s[|s| - 1]];
      Assoc(TrimEnd(s[..|s| - 1]), v, [s[|s| - 1]]);
    } else {
      w := "";
    }
  }

  /** Trimming cuts white space at both ends and nothing else, and leaves none there. */
  lemma TrimCuts(s: string) returns (w: string, v: string)
    ensures Blanks(w) && Blanks(v) && s == w + (Trim(s) + v)
    ensures Trim(s) == "" || Tight(Trim(s))
  {
    v := TrimEndCuts(s);
    w := TrimStartCuts(TrimEnd(s));
    Assoc(w, Trim(s), v);
    if Trim(s) != "" { assert TrimEnd(s)[|TrimEnd(s)| - 1] == Trim(s)[|Trim(s)| - 1]; }
  }

  /** A comment is cut off at a `#`, and nothing before it changes. */
  lemma {:induction false} StripCuts(t: string, st: Scanner)
    ensures var kept := StripFrom(t, st);
            kept <= t && (kept != t ==> t[|kept|] == '#')
  {
    if !(t == "" || (st == Outside && t[0] == '#')) { StripCuts(t[1..], After(st, t[0])); }
  }

  /** A line may end in a carriage return and a line feed; the last may have no terminator, and then keeps
      a carriage return. */
  lemma LineEnds(l: string, rest: string)
    requires '\n' !in l
    ensures Lines(l + ['\r'] + (['\n'] + rest)) == [l] + Lines(rest)
    ensures l != "" ==> Lines(l) == [l]
    ensures Lines("") == []
  {
    CutLine(l + ['\r'], rest);
    assert (l + ['\r'])[..|l|] == l;
    FindSkips(l, "", '\n');
    assert l + "" == l;
  }

  lemma MarkIsDroppedOnce(l: string)
    ensures StripBom([0xFEFF as char] + l) == l
    ensures l != "" && l[0] as int != 0xFEFF ==> StripBom(l) == l
  {
    assert ([0xFEFF as char] + l)[1..] == l;
  }

  // ----- what a line is -----

  lemma {:induction false} FindIsFirst(s: string, c: char)
    ensures c !in s[..Find(s, c)] && (Find(s, c) == |s| <==> c !in s)
  {
    if s != "" && s[0] != c {
      FindIsFirst(s[1..], c);
      assert s[..Find(s, c)] == [s[0]] + s[1..][..Find(s[1..], c)];
      assert s == [s[0]] + s[1..];
    }
  }

  /** The text of a line without its comment and the space around it. */
  function Bare(raw: string): string {
    Trim(StripComment(raw))
  }

  /** A section is a bracketed name, and the two ways a line in brackets fails. */
  lemma SectionLines(raw: string, n: nat)
    ensures ParseLine(raw, n) == Blank <==> Bare(raw) == ""
    ensures forall name :: ParseLine(raw, n) == Section(name) ==>
              exists inner :: Bare(raw) == "[" + (inner + "]") && Trim(inner) == name && name != ""
    ensures ParseLine(raw, n) == Bad(EmptySection(n)) ==> exists inner :: Bare(raw) == "[" + (inner + "]") && Trim(inner) == ""
    ensures ParseLine(raw, n) == Bad(MalformedHeader(n)) <==>
            Bare(raw) != "" && Bare(raw)[0] == '[' && (|Bare(raw)| == 1 || Bare(raw)[|Bare(raw)| - 1] != ']')
  {
    var line := Bare(raw);
    if |line| >= 2 && line[0] == '[' && line[|line| - 1] == ']' {
      assert line == "[" + (line[1..|line| - 1] + "]");
    }
  }

  /** A pair is a key, the first `=`, and a quoted text. */
  ghost predicate IsPairLine(line: string, left: string, right: string) {
    line != "" && line[0] != '[' && '=' !in left && line == left + ("=" + right)
  }

  /** How a line with an `=` is taken apart. */
  lemma PairParts(line: string, n: nat) returns (left: string, right: string)
    requires line != "" && line[0] != '[' && '=' in line
    ensures IsPairLine(line, left, right)
    ensures ParsePair(line, n) ==
            if Trim(left) == "" then Bad(EmptyKey(n))
            else if ParseStringValue(Trim(right)).None? then Bad(NotAString(n))
            else Pair(Trim(left), ParseStringValue(Trim(right)).value)
  {
    FindIsFirst(line, '=');
    var eq := Find(line, '=');
    left, right := line[..eq], line[eq + 1..];
    assert line == left + ("=" + right);
  }

  lemma PairLines(raw: string, n: nat)
    ensures ParseLine(raw, n) == Bad(NotAPair(n)) <==> Bare(raw) != "" && Bare(raw)[0] != '[' && '=' !in Bare(raw)
    ensures forall key, value :: ParseLine(raw, n) == Pair(key, value) ==>
              exists left, right, text ::
                && IsPairLine(Bare(raw), left, right)
                && Trim(left) == key && key != "" && Trim(right) == Quoted(text) && Unescape(text) == value
    ensures ParseLine(raw, n) == Bad(EmptyKey(n)) ==> exists left, right :: IsPairLine(Bare(raw), left, right) && Trim(left) == ""
    ensures ParseLine(raw, n) == Bad(NotAString(n)) ==>
              exists left, right :: IsPairLine(Bare(raw), left, right) && Trim(left) != "" && forall text :: Trim(right) != Quoted(text)
  {
    var line := Bare(raw);
    if line != "" && line[0] != '[' {
      FindIsFirst(line, '=');
      if '=' in line {
        var left, right := PairParts(line, n);
        QuotedOrNot(Trim(right));
      }
    }
  }

  lemma QuotedOrNot(s: string)
    ensures ParseStringValue(s).None? ==> forall text :: s != Quoted(text)
    ensures ParseStringValue(s).Some? ==> exists text :: s == Quoted(text) && ParseStringValue(s).value == Unescape(text)
  {
    if ParseStringValue(s).Some? {
      assert s == Quoted(s[1..|s| - 1]);
    }
  }

  /** What a backslash does in a quoted text: it stands for the quote or the backslash after it, and for
      itself before anything else and at the end. */
  lemma Backslashes(c: char, rest: string)
    ensures c == '"' || c == '\\' ==> Unescape(['\\', c] + rest) == [c] + Unescape(rest)
    ensures c != '"' && c != '\\' ==> Unescape(['\\', c] + rest) == ['\\', c] + Unescape(rest)
    ensures c != '\\' ==> Unescape([c] + rest) == [c] + Unescape(rest)
    ensures Unescape("") == "" && Unescape(['\\']) == ['\\']
  {
    assert (['\\', c] + rest)[2..] == rest && ([c] + rest)[1..] == rest;
  }

  // ----- what is kept of a name, and of a section -----

  /** The name loses its control characters and nothing else. */
  lemma {:induction false} ControlsAreDropped(a: string, b: string, c: char)
    ensures WithoutControls(a + b) == WithoutControls(a) + WithoutControls(b)
    ensures WithoutControls([c]) == if c as int <= 31 || 127 <= c as int <= 159 then "" else [c]
    ensures (forall i :: 0 <= i < |a| ==> !IsControl(a[i])) ==> WithoutControls(a) == a
  {
    assert [c][1..] == "";
    if a == "" {
      assert a + b == b;
    } else {
      assert (a + b)[1..] == a[1..] + b;
      ControlsAreDropped(a[1..], b, c);
      Assoc(if IsControl(a[0]) then "" else [a[0]], WithoutControls(a[1..]), WithoutControls(b));
    }
  }

  /** The value the last entry with this key has. */
  function LastValue(entries: seq<Entry>, key: string): Option<string> {
    if entries == [] then None
    else if entries[|entries| - 1].key == key then Some(Unescape(entries[|entries| - 1].text))
    else LastValue(entries[..|entries| - 1], key)
  }

  function Or(a: Option<string>, b: Option<string>): Option<string> {
    if a.Some? then a else b
  }

  lemma {:induction false} LastOfMore(e: Entry, rest: seq<Entry>, key: string)
    ensures LastValue([e] + rest, key) == Or(LastValue(rest, key), if e.key == key then Some(Unescape(e.text)) else None)
  {
    if rest == [] {
      assert [e] + rest == [e] && [e][..0] == [];
    } else {
      var all := [e] + rest;
      assert all[..|all| - 1] == [e] + rest[..|rest| - 1];
      LastOfMore(e, rest[..|rest| - 1], key);
    }
  }

  /** Under `project`, each known key has the value of its last pair, and other keys change nothing; under
      any other section, and under none, nothing is captured. */
  lemma {:induction false} PairsAreCollected(entries: seq<Entry>, section: Option<string>, m: Manifest)
    ensures Collect(Pairs(entries), section, m) ==
            Ok(if section == Some("project")
               then Manifest(Or(LastValue(entries, "name"), m.name), Or(LastValue(entries, "version"), m.version),
                             Or(LastValue(entries, "entrypoint"), m.entrypoint))
               else m)
    decreases |entries|
  {
    if entries != [] {
      var e, rest := entries[0], entries[1..];
      assert entries == [e] + rest;
      assert Pairs(entries)[0] == Pair(e.key, Unescape(e.text)) && Pairs(entries)[1..] == Pairs(rest);
      PairsAreCollected(rest, section, Capture(m, section, e.key, Unescape(e.text)));
      LastOfMore(e, rest, "name");
      LastOfMore(e, rest, "version");
      LastOfMore(e, rest, "entrypoint");
    }
  }

  // ----- any written section -----

  predicate AreEntries(entries: seq<Entry>) {
    forall i :: 0 <= i < |entries| ==> IsEntry(entries[i])
  }

  function Pairs(entries: seq<Entry>): seq<Line> {
    seq(|entries|, i requires 0 <= i < |entries| => Pair(entries[i].key, Unescape(entries[i].text)))
  }

  lemma FileIsOneLines(header: seq<string>, section: string, entries: seq<Entry>)
    requires IsHeader(header) && IsKey(section) && AreEntries(entries)
    ensures AreOneLines(SectionFile(header, section, entries))
  {
    forall i | 0 <= i < |entries| ensures OneLine(EntryTexts(entries)[i]) {
      EntryIsOneLine(entries[i]);
    }
    assert OneLine(SectionText(section));
  }

  lemma ClassifyConcat(a: seq<string>, b: seq<string>, first: nat)
    ensures Classify(a + b, first) == Classify(a, first) + Classify(b, first + |a|)
  {
  }

  lemma EntriesAreClassified(entries: seq<Entry>, first: nat)
    requires AreEntries(entries)
    ensures Classify(EntryTexts(entries), first) == Pairs(entries)
  {
    forall i | 0 <= i < |entries| ensures Classify(EntryTexts(entries), first)[i] == Pairs(entries)[i] {
      EntryReadsBack(entries[i], first + i);
    }
  }

  lemma SectionIsClassified(section: string, first: nat)
    requires IsKey(section)
    ensures Classify([SectionText(section)], first) == [Section(section)]
  {
    SectionReadsBack(section, first);
  }

  lemma HeaderIsBlank(header: seq<string>, first: nat)
    requires IsHeader(header)
    ensures forall i :: 0 <= i < |header| ==> Classify(header, first)[i] == Blank
  {
    forall i | 0 <= i < |header| ensures Classify(header, first)[i] == Blank {
      CommentIsBlank(header[i], first + i);
    }
  }

  /** A file of comments, one section and its pairs reads back as that section and those pairs, in order. */
  lemma FileReadsBack(header: seq<string>, section: string, entries: seq<Entry>)
    requires IsHeader(header) && IsKey(section) && AreEntries(entries)
    ensures Parse(Unlines(SectionFile(header, section, entries)))
         == Collect([Section(section)] + Pairs(entries), None, EMPTY)
  {
    FileIsOneLines(header, section, entries);
    LinesOfUnlines(SectionFile(header, section, entries));
    var n := |header| + 1;
    ClassifyConcat(header, [SectionText(section)] + EntryTexts(entries), 1);
    ClassifyConcat([SectionText(section)], EntryTexts(entries), n);
    SectionIsClassified(section, n);
    EntriesAreClassified(entries, n + 1);
    HeaderIsBlank(header, 1);
    SkipBlanks(Classify(header, 1), [Section(section)] + Pairs(entries), None, EMPTY);
  }

  /** A written file of one section means the last value of each known key, if the section is `project`,
      and nothing otherwise. */
  lemma FileMeans(header: seq<string>, section: string, entries: seq<Entry>)
    requires IsHeader(header) && IsKey(section) && AreEntries(entries)
    ensures Parse(Unlines(SectionFile(header, section, entries))) ==
            Ok(if section == "project"
               then Manifest(LastValue(entries, "name"), LastValue(entries, "version"), LastValue(entries, "entrypoint"))
               else Manifest(None, None, None))
  {
    FileReadsBack(header, section, entries);
    var pairs := Pairs(entries);
    assert ([Section(section)] + pairs)[1..] == pairs;
    PairsAreCollected(entries, Some(section), EMPTY);
  }

  /** A directory name without control characters is the project's name, as it is. */
  lemma PlainNameIsKept(header: seq<string>, name: string, comment: string)
    requires IsHeader(header) && IsComment(comment) && OneLine(comment)
    requires name != "" && forall i :: 0 <= i < |name| ==> !IsControl(name[i])
    ensures Parse(ManifestText(header, Some(name), comment))
         == Ok(Manifest(Some(name), Some("0.1.0"), Some("src.main:main")))
  {
    ManifestReadsBack(header, Some(name), comment);
    ControlsAreDropped(name, "", ' ');
  }

  // ----- the scaffold -----

  predicate Plain(text: string) {
    forall i :: 0 <= i < |text| ==> text[i] !in {'\\', '"', '\n'}
  }

  lemma PlainText(text: string)
    requires Plain(text)
    ensures Unescape(text) == text && Escape(text) == text
  {
    EscapePlain(text);
    UnescapeInvertsEscape(text);
  }

  lemma EscapedEntry(key: string, v: string, spaces: string, comment: string)
    requires IsKey(key) && Spaces(spaces) && IsComment(comment) && OneLine(comment) && '\n' !in v
    ensures IsEntry(Entry(key, Escape(v), spaces, comment)) && Unescape(Escape(v)) == v
  {
    UnescapeInvertsEscape(v);
    EscapedChars(v);
  }

  lemma ProjectEntriesRead(name: string, comment: string)
    requires '\n' !in name && IsComment(comment) && OneLine(comment)
    ensures AreEntries(ProjectEntries(Escape(name), comment))
    ensures Pairs(ProjectEntries(Escape(name), comment))
         == [Pair("name", name), Pair("version", "0.1.0"), Pair("entrypoint", "src.main:main")]
  {
    ThreeEntriesRead("name", name, "version", "0.1.0", "entrypoint", "src.main:main", comment);
  }

  lemma ThreeEntriesRead(k1: string, v1: string, k2: string, v2: string, k3: string, v3: string, comment: string)
    requires IsKey(k1) && IsKey(k2) && IsKey(k3) && IsComment(comment) && OneLine(comment)
    requires '\n' !in v1 && Plain(v2) && Plain(v3)
    ensures var entries := [Entry(k1, Escape(v1), "", ""), Entry(k2, v2, "", ""), Entry(k3, v3, "   ", comment)];
      AreEntries(entries) && Pairs(entries) == [Pair(k1, v1), Pair(k2, v2), Pair(k3, v3)]
  {
    EscapedEntry(k1, v1, "", "");
    PlainText(v2);
    EscapedEntry(k2, v2, "", "");
    PlainText(v3);
    EscapedEntry(k3, v3, "   ", comment);
  }

  lemma CollectProject(name: string, pairs: seq<Line>)
    requires pairs == [Pair("name", name), Pair("version", "0.1.0"), Pair("entrypoint", "src.main:main")]
    ensures Collect([Section("project")] + pairs, None, EMPTY) == Ok(Manifest(Some(name), Some("0.1.0"), Some("src.main:main")))
  {
    var project := Some("project");
    var m := Manifest(Some(name), Some("0.1.0"), None);
    assert pairs[2..][1..] == [];
    assert Collect(pairs[2..], project, m) == Ok(m.(entrypoint := Some("src.main:main")));
    assert pairs[1..][1..] == pairs[2..];
    assert Collect(pairs[1..], project, Manifest(Some(name), None, None)) == Collect(pairs[2..], project, m);
    assert ([Section("project")] + pairs)[1..] == pairs;
  }

  /** The manifest that `init` writes for a directory reads back as that directory's project, whatever
      characters the directory's name holds. */
  lemma ManifestReadsBack(header: seq<string>, basename: Option<string>, comment: string)
    requires IsHeader(header) && IsComment(comment) && OneLine(comment)
    ensures Parse(ManifestText(header, basename, comment))
         == Ok(Manifest(Some(ExpectedName(basename)), Some("0.1.0"), Some("src.main:main")))
  {
    var name := ExpectedName(basename);
    ProjectNameIsEscaped(basename);
    ExpectedNameIsOneLine(basename);
    var entries := ProjectEntries(Escape(name), comment);
    ProjectEntriesRead(name, comment);
    FileReadsBack(header, "project", entries);
    CollectProject(name, Pairs(entries));
  }
}
