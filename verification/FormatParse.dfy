/** The slot grammar of a format spec and its parser (`parse_nested` of src/fmtspec.rs). */
module FormatParse {
  import opened Wrappers
  import opened Sequences
  import opened Radix

  const MAX_FIELD: nat := 4096

  datatype Align = Left | Right | Center | Pad

  datatype FormatSpec = FormatSpec(
    fill: char,
    align: Option<Align>,
    sign: Option<char>,
    zeroCoerce: bool,
    alt: bool,
    zeroPad: bool,
    width: nat,
    dynWidth: bool,
    dynPrecision: bool,
    group: Option<char>,
    precision: Option<nat>,
    ty: Option<char>)

  /** One element of a spec: a character, or a nested field. */
  datatype SpecItem = Ch(c: char) | Field

  datatype What = Width | Precision

  datatype SpecError =
    | TooLarge(what: What)
    | MissingPrecision
    | NestedSlot
    | UnknownType(c: char)
    | Trailing

  // ----- character classes -----

  predicate IsAlign(c: char) { c in {'<', '>', '^', '='} }

  predicate IsSign(c: char) { c in {'+', '-', ' '} }

  predicate IsGroup(c: char) { c in {',', '_'} }

  predicate IsType(c: char) { c in {'d', 'f', 'F', 'x', 'X', 'b', 'o', 'e', 'E', '%', 'g', 'G'} }

  function ToAlign(c: char): Align
    requires IsAlign(c)
  {
    if c == '<' then Left else if c == '>' then Right else if c == '^' then Center else Pad
  }

  function AlignChar(a: Align): char {
    match a case Left => '<' case Right => '>' case Center => '^' case Pad => '='
  }

  /** The slot an item can open, in slot order; the flag `0` is also a width digit. */
  function Class(item: SpecItem): nat {
    match item
    case Field => 5
    case Ch(c) =>
      if IsAlign(c) then 0
      else if IsSign(c) then 1
      else if c == 'z' then 2
      else if c == '#' then 3
      else if IsDecimal(c) then 5
      else if IsGroup(c) then 6
      else if c == '.' then 7
      else if IsType(c) then 8
      else 9
  }

  // ----- the slots as written -----

  datatype Number = Absent | Literal(digits: string) | Nested

  datatype Slots = Slots(
    fill: Option<char>,
    align: Option<Align>,
    sign: Option<char>,
    z: bool,
    alt: bool,
    zero: bool,
    width: Number,
    group: Option<char>,
    precision: Number,
    ty: Option<char>)

  predicate AllDigits(s: string) {
    forall i :: 0 <= i < |s| ==> IsDecimal(s[i])
  }

  predicate WellWritten(n: Number) {
    n.Literal? ==> n.digits != "" && AllDigits(n.digits)
  }

  predicate Oversized(n: Number) {
    n.Literal? && FromRadix(n.digits, 10) > MAX_FIELD
  }

  /** What the documented slot grammar allows, with the cap on literal numbers. */
  predicate WellFormed(s: Slots) {
    Shaped(s) && !Oversized(s.width) && !Oversized(s.precision)
  }

  /** The slot grammar without the cap. */
  predicate Shaped(s: Slots) {
    && (s.fill.Some? ==> s.align.Some?)
    && (s.sign.Some? ==> IsSign(s.sign.value))
    && (s.group.Some? ==> IsGroup(s.group.value))
    && (s.ty.Some? ==> IsType(s.ty.value))
    && WellWritten(s.width) && WellWritten(s.precision)
    && (s.width.Literal? && !s.zero ==> s.width.digits[0] != '0')
  }

  function Text(s: string): seq<SpecItem> {
    seq(|s|, i requires 0 <= i < |s| => Ch(s[i]))
  }

  function One(c: Option<char>): seq<SpecItem> {
    if c.Some? then [Ch(c.value)] else []
  }

  function Flag(on: bool, c: char): seq<SpecItem> {
    if on then [Ch(c)] else []
  }

  function NumberText(n: Number): seq<SpecItem> {
    match n case Absent => [] case Literal(digits) => Text(digits) case Nested => [Field]
  }

  // The text of the slots from each position on, with `tail` after the width or the precision.

  function FromWidth(s: Slots, tail: seq<SpecItem>): seq<SpecItem> {
    NumberText(s.width) + tail
  }

  function FromZero(s: Slots, tail: seq<SpecItem>): seq<SpecItem> {
    Flag(s.zero, '0') + FromWidth(s, tail)
  }

  function FromAlt(s: Slots, tail: seq<SpecItem>): seq<SpecItem> {
    Flag(s.alt, '#') + FromZero(s, tail)
  }

  function FromZ(s: Slots, tail: seq<SpecItem>): seq<SpecItem> {
    Flag(s.z, 'z') + FromAlt(s, tail)
  }

  function FromSign(s: Slots, tail: seq<SpecItem>): seq<SpecItem> {
    One(s.sign) + FromZ(s, tail)
  }

  function AlignText(s: Slots): seq<SpecItem> {
    One(s.fill) + if s.align.Some? then [Ch(AlignChar(s.align.value))] else []
  }

  /** The slots up to the width. */
  function Front(s: Slots, tail: seq<SpecItem>): seq<SpecItem> {
    AlignText(s) + FromSign(s, tail)
  }

  function PrecisionText(n: Number): seq<SpecItem> {
    if n.Absent? then [] else [Ch('.')] + NumberText(n)
  }

  /** The slots between the width and the type. */
  function Middle(s: Slots, tail: seq<SpecItem>): seq<SpecItem> {
    One(s.group) + (PrecisionText(s.precision) + tail)
  }

  /** The whole spec, in slot order. */
  function Write(s: Slots): seq<SpecItem> {
    Front(s, Middle(s, One(s.ty)))
  }

  /** What the slots say. */
  function Denote(s: Slots): FormatSpec {
    FormatSpec(
      if s.fill.Some? then s.fill.value else if s.zero then '0' else ' ',
      s.align, s.sign, s.z, s.alt, s.zero,
      WidthValue(s.width), s.width.Nested?, s.precision.Nested?,
      s.group,
      PrecisionValue(s.precision),
      s.ty)
  }

  function WidthValue(n: Number): nat {
    if n.Literal? then FromRadix(n.digits, 10) else 0
  }

  /** A nested precision is a placeholder until its value is known. */
  function PrecisionValue(n: Number): Option<nat> {
    match n case Absent => None case Literal(d) => Some(FromRadix(d, 10)) case Nested => Some(0)
  }

  // ----- taking one slot off the front -----

  function TakeAlign(t: seq<SpecItem>): (Option<char>, Option<Align>, seq<SpecItem>) {
    if |t| >= 2 && t[0].Ch? && t[1].Ch? && IsAlign(t[1].c) then (Some(t[0].c), Some(ToAlign(t[1].c)), t[2..])
    else if |t| >= 1 && t[0].Ch? && IsAlign(t[0].c) then (None, Some(ToAlign(t[0].c)), t[1..])
    else (None, None, t)
  }

  function TakeOne(t: seq<SpecItem>, class_: nat): (Option<char>, seq<SpecItem>) {
    if t != [] && t[0].Ch? && Class(t[0]) == class_ then (Some(t[0].c), t[1..]) else (None, t)
  }

  function TakeZero(t: seq<SpecItem>): (bool, seq<SpecItem>) {
    if t != [] && t[0] == Ch('0') then (true, t[1..]) else (false, t)
  }

  function TakeDigits(t: seq<SpecItem>): (string, seq<SpecItem>) {
    if t != [] && t[0].Ch? && IsDecimal(t[0].c) then
      var rest := TakeDigits(t[1..]);
      ([t[0].c] + rest.0, rest.1)
    else ("", t)
  }

  function TakeNumber(t: seq<SpecItem>): (Number, seq<SpecItem>) {
    if t != [] && t[0] == Field then (Nested, t[1..])
    else
      var r := TakeDigits(t);
      (if r.0 == "" then Absent else Literal(r.0), r.1)
  }

  function TakePrecision(t: seq<SpecItem>): Result<(Number, seq<SpecItem>), SpecError> {
    if t == [] || t[0] != Ch('.') then Ok((Absent, t))
    else
      var r := TakeNumber(t[1..]);
      if r.0.Absent? then Err(MissingPrecision)
      else if Oversized(r.0) then Err(TooLarge(Precision))
      else Ok(r)
  }

  /** Why the items left over cannot stand there. */
  function TailError(s: Slots, rest: seq<SpecItem>): SpecError
    requires rest != []
  {
    if s.ty.Some? then if Field in rest then NestedSlot else Trailing
    else if rest[0].Field? then NestedSlot
    else if IsAlign(rest[0].c) && (s.precision.Nested? || (s.precision.Absent? && s.group.None? && s.width.Nested?))
    then NestedSlot
    else UnknownType(rest[0].c)
  }

  /** The slots up to the width, and what follows them. */
  function TakeFront(items: seq<SpecItem>): (Slots, seq<SpecItem>) {
    var (fill, align, t1) := TakeAlign(items);
    var (sign, t2) := TakeOne(t1, 1);
    var (z, t3) := TakeOne(t2, 2);
    var (alt, t4) := TakeOne(t3, 3);
    var (zero, t5) := TakeZero(t4);
    var (width, t6) := TakeNumber(t5);
    (Slots(fill, align, sign, z.Some?, alt.Some?, zero, width, None, Absent, None), t6)
  }

  /** The slots after the width. */
  function TakeRest(s: Slots, t6: seq<SpecItem>): Result<Slots, SpecError> {
    var (group, t7) := TakeOne(t6, 6);
    match TakePrecision(t7)
    case Err(e) => Err(e)
    case Ok((precision, t8)) =>
      var (ty, t9) := TakeOne(t8, 8);
      var whole := s.(group := group, precision := precision, ty := ty);
      if t9 == [] then Ok(whole) else Err(TailError(whole, t9))
  }

  function ParseSlots(items: seq<SpecItem>): Result<Slots, SpecError> {
    var (s, t6) := TakeFront(items);
    if Oversized(s.width) then Err(TooLarge(Width)) else TakeRest(s, t6)
  }

  function Parse(items: seq<SpecItem>): Result<FormatSpec, SpecError> {
    match ParseSlots(items)
    case Err(e) => Err(e)
    case Ok(s) => Ok(Denote(s))
  }

  // ----- every take is a slot of the text -----

  lemma TakeOneSplits(t: seq<SpecItem>, class_: nat)
    ensures t == One(TakeOne(t, class_).0) + TakeOne(t, class_).1
    ensures TakeOne(t, class_).0.Some? ==> Class(Ch(TakeOne(t, class_).0.value)) == class_
  {
  }

  lemma {:induction false} TakeDigitsSplits(t: seq<SpecItem>)
    ensures var (digits, rest) := TakeDigits(t);
            && AllDigits(digits) && t == Text(digits) + rest
            && (rest == [] || !(rest[0].Ch? && IsDecimal(rest[0].c)))
  {
    if t != [] && t[0].Ch? && IsDecimal(t[0].c) {
      TakeDigitsSplits(t[1..]);
      var (digits, rest) := TakeDigits(t[1..]);
      assert t == [t[0]] + t[1..];
      assert Text([t[0].c] + digits) == [t[0]] + Text(digits);
      Assoc([t[0]], Text(digits), rest);
    } else {
      assert Text("") + t == t;
    }
  }

  lemma TakeNumberSplits(t: seq<SpecItem>)
    ensures t == NumberText(TakeNumber(t).0) + TakeNumber(t).1 && WellWritten(TakeNumber(t).0)
    ensures Ends(TakeNumber(t).0, TakeNumber(t).1)
  {
    TakeDigitsSplits(t);
    assert Text("") == [];
  }

  lemma TakeAlignSplits(t: seq<SpecItem>)
    ensures var (fill, align, rest) := TakeAlign(t);
            t == One(fill) + (if align.Some? then [Ch(AlignChar(align.value))] else []) + rest
            && (fill.Some? ==> align.Some?)
  {
  }

  lemma TakeZeroSplits(t: seq<SpecItem>)
    ensures t == Flag(TakeZero(t).0, '0') + TakeZero(t).1
    ensures !TakeZero(t).0 && TakeZero(t).1 != [] ==> TakeZero(t).1[0] != Ch('0')
  {
  }

  lemma FlagIsTaken(t: seq<SpecItem>, class_: nat, c: char)
    requires (class_ == 2 && c == 'z') || (class_ == 3 && c == '#')
    ensures t == Flag(TakeOne(t, class_).0.Some?, c) + TakeOne(t, class_).1
  {
    TakeOneSplits(t, class_);
  }

  lemma FrontText(items: seq<SpecItem>)
    ensures var (s, t) := TakeFront(items); items == Front(s, t)
  {
    var t1 := TakeAlign(items).2;
    var t2 := TakeOne(t1, 1).1;
    var t3 := TakeOne(t2, 2).1;
    var t4 := TakeOne(t3, 3).1;
    var t5 := TakeZero(t4).1;
    var t6 := TakeNumber(t5).1;
    var s := TakeFront(items).0;
    TakeNumberSplits(t5);
    assert FromWidth(s, t6) == t5;
    TakeZeroSplits(t4);
    assert FromZero(s, t6) == t4;
    FlagIsTaken(t3, 3, '#');
    assert FromAlt(s, t6) == t3;
    FlagIsTaken(t2, 2, 'z');
    assert FromZ(s, t6) == t2;
    TakeOneSplits(t1, 1);
    assert FromSign(s, t6) == t1;
    TakeAlignSplits(items);
  }

  lemma FrontShape(items: seq<SpecItem>)
    ensures var (s, t) := TakeFront(items); Shaped(s) && Ends(s.width, t)
  {
    var t1 := TakeAlign(items).2;
    var t4 := TakeOne(TakeOne(TakeOne(t1, 1).1, 2).1, 3).1;
    var t5 := TakeZero(t4).1;
    TakeAlignSplits(items);
    TakeOneSplits(t1, 1);
    TakeZeroSplits(t4);
    TakeNumberSplits(t5);
    if TakeNumber(t5).0.Literal? { assert t5[0] == Ch(TakeNumber(t5).0.digits[0]); }
  }

  lemma TakePrecisionSplits(t: seq<SpecItem>)
    requires TakePrecision(t).Ok?
    ensures var (precision, rest) := TakePrecision(t).value;
            t == PrecisionText(precision) + rest && WellWritten(precision) && !Oversized(precision)
  {
    if t != [] && t[0] == Ch('.') {
      TakeNumberSplits(t[1..]);
      assert t == [Ch('.')] + t[1..];
      Assoc([Ch('.')], NumberText(TakeNumber(t[1..]).0), TakeNumber(t[1..]).1);
    }
  }

  lemma RestIsSound(front: Slots, t6: seq<SpecItem>)
    requires Shaped(front) && !Oversized(front.width) && TakeRest(front, t6).Ok?
    ensures var s := TakeRest(front, t6).value;
            && WellFormed(s) && t6 == Middle(s, One(s.ty))
            && s == front.(group := s.group, precision := s.precision, ty := s.ty)
  {
    var t7 := TakeOne(t6, 6).1;
    var (precision, t8) := TakePrecision(t7).value;
    TakeOneSplits(t6, 6);
    TakePrecisionSplits(t7);
    TakeOneSplits(t8, 8);
    assert t8 == One(TakeOne(t8, 8).0);
  }

  /** A parsed spec is well formed, and is the text it was parsed from. */
  lemma ParseIsSound(items: seq<SpecItem>)
    requires ParseSlots(items).Ok?
    ensures WellFormed(ParseSlots(items).value) && Write(ParseSlots(items).value) == items
  {
    FrontText(items);
    FrontShape(items);
    var (front, t6) := TakeFront(items);
    RestIsSound(front, t6);
    SameFront(front, ParseSlots(items).value, t6);
  }

  /** The front text depends on the front slots only. */
  lemma SameFront(front: Slots, s: Slots, t: seq<SpecItem>)
    requires s == front.(group := s.group, precision := s.precision, ty := s.ty)
    ensures Front(front, t) == Front(s, t)
  {
  }

  // ----- every slot of the text is taken -----

  /** A number ends where `tail` starts. */
  ghost predicate Ends(n: Number, tail: seq<SpecItem>) {
    || n.Nested? || tail == []
    || (tail[0].Ch? && !IsDecimal(tail[0].c))
    || (n.Literal? && tail[0].Field?)
  }

  /** `t` opens with a slot from `class_` on. */
  ghost predicate Later(t: seq<SpecItem>, class_: nat) {
    t == [] || Class(t[0]) >= class_
  }

  lemma TakeOneBack(c: Option<char>, class_: nat, rest: seq<SpecItem>)
    requires c.Some? ==> Class(Ch(c.value)) == class_
    requires Later(rest, class_ + 1)
    ensures TakeOne(One(c) + rest, class_) == (c, rest)
  {
    if c.Some? {
      assert (One(c) + rest)[1..] == rest;
    } else {
      assert One(c) + rest == rest;
    }
  }

  lemma TakeZeroBack(on: bool, rest: seq<SpecItem>)
    requires !on && rest != [] ==> rest[0] != Ch('0')
    ensures TakeZero(Flag(on, '0') + rest) == (on, rest)
  {
    if on {
      assert (Flag(on, '0') + rest)[1..] == rest;
    } else {
      assert Flag(on, '0') + rest == rest;
    }
  }

  lemma {:induction false} TakeDigitsBack(digits: string, rest: seq<SpecItem>)
    requires AllDigits(digits) && (rest == [] || !(rest[0].Ch? && IsDecimal(rest[0].c)))
    ensures TakeDigits(Text(digits) + rest) == (digits, rest)
  {
    if digits != "" {
      var t := Text(digits) + rest;
      assert t[1..] == Text(digits[1..]) + rest;
      TakeDigitsBack(digits[1..], rest);
      assert [digits[0]] + digits[1..] == digits;
    } else {
      assert Text(digits) + rest == rest;
    }
  }

  lemma TakeNumberBack(n: Number, rest: seq<SpecItem>)
    requires WellWritten(n) && Ends(n, rest)
    ensures TakeNumber(NumberText(n) + rest) == (n, rest)
  {
    match n
    case Absent => TakeDigitsBack("", rest); assert Text("") + rest == [] + rest == rest;
    case Literal(d) => TakeDigitsBack(d, rest); assert (Text(d) + rest)[0] == Ch(d[0]);
    case Nested =>
  }

  /** The front slots are taken back off any text that goes on with something else. */
  lemma FrontIsTaken(s: Slots, tail: seq<SpecItem>)
    requires Shaped(s) && Ends(s.width, tail)
    requires s.width.Absent? ==> Later(tail, 6)
    requires s.align.None? ==> forall i :: 0 <= i < 2 && i < |FromSign(s, tail)| ==> Class(FromSign(s, tail)[i]) >= 1
    ensures TakeFront(Front(s, tail)) == (s.(group := None, precision := Absent, ty := None), tail)
  {
    WidthHead(s, tail);
    FlagsAreTaken(s, tail);
    TakeNumberBack(s.width, tail);
    TakeAlignBack(s, FromSign(s, tail));
  }

  lemma FlagsAreTaken(s: Slots, tail: seq<SpecItem>)
    requires Shaped(s) && Later(FromWidth(s, tail), 5)
    requires !s.zero && FromWidth(s, tail) != [] ==> FromWidth(s, tail)[0] != Ch('0')
    ensures TakeOne(FromSign(s, tail), 1) == (s.sign, FromZ(s, tail))
    ensures TakeOne(FromZ(s, tail), 2) == (if s.z then Some('z') else None, FromAlt(s, tail))
    ensures TakeOne(FromAlt(s, tail), 3) == (if s.alt then Some('#') else None, FromZero(s, tail))
    ensures TakeZero(FromZero(s, tail)) == (s.zero, FromWidth(s, tail))
  {
    FrontHeads(s, tail);
    TakeZeroBack(s.zero, FromWidth(s, tail));
    TakeOneBack(if s.alt then Some('#') else None, 3, FromZero(s, tail));
    TakeOneBack(if s.z then Some('z') else None, 2, FromAlt(s, tail));
    TakeOneBack(s.sign, 1, FromZ(s, tail));
  }

  lemma WidthHead(s: Slots, tail: seq<SpecItem>)
    requires Shaped(s) && (s.width.Absent? ==> Later(tail, 6))
    ensures Later(FromWidth(s, tail), 5)
    ensures !s.zero && FromWidth(s, tail) != [] ==> FromWidth(s, tail)[0] != Ch('0')
  {
  }

  lemma FrontHeads(s: Slots, tail: seq<SpecItem>)
    requires Shaped(s) && Later(FromWidth(s, tail), 5)
    ensures Later(FromZero(s, tail), 5) && Later(FromAlt(s, tail), 3) && Later(FromZ(s, tail), 2) && Later(FromSign(s, tail), 1)
  {
    LaterAfter(Flag(s.zero, '0'), FromWidth(s, tail), 5);
    LaterAfter(Flag(s.alt, '#'), FromZero(s, tail), 3);
    LaterAfter(Flag(s.z, 'z'), FromAlt(s, tail), 2);
    LaterAfter(One(s.sign), FromZ(s, tail), 1);
  }

  lemma LaterAfter(a: seq<SpecItem>, b: seq<SpecItem>, class_: nat)
    requires Later(a, class_) && Later(b, class_)
    ensures Later(a + b, class_)
  {
  }

  lemma TakeAlignBack(s: Slots, rest: seq<SpecItem>)
    requires (s.fill.Some? ==> s.align.Some?) && Later(rest, 1)
    requires s.align.None? ==> forall i :: 0 <= i < 2 && i < |rest| ==> Class(rest[i]) >= 1
    ensures TakeAlign(AlignText(s) + rest) == (s.fill, s.align, rest)
  {
    var t := AlignText(s) + rest;
    if s.fill.Some? {
      assert t[2..] == rest;
    } else if s.align.Some? {
      assert t[1..] == rest;
    } else {
      assert t == rest;
    }
  }

  lemma TakePrecisionBack(n: Number, rest: seq<SpecItem>)
    requires WellWritten(n) && !Oversized(n) && Later(rest, 8)
    ensures TakePrecision(PrecisionText(n) + rest) == Ok((n, rest))
  {
    if n.Absent? {
      assert PrecisionText(n) + rest == rest;
    } else {
      TakeNumberBack(n, rest);
      TakePrecisionDot(NumberText(n) + rest, n, rest);
      Assoc([Ch('.')], NumberText(n), rest);
    }
  }

  lemma TakePrecisionDot(t: seq<SpecItem>, n: Number, rest: seq<SpecItem>)
    requires TakeNumber(t) == (n, rest) && !n.Absent? && !Oversized(n)
    ensures TakePrecision([Ch('.')] + t) == Ok((n, rest))
  {
    assert ([Ch('.')] + t)[1..] == t;
  }

  lemma RestIsTaken(front: Slots, s: Slots)
    requires WellFormed(s) && front == s.(group := None, precision := Absent, ty := None)
    ensures TakeRest(front, Middle(s, One(s.ty))) == Ok(s)
  {
    TakeOneBack(s.group, 6, PrecisionText(s.precision) + One(s.ty));
    TakePrecisionBack(s.precision, One(s.ty));
    TakeOneBack(s.ty, 8, []);
    assert One(s.ty) + [] == One(s.ty);
  }

  ghost predicate NoAlign(t: seq<SpecItem>) {
    forall i :: 0 <= i < |t| ==> Class(t[i]) >= 1
  }

  lemma NoAlignConcat(a: seq<SpecItem>, b: seq<SpecItem>)
    requires NoAlign(a) && NoAlign(b)
    ensures NoAlign(a + b)
  {
  }

  lemma NumberHasNoAlign(n: Number)
    requires WellWritten(n)
    ensures NoAlign(NumberText(n)) && NoAlign(PrecisionText(n))
  {
  }

  lemma NoAlignAhead(s: Slots)
    requires Shaped(s)
    ensures NoAlign(FromSign(s, Middle(s, One(s.ty))))
  {
    var tail := Middle(s, One(s.ty));
    NumberHasNoAlign(s.width);
    NumberHasNoAlign(s.precision);
    NoAlignConcat(PrecisionText(s.precision), One(s.ty));
    NoAlignConcat(One(s.group), PrecisionText(s.precision) + One(s.ty));
    NoAlignFront(s, tail);
  }

  lemma NoAlignFront(s: Slots, tail: seq<SpecItem>)
    requires Shaped(s) && NoAlign(tail)
    ensures NoAlign(FromSign(s, tail))
  {
    NumberHasNoAlign(s.width);
    NoAlignConcat(NumberText(s.width), tail);
    NoAlignConcat(Flag(s.zero, '0'), FromWidth(s, tail));
    NoAlignConcat(Flag(s.alt, '#'), FromZero(s, tail));
    NoAlignConcat(Flag(s.z, 'z'), FromAlt(s, tail));
    NoAlignConcat(One(s.sign), FromZ(s, tail));
  }

  /** Writing any well-formed slots and parsing them gives them back: the grammar is unambiguous and
      the parser inverts it. */
  lemma ParseIsComplete(s: Slots)
    requires WellFormed(s)
    ensures ParseSlots(Write(s)) == Ok(s)
  {
    NoAlignAhead(s);
    FrontIsTaken(s, Middle(s, One(s.ty)));
    RestIsTaken(s.(group := None, precision := Absent, ty := None), s);
  }

  // ----- the cap -----

  lemma FromSignSplits(s: Slots, a: seq<SpecItem>, b: seq<SpecItem>)
    ensures FromSign(s, a + b) == FromSign(s, a) + b
  {
    Assoc(NumberText(s.width), a, b);
    Assoc(Flag(s.zero, '0'), FromWidth(s, a), b);
    Assoc(Flag(s.alt, '#'), FromZero(s, a), b);
    Assoc(Flag(s.z, 'z'), FromAlt(s, a), b);
    Assoc(One(s.sign), FromZ(s, a), b);
  }

  lemma OversizedIsLong(n: Number)
    requires WellWritten(n) && Oversized(n)
    ensures |n.digits| >= 2
  {
    if |n.digits| == 1 { assert FromRadix(n.digits[..0], 10) == 0; }
  }

  lemma FirstTwoAreSafe(s: Slots, a: seq<SpecItem>, b: seq<SpecItem>)
    requires Shaped(s) && NoAlign(a) && |NumberText(s.width)| + |a| >= 2
    ensures forall i :: 0 <= i < 2 && i < |FromSign(s, a + b)| ==> Class(FromSign(s, a + b)[i]) >= 1
  {
    NoAlignFront(s, a);
    FromSignSplits(s, a, b);
    assert |FromSign(s, a)| >= 2;
  }

  /** The width is rejected as too large exactly when its digits, all of them, say more than the
      cap. */
  lemma WidthCapIsExact(items: seq<SpecItem>)
    ensures ParseSlots(items) == Err(TooLarge(Width)) <==>
            exists s, rest :: Shaped(s) && Oversized(s.width) && Ends(s.width, rest) && items == Front(s, rest)
  {
    FrontText(items);
    FrontShape(items);
    if s, rest :| Shaped(s) && Oversized(s.width) && Ends(s.width, rest) && items == Front(s, rest) {
      OversizedIsLong(s.width);
      FirstTwoAreSafe(s, [], rest);
      assert [] + rest == rest;
      FrontIsTaken(s, rest);
    }
    RestNeverBlamesWidth(TakeFront(items).0, TakeFront(items).1);
  }

  lemma RestNeverBlamesWidth(s: Slots, t: seq<SpecItem>)
    ensures TakeRest(s, t) != Err(TooLarge(Width))
  {
  }

  ghost predicate OversizedPrecision(s: Slots, rest: seq<SpecItem>) {
    Shaped(s) && !Oversized(s.width) && Oversized(s.precision) && Ends(s.precision, rest)
  }

  /** The same for the precision, in a spec whose width is in bounds. */
  lemma PrecisionCapIsExact(items: seq<SpecItem>)
    ensures ParseSlots(items) == Err(TooLarge(Precision)) <==>
            exists s, rest :: OversizedPrecision(s, rest) && items == Front(s, Middle(s, rest))
  {
    if ParseSlots(items) == Err(TooLarge(Precision)) {
      FrontText(items);
      FrontShape(items);
      var (front, t6) := TakeFront(items);
      var s, rest := PrecisionBlamed(front, t6);
      SameFront(front, s, t6);
    }
    if s, rest :| OversizedPrecision(s, rest) && items == Front(s, Middle(s, rest)) {
      OversizedPrecisionIsTaken(s, rest);
    }
  }

  lemma PrecisionBlamed(front: Slots, t6: seq<SpecItem>) returns (s: Slots, rest: seq<SpecItem>)
    requires Shaped(front) && !Oversized(front.width) && TakeRest(front, t6) == Err(TooLarge(Precision))
    ensures OversizedPrecision(s, rest) && t6 == Middle(s, rest)
    ensures s == front.(group := s.group, precision := s.precision, ty := s.ty)
  {
    var (group, t7) := TakeOne(t6, 6);
    TakeOneSplits(t6, 6);
    var n, r := PrecisionOverSplits(t7);
    s, rest := front.(group := group, precision := n, ty := None), r;
  }

  lemma PrecisionOverSplits(t: seq<SpecItem>) returns (n: Number, rest: seq<SpecItem>)
    requires TakePrecision(t) == Err(TooLarge(Precision))
    ensures WellWritten(n) && Oversized(n) && Ends(n, rest) && t == PrecisionText(n) + rest
  {
    n, rest := TakeNumber(t[1..]).0, TakeNumber(t[1..]).1;
    TakeNumberSplits(t[1..]);
    assert t == [Ch('.')] + t[1..];
    Assoc([Ch('.')], NumberText(n), rest);
  }

  lemma OversizedPrecisionIsTaken(s: Slots, rest: seq<SpecItem>)
    requires OversizedPrecision(s, rest)
    ensures ParseSlots(Front(s, Middle(s, rest))) == Err(TooLarge(Precision))
  {
    OversizedPrecisionFront(s, rest);
    OversizedPrecisionRest(s.(group := None, precision := Absent, ty := None), s, rest);
  }

  lemma OversizedPrecisionFront(s: Slots, rest: seq<SpecItem>)
    requires OversizedPrecision(s, rest)
    ensures TakeFront(Front(s, Middle(s, rest))) == (s.(group := None, precision := Absent, ty := None), Middle(s, rest))
  {
    var a := One(s.group) + PrecisionText(s.precision);
    OversizedIsLong(s.precision);
    NumberHasNoAlign(s.precision);
    NoAlignConcat(One(s.group), PrecisionText(s.precision));
    Assoc(One(s.group), PrecisionText(s.precision), rest);
    assert |a| >= 2;
    FirstTwoAreSafe(s, a, rest);
    MiddleHead(s, rest);
    FrontIsTaken(s, Middle(s, rest));
  }

  lemma MiddleHead(s: Slots, rest: seq<SpecItem>)
    requires Shaped(s) && !s.precision.Absent?
    ensures Later(Middle(s, rest), 6) && Ends(s.width, Middle(s, rest))
  {
    var t7 := PrecisionText(s.precision) + rest;
    assert t7[0] == Ch('.');
    assert s.group.None? ==> Middle(s, rest) == t7;
  }

  lemma OversizedPrecisionRest(front: Slots, s: Slots, rest: seq<SpecItem>)
    requires OversizedPrecision(s, rest)
    ensures TakeRest(front, Middle(s, rest)) == Err(TooLarge(Precision))
  {
    TakePrecisionOver(s.precision, rest);
    TakeOneBack(s.group, 6, PrecisionText(s.precision) + rest);
  }

  lemma TakePrecisionOver(n: Number, rest: seq<SpecItem>)
    requires WellWritten(n) && Oversized(n) && Ends(n, rest)
    ensures TakePrecision(PrecisionText(n) + rest) == Err(TooLarge(Precision)) && (PrecisionText(n) + rest)[0] == Ch('.')
  {
    assert (PrecisionText(n) + rest)[1..] == NumberText(n) + rest;
    TakeNumberBack(n, rest);
  }

  // ----- whole specs -----

  /** The specs a parse can give. */
  predicate IsSpec(f: FormatSpec) {
    && (f.align.None? ==> f.fill == if f.zeroPad then '0' else ' ')
    && (f.sign.Some? ==> IsSign(f.sign.value))
    && (f.group.Some? ==> IsGroup(f.group.value))
    && (f.ty.Some? ==> IsType(f.ty.value))
    && f.width <= MAX_FIELD && (f.dynWidth ==> f.width == 0)
    && (f.precision.Some? ==> f.precision.value <= MAX_FIELD)
    && (f.dynPrecision ==> f.precision == Some(0))
  }

  function SpellWidth(f: FormatSpec): Number {
    if f.dynWidth then Nested else if f.width == 0 then Absent else Decimal(f.width)
  }

  function SpellPrecision(f: FormatSpec): Number {
    if f.dynPrecision then Nested else if f.precision.None? then Absent else Decimal(f.precision.value)
  }

  /** One way to write a spec. */
  function Spell(f: FormatSpec): Slots {
    Slots(
      if f.align.Some? then Some(f.fill) else None,
      f.align, f.sign, f.zeroCoerce, f.alt, f.zeroPad,
      SpellWidth(f), f.group, SpellPrecision(f), f.ty)
  }

  lemma DecimalLiteral(n: nat)
    ensures var d := ToRadix(n, 10, false);
            d != "" && AllDigits(d) && FromRadix(d, 10) == n && (n > 0 ==> d[0] != '0')
  {
    var d := ToRadix(n, 10, false);
    RadixRoundTrip(n, 10, false);
    RadixIsDigits(n, 10, false);
    RadixIsCanonical(n, 10, false);
    forall i | 0 <= i < |d| ensures IsDecimal(d[i]) { assert d[i] in d; }
  }

  function Decimal(n: nat): Number {
    Literal(ToRadix(n, 10, false))
  }

  lemma DecimalIsWritten(n: nat)
    requires n <= MAX_FIELD
    ensures WellWritten(Decimal(n)) && !Oversized(Decimal(n)) && FromRadix(Decimal(n).digits, 10) == n
    ensures n > 0 ==> Decimal(n).digits[0] != '0'
  {
    DecimalLiteral(n);
  }

  lemma SpelledNumbers(f: FormatSpec)
    requires IsSpec(f)
    ensures var w := SpellWidth(f);
            && WellWritten(w) && !Oversized(w) && (w.Literal? ==> w.digits[0] != '0')
            && WidthValue(w) == f.width && w.Nested? == f.dynWidth
    ensures var p := SpellPrecision(f);
            WellWritten(p) && !Oversized(p) && PrecisionValue(p) == f.precision && p.Nested? == f.dynPrecision
  {
    DecimalIsWritten(f.width);
    if f.precision.Some? { DecimalIsWritten(f.precision.value); }
  }

  lemma SpellIsWellFormed(f: FormatSpec)
    requires IsSpec(f)
    ensures WellFormed(Spell(f))
  {
    SpelledNumbers(f);
  }

  lemma SpellDenotes(f: FormatSpec)
    requires IsSpec(f)
    ensures Denote(Spell(f)) == f
  {
    SpelledNumbers(f);
  }

  /** Every spec can be written, and its text parses back to it. */
  lemma SpecRoundTrip(f: FormatSpec)
    requires IsSpec(f)
    ensures Parse(Write(Spell(f))) == Ok(f)
  {
    SpellIsWellFormed(f);
    SpellDenotes(f);
    ParseIsComplete(Spell(f));
  }

  /** What each written slot becomes. Without a written fill the fill is a zero under the `0` flag, whatever
      the alignment, and a space otherwise. */
  lemma ParsedSlots(s: Slots)
    requires WellFormed(s)
    ensures Parse(Write(s)).Ok?
    ensures var f := Parse(Write(s)).value;
            && (s.fill.Some? ==> f.fill == s.fill.value)
            && (s.fill.None? && s.zero ==> f.fill == '0')
            && (s.fill.None? && !s.zero ==> f.fill == ' ')
            && f.align == s.align && f.sign == s.sign && f.group == s.group && f.ty == s.ty
            && f.zeroCoerce == s.z && f.alt == s.alt && f.zeroPad == s.zero
            && (f.dynWidth <==> s.width.Nested?) && (f.dynPrecision <==> s.precision.Nested?)
            && (s.width.Literal? ==> f.width == FromRadix(s.width.digits, 10))
            && (!s.width.Literal? ==> f.width == 0)
            && (s.precision.Literal? ==> f.precision == Some(FromRadix(s.precision.digits, 10)))
            && (s.precision.Nested? ==> f.precision == Some(0))
            && (s.precision.Absent? ==> f.precision == None)
  {
    ParseIsComplete(s);
  }

  /** The order the slots are written in, character by character. */
  lemma WrittenInOrder(s: Slots)
    ensures Write(s) ==
            (if s.fill.Some? then [Ch(s.fill.value)] else [])
            + (match s.align
               case None => []
               case Some(Left) => [Ch('<')]
               case Some(Right) => [Ch('>')]
               case Some(Center) => [Ch('^')]
               case Some(Pad) => [Ch('=')])
            + ((if s.sign.Some? then [Ch(s.sign.value)] else [])
            + ((if s.z then [Ch('z')] else [])
            + ((if s.alt then [Ch('#')] else [])
            + ((if s.zero then [Ch('0')] else [])
            + (NumberText(s.width)
            + ((if s.group.Some? then [Ch(s.group.value)] else [])
            + ((if s.precision.Absent? then [] else [Ch('.')] + NumberText(s.precision))
            + (if s.ty.Some? then [Ch(s.ty.value)] else []))))))))
  {
  }

  // ----- why a text is refused -----

  /** The slots `s`, up to the type, and what is left after them. */
  ghost predicate Leaves(items: seq<SpecItem>, s: Slots, rest: seq<SpecItem>) {
    Shaped(s) && rest != [] && items == Front(s, Middle(s, One(s.ty) + rest))
  }

  /** The last slot written before the type is a nested field. */
  ghost predicate EndsInField(s: Slots) {
    s.precision.Nested? || (s.precision.Absent? && s.group.None? && s.width.Nested?)
  }

  /** What an error says of the text. */
  ghost predicate Explains(e: SpecError, items: seq<SpecItem>, s: Slots, rest: seq<SpecItem>) {
    match e
    case TooLarge(Width) => Oversized(s.width) && items == Front(s, rest)
    case TooLarge(Precision) => Oversized(s.precision) && items == Front(s, Middle(s, rest))
    case MissingPrecision =>
      && items == Front(s, One(s.group) + ([Ch('.')] + rest))
      && (rest == [] || (rest[0].Ch? && !('0' <= rest[0].c <= '9')))
    case Trailing => Leaves(items, s, rest) && s.ty.Some? && Field !in rest
    case UnknownType(c) =>
      Leaves(items, s, rest) && s.ty.None? && rest[0] == Ch(c) && !IsType(c) && !(IsAlign(c) && EndsInField(s))
    case NestedSlot =>
      && Leaves(items, s, rest)
      && if s.ty.Some? then Field in rest
         else rest[0] == Field || (rest[0].Ch? && IsAlign(rest[0].c) && EndsInField(s))
  }

  lemma MissingIsExplained(front: Slots, t6: seq<SpecItem>) returns (s: Slots, rest: seq<SpecItem>)
    requires Shaped(front) && TakePrecision(TakeOne(t6, 6).1) == Err(MissingPrecision)
    ensures Explains(MissingPrecision, Front(front, t6), s, rest)
  {
    var (group, t7) := TakeOne(t6, 6);
    TakeOneSplits(t6, 6);
    s, rest := front.(group := group), t7[1..];
    assert t7 == [Ch('.')] + rest;
    TakeDigitsSplits(rest);
    SameFront(front, s, t6);
  }

  /** The items after the width: a group, a precision, a type, and what is left. */
  lemma MiddleText(t6: seq<SpecItem>, s: Slots, rest: seq<SpecItem>)
    requires TakePrecision(TakeOne(t6, 6).1).Ok?
    requires s.group == TakeOne(t6, 6).0
    requires var (precision, t8) := TakePrecision(TakeOne(t6, 6).1).value;
             s.precision == precision && (s.ty, rest) == TakeOne(t8, 8)
    ensures t6 == Middle(s, One(s.ty) + rest)
    ensures (s.group.Some? ==> IsGroup(s.group.value)) && (s.ty.Some? ==> IsType(s.ty.value))
    ensures WellWritten(s.precision)
    ensures s.ty.None? ==> rest == [] || !(rest[0].Ch? && Class(rest[0]) == 8)
  {
    TakeOneSplits(t6, 6);
    TakePrecisionSplits(TakeOne(t6, 6).1);
    TakeOneSplits(TakePrecision(TakeOne(t6, 6).1).value.1, 8);
  }

  lemma LeftoverIs(front: Slots, t6: seq<SpecItem>) returns (s: Slots, rest: seq<SpecItem>)
    requires Shaped(front) && TakePrecision(TakeOne(t6, 6).1).Ok?
    ensures Shaped(s) && Front(front, t6) == Front(s, Middle(s, One(s.ty) + rest))
    ensures s.ty.None? ==> rest == [] || !(rest[0].Ch? && Class(rest[0]) == 8)
    ensures TakeRest(front, t6) == if rest == [] then Ok(s) else Err(TailError(s, rest))
  {
    var (precision, t8) := TakePrecision(TakeOne(t6, 6).1).value;
    s := front.(group := TakeOne(t6, 6).0, precision := precision, ty := TakeOne(t8, 8).0);
    rest := TakeOne(t8, 8).1;
    MiddleText(t6, s, rest);
    SameFront(front, s, t6);
  }

  lemma TailIsExplained(items: seq<SpecItem>, s: Slots, rest: seq<SpecItem>)
    requires Leaves(items, s, rest) && (s.ty.None? ==> !(rest[0].Ch? && Class(rest[0]) == 8))
    ensures Explains(TailError(s, rest), items, s, rest)
  {
    if s.ty.None? && rest[0].Ch? { TypeIsClass8(rest[0].c); }
  }

  lemma TypeIsClass8(c: char)
    ensures IsType(c) ==> Class(Ch(c)) == 8
  {
  }

  /** The characters that make a spec of their own, slot by slot. */
  lemma OneCharacter(c: char)
    ensures TakeAlign([Ch(c)]).1.Some? <==> c in {'<', '>', '^', '='}
    ensures TakeOne([Ch(c)], 1).0.Some? <==> c in {'+', '-', ' '}
    ensures TakeOne([Ch(c)], 2).0.Some? <==> c == 'z'
    ensures TakeOne([Ch(c)], 3).0.Some? <==> c == '#'
    ensures TakeZero([Ch(c)]).0 <==> c == '0'
    ensures TakeOne([Ch(c)], 6).0.Some? <==> c in {',', '_'}
    ensures TakeOne([Ch(c)], 8).0.Some? <==> c in {'d', 'x', 'X', 'b', 'o', 'f', 'F', 'e', 'E', 'g', 'G', '%'}
    ensures TakeAlign([Ch(c)]).1.Some? ==>
              TakeAlign([Ch(c)]).1.value == if c == '<' then Left else if c == '>' then Right else if c == '^' then Center else Pad
  {
  }

  /** Every refusal is for a reason the text shows. */
  lemma ErrorIsExplained(items: seq<SpecItem>) returns (s: Slots, rest: seq<SpecItem>)
    requires Parse(items).Err?
    ensures Explains(Parse(items).error, items, s, rest)
  {
    var e := Parse(items).error;
    if e == TooLarge(Width) {
      WidthCapIsExact(items);
      s, rest :| Shaped(s) && Oversized(s.width) && Ends(s.width, rest) && items == Front(s, rest);
    } else if e == TooLarge(Precision) {
      PrecisionCapIsExact(items);
      s, rest :| OversizedPrecision(s, rest) && items == Front(s, Middle(s, rest));
    } else {
      FrontText(items);
      FrontShape(items);
      var (front, t6) := TakeFront(items);
      if TakePrecision(TakeOne(t6, 6).1).Err? {
        s, rest := MissingIsExplained(front, t6);
      } else {
        s, rest := LeftoverIs(front, t6);
        TailIsExplained(items, s, rest);
      }
    }
  }

  lemma ParsedIsSpec(items: seq<SpecItem>)
    requires Parse(items).Ok?
    ensures IsSpec(Parse(items).value)
  {
    ParseIsSound(items);
  }

  // ----- the parser as it runs -----

  function Bump(acc: nat, c: char): Option<nat>
    requires IsDecimal(c)
  {
    var next := 10 * acc + DigitValue(c);
    if next > MAX_FIELD then None else Some(next)
  }

  lemma {:induction false} MoreDigitsAreMore(a: string, b: string)
    ensures FromRadix(a + b, 10) >= FromRadix(a, 10)
    decreases |b|
  {
    if b == "" {
      assert a + b == a;
    } else {
      var front := b[..|b| - 1];
      MoreDigitsAreMore(a, front);
      FromRadixLast(a + front, b[|b| - 1], 10);
      assert a + front + [b[|b| - 1]] == a + b;
    }
  }

  /** The digits from `start` on, stopping at the first that passes the cap. */
  method ReadNumber(items: seq<SpecItem>, start: nat) returns (r: Option<nat>, i: nat)
    requires start <= |items|
    ensures start <= i <= |items|
    ensures var (digits, rest) := TakeDigits(items[start..]);
            if r.None? then Oversized(Literal(digits))
            else r.value == FromRadix(digits, 10) <= MAX_FIELD && i == start + |digits| && items[i..] == rest
  {
    var acc := 0;
    i := start;
    ghost var read := "";
    ghost var (digits, rest) := TakeDigits(items[start..]);
    while i < |items| && items[i].Ch? && IsDecimal(items[i].c)
      invariant start <= i <= |items| && i == start + |read|
      invariant acc == FromRadix(read, 10) <= MAX_FIELD
      invariant digits == read + TakeDigits(items[i..]).0 && rest == TakeDigits(items[i..]).1
    {
      TakeDigitsStep(items, i, read);
      FromRadixLast(read, items[i].c, 10);
      read := read + [items[i].c];
      var next := Bump(acc, items[i].c);
      if next.None? {
        MoreDigitsAreMore(read, TakeDigits(items[i + 1..]).0);
        assert Oversized(Literal(digits));
        return None, i;
      }
      acc, i := next.value, i + 1;
    }
    TakeDigitsStop(items, i, read);
    r := Some(acc);
  }

  lemma TakeDigitsStep(items: seq<SpecItem>, i: nat, read: string)
    requires i < |items| && items[i].Ch? && IsDecimal(items[i].c)
    ensures var (digits, rest) := TakeDigits(items[i + 1..]);
            && read + TakeDigits(items[i..]).0 == read + [items[i].c] + digits
            && TakeDigits(items[i..]).1 == rest
  {
    assert items[i..][1..] == items[i + 1..];
    Assoc(read, [items[i].c], TakeDigits(items[i + 1..]).0);
  }

  lemma TakeDigitsStop(items: seq<SpecItem>, i: nat, read: string)
    requires i <= |items| && !(i < |items| && items[i].Ch? && IsDecimal(items[i].c))
    ensures read + TakeDigits(items[i..]).0 == read && TakeDigits(items[i..]).1 == items[i..]
  {
    assert read + "" == read;
  }

  const DEFAULT := FormatSpec(' ', None, None, false, false, false, 0, false, false, None, None, None)

  /** Fill and align, by index. */
  method ParseAlign(items: seq<SpecItem>) returns (out: FormatSpec, i: nat, fillExplicit: bool)
    ensures i <= |items| && items[i..] == TakeAlign(items).2
    ensures fillExplicit == TakeAlign(items).0.Some?
    ensures out == DEFAULT.(fill := if fillExplicit then TakeAlign(items).0.value else ' ', align := TakeAlign(items).1)
  {
    out, i, fillExplicit := DEFAULT, 0, false;
    if |items| >= 2 && items[0].Ch? && items[1].Ch? && IsAlign(items[1].c) {
      out, i, fillExplicit := out.(fill := items[0].c, align := Some(ToAlign(items[1].c))), 2, true;
    } else if |items| >= 1 && items[0].Ch? && IsAlign(items[0].c) {
      out, i := out.(align := Some(ToAlign(items[0].c))), 1;
    }
  }

  /** One optional character of a class, by index. */
  method TakeIf(items: seq<SpecItem>, start: nat, class_: nat) returns (c: Option<char>, i: nat)
    requires start <= |items|
    ensures i <= |items| && (c, items[i..]) == TakeOne(items[start..], class_)
    ensures i == if c.Some? then start + 1 else start
  {
    c, i := None, start;
    if i < |items| && items[i].Ch? && Class(items[i]) == class_ {
      assert items[i..][1..] == items[i + 1..];
      c, i := Some(items[i].c), i + 1;
    }
  }

  /** A width, by index; None when it is too large. */
  method ParseWidth(items: seq<SpecItem>, start: nat) returns (width: Option<nat>, dyn: bool, i: nat)
    requires start <= |items|
    ensures var (n, rest) := TakeNumber(items[start..]);
            && (width.None? <==> Oversized(n))
            && i <= |items| && dyn == n.Nested?
            && (width.Some? ==> width.value == WidthValue(n) && items[i..] == rest)
  {
    if start < |items| && items[start].Field? {
      assert items[start..][1..] == items[start + 1..];
      return Some(0), true, start + 1;
    }
    dyn := false;
    width, i := ReadNumber(items, start);
  }

  /** Sign, `z`, `#` and `0`, by index. */
  method ParseFlags(items: seq<SpecItem>, start: nat) returns (sign: Option<char>, z: bool, alt: bool, zero: bool, i: nat)
    requires start <= |items|
    ensures i <= |items|
    ensures var (s, t2) := TakeOne(items[start..], 1);
            var (y, t3) := TakeOne(t2, 2);
            var (a, t4) := TakeOne(t3, 3);
            sign == s && z == y.Some? && alt == a.Some? && (zero, items[i..]) == TakeZero(t4)
  {
    var c;
    sign, i := TakeIf(items, start, 1);
    c, i := TakeIf(items, i, 2);
    z := c.Some?;
    c, i := TakeIf(items, i, 3);
    alt := c.Some?;
    zero := i < |items| && items[i] == Ch('0');
    if zero {
      assert items[i..][1..] == items[i + 1..];
      i := i + 1;
    }
  }

  method ParseNested(items: seq<SpecItem>) returns (r: Result<FormatSpec, SpecError>)
    ensures r == Parse(items)
  {
    var out, afterAlign, fillExplicit := ParseAlign(items);
    var sign, z, alt, zero, i := ParseFlags(items, afterAlign);
    var width, dyn, end := ParseWidth(items, i);
    if width.None? { return Err(TooLarge(Width)); }
    out := out.(sign := sign, zeroCoerce := z, alt := alt, zeroPad := zero,
                fill := if zero && !fillExplicit then '0' else out.fill, width := width.value, dynWidth := dyn);
    ghost var front := TakeFront(items).0;
    assert out == Denote(front);
    r := ParseTail(items, out, end, if dyn then Some(end) else None, front);
  }

  /** `.` and a precision, by index. */
  method ParsePrecision(items: seq<SpecItem>, start: nat) returns (r: Result<Option<nat>, SpecError>, dyn: bool, i: nat)
    requires start <= |items|
    ensures i <= |items| && r.Ok? == TakePrecision(items[start..]).Ok?
    ensures r.Err? ==> r.error == TakePrecision(items[start..]).error
    ensures r.Ok? ==> var (n, rest) := TakePrecision(items[start..]).value;
                      r.value == PrecisionValue(n) && dyn == n.Nested? && items[i..] == rest && (n.Absent? ==> i == start)
  {
    dyn, i := false, start;
    if !(i < |items| && items[i] == Ch('.')) { return Ok(None), dyn, i; }
    assert items[i..][1..] == items[i + 1..];
    i := i + 1;
    if i < |items| && items[i].Field? {
      assert items[i..][1..] == items[i + 1..];
      return Ok(Some(0)), true, i + 1;
    }
    var precision, end := ReadNumber(items, i);
    if precision.None? { return Err(TooLarge(Precision)), dyn, i; }
    if end == i { return Err(MissingPrecision), dyn, i; }
    return Ok(precision), dyn, end;
  }

  /** The slots after the width, by index. */
  method ParseTail(items: seq<SpecItem>, front: FormatSpec, start: nat, widthEnd: Option<nat>, ghost s: Slots)
    returns (r: Result<FormatSpec, SpecError>)
    requires start <= |items| && front == Denote(s)
    requires s.group.None? && s.precision.Absent? && s.ty.None?
    requires widthEnd == if s.width.Nested? then Some(start) else None
    ensures match TakeRest(s, items[start..])
            case Ok(whole) => r == Ok(Denote(whole))
            case Err(e) => r == Err(e)
  {
    var group, i := TakeIf(items, start, 6);
    var precision, dyn, end := ParsePrecision(items, i);
    if precision.Err? { return Err(precision.error); }
    var fieldEnd := if dyn then Some(end) else widthEnd;
    var ty, stop := TakeIf(items, end, 8);
    if stop == |items| {
      return Ok(front.(group := group, dynPrecision := dyn, precision := precision.value, ty := ty));
    }
    assert items[stop..][0] == items[stop];
    if ty.Some? { return Err(if Field in items[stop..] then NestedSlot else Trailing); }
    if items[stop].Field? || (fieldEnd == Some(stop) && IsAlign(items[stop].c)) { return Err(NestedSlot); }
    r := Err(UnknownType(items[stop].c));
  }
}
