/** Rendering under a format spec (`apply` of src/fmtspec.rs): sign, radix prefix, zero fill, digit
    grouping, alignment and width. Float digits are an arbitrary function here. */
module FormatRender {
  import opened Wrappers
  import opened Sequences
  import opened Radix
  import opened FormatParse

  /** A float, opaque. */
  datatype Float = Float(bits: int)

  /** How floats print: the minus sign and the unsigned text under a spec, and the float of an int. */
  datatype Floats = Floats(text: (FormatSpec, Float) -> (bool, string), ofInt: int -> Float)

  datatype FmtArg = Int(n: int) | Flt(x: Float) | Str(s: string) | Other(s: string)

  datatype Kind = IntKind | FloatKind | StrKind

  /** Why a nested field's value is no width or precision. */
  datatype FieldError = NotAnInt | Negative(n: int) | OverMaximum

  datatype Rejection =
    | ZeroCoerce(kind: Kind)
    | IntPrecision
    | GroupWithType(c: char)
    | FloatType(c: char)
    | StrSign(c: char)
    | StrAlt
    | StrPadAlign
    | StrZeroPad
    | StrGroup(c: char)
    | StrType(c: char)

  function KindOf(arg: FmtArg): Kind {
    match arg case Int(_) => IntKind case Flt(_) => FloatKind case Str(_) => StrKind case Other(_) => StrKind
  }

  predicate IsFloatType(ty: Option<char>) {
    ty.Some? && ty.value in {'f', 'F', 'e', 'E', '%', 'g', 'G'}
  }

  predicate IsRadixType(ty: Option<char>) {
    ty.Some? && ty.value in {'x', 'X', 'b', 'o'}
  }

  /** Why `spec` cannot apply to a scalar of this kind, if it cannot. */
  function Rejected(spec: FormatSpec, kind: Kind): Option<Rejection> {
    match kind
    case IntKind =>
      if spec.zeroCoerce && !IsFloatType(spec.ty) then Some(ZeroCoerce(kind))
      else if spec.precision.Some? && !IsFloatType(spec.ty) then Some(IntPrecision)
      else if spec.group == Some(',') && IsRadixType(spec.ty) then Some(GroupWithType(spec.ty.value))
      else None
    case FloatKind =>
      if spec.ty == Some('d') || IsRadixType(spec.ty) then Some(FloatType(spec.ty.value)) else None
    case StrKind =>
      if spec.zeroCoerce then Some(ZeroCoerce(kind))
      else if spec.sign.Some? then Some(StrSign(spec.sign.value))
      else if spec.alt then Some(StrAlt)
      else if spec.align == Some(Pad) then Some(StrPadAlign)
      else if spec.zeroPad then Some(StrZeroPad)
      else if spec.group.Some? then Some(StrGroup(spec.group.value))
      else if spec.ty.Some? then Some(StrType(spec.ty.value))
      else None
  }

  // ----- the value without padding -----

  /** The text split where zeros go: a sign and radix prefix, and the rest. */
  datatype Base = Base(prefix: string, body: string, numeric: bool)

  function SignPrefix(neg: bool, sign: Option<char>): string {
    if neg then "-" else if sign == Some('+') then "+" else if sign == Some(' ') then " " else ""
  }

  function RadixOf(ty: Option<char>): (r: nat)
    ensures 2 <= r <= 16
  {
    if ty == Some('x') || ty == Some('X') then 16 else if ty == Some('o') then 8 else if ty == Some('b') then 2 else 10
  }

  function RadixPrefix(spec: FormatSpec): string {
    if spec.alt && IsRadixType(spec.ty) then ['0', spec.ty.value] else ""
  }

  function Magnitude(n: int): nat {
    if n < 0 then -n else n
  }

  function RenderFloat(floats: Floats, spec: FormatSpec, x: Float): Result<Base, Rejection> {
    if Rejected(spec, FloatKind).Some? then Err(Rejected(spec, FloatKind).value)
    else
      var (neg, body) := floats.text(spec, x);
      Ok(Base(SignPrefix(neg, spec.sign), body, true))
  }

  function RenderInt(floats: Floats, spec: FormatSpec, n: int): Result<Base, Rejection> {
    if Rejected(spec, IntKind).Some? then Err(Rejected(spec, IntKind).value)
    else if IsFloatType(spec.ty) then RenderFloat(floats, spec, floats.ofInt(n))
    else
      var body := ToRadix(Magnitude(n), RadixOf(spec.ty), spec.ty == Some('X'));
      Ok(Base(SignPrefix(n < 0, spec.sign) + RadixPrefix(spec), body, true))
  }

  function RenderStr(spec: FormatSpec, s: string): Result<Base, Rejection> {
    if Rejected(spec, StrKind).Some? then Err(Rejected(spec, StrKind).value)
    else
      var body := if spec.precision.Some? && spec.precision.value < |s| then s[..spec.precision.value] else s;
      Ok(Base("", body, false))
  }

  function RenderBase(floats: Floats, spec: FormatSpec, arg: FmtArg): Result<Base, Rejection> {
    match arg
    case Int(n) => RenderInt(floats, spec, n)
    case Flt(x) => RenderFloat(floats, spec, x)
    case Str(s) => RenderStr(spec, s)
    case Other(s) => RenderStr(spec, s)
  }

  // ----- digit grouping -----

  function GroupSize(ty: Option<char>): Size {
    if IsRadixType(ty) then 4 else 3
  }

  predicate IsGrouped(ty: Option<char>, c: char) {
    if ty == Some('x') || ty == Some('X') then IsHex(c) else IsDecimal(c)
  }

  /** How many characters of `body`, from the front, are digits. */
  function DigitEnd(ty: Option<char>, body: string): (n: nat)
    ensures n <= |body|
  {
    if body != "" && IsGrouped(ty, body[0]) then 1 + DigitEnd(ty, body[1..]) else 0
  }

  /** Digits are grouped in threes or in fours. */
  type Size = n: nat | n == 3 || n == 4 witness 3

  /** `n / size`, as a division by a constant. */
  function Whole(n: nat, size: Size): nat {
    if size == 3 then n / 3 else n / 4
  }

  predicate IsMultiple(n: nat, size: Size) {
    if size == 3 then n % 3 == 0 else n % 4 == 0
  }

  /** The length of `n` digits with their separators. */
  function Spread(n: nat, size: Size): nat {
    if n == 0 then 0 else n + Whole(n - 1, size)
  }

  /** `digits` with `sep` after every digit that has a positive multiple of `size` digits after it. */
  function Grouped(digits: string, sep: char, size: Size): string {
    if |digits| <= 1 then digits
    else
      [digits[0]] + (if IsMultiple(|digits| - 1, size) then [sep] else []) + Grouped(digits[1..], sep, size)
  }

  /** The fewest digits, at least `count`, that spread over `target` characters. */
  function Wanted(count: nat, target: int, size: Size): (w: nat)
    ensures w >= count && Spread(w, size) >= target
    ensures w == count || Spread(w - 1, size) < target
    decreases target - Spread(count, size)
  {
    if Spread(count, size) < target then
      assert Spread(count + 1, size) > Spread(count, size) by { SpreadGrows(count, size); }
      Wanted(count + 1, target, size)
    else count
  }

  lemma SpreadGrows(n: nat, size: Size)
    ensures Spread(n, size) < Spread(n + 1, size) <= Spread(n, size) + 2
  {
  }

  predicate ZeroFills(spec: FormatSpec, numeric: bool) {
    numeric && ((spec.zeroPad && spec.align.None?) || (spec.align == Some(Pad) && spec.fill == '0'))
  }

  /** How many digits a grouped body shows: those of the value, or enough to fill the width. */
  function WantedDigits(spec: FormatSpec, base: Base, zeroFill: bool): (want: nat)
    ensures want >= DigitEnd(spec.ty, base.body)
  {
    var end := DigitEnd(spec.ty, base.body);
    if zeroFill then Wanted(end, spec.width - |base.prefix| - (|base.body| - end), GroupSize(spec.ty)) else end
  }

  /** The digits of the body grouped, and zero-filled to the width first where the spec asks. */
  function GroupedBody(spec: FormatSpec, base: Base, zeroFill: bool): string {
    var end := DigitEnd(spec.ty, base.body);
    if spec.group.None? || end == 0 then base.body
    else
      Grouped(Repeat('0', WantedDigits(spec, base, zeroFill) - end) + base.body[..end], spec.group.value, GroupSize(spec.ty))
      + base.body[end..]
  }

  // ----- padding -----

  function Layout(spec: FormatSpec, prefix: string, body: string, numeric: bool): string {
    var full := prefix + body;
    if |full| >= spec.width then full
    else
      var pad := spec.width - |full|;
      if spec.zeroPad && numeric && spec.align.None? then prefix + Repeat('0', pad) + body
      else
        match (if spec.align.Some? then spec.align.value else if numeric then Right else Left)
        case Left => full + Repeat(spec.fill, pad)
        case Right => Repeat(spec.fill, pad) + full
        case Center => Repeat(spec.fill, pad / 2) + full + Repeat(spec.fill, pad - pad / 2)
        case Pad => prefix + Repeat(spec.fill, pad) + body
  }

  function Render(floats: Floats, spec: FormatSpec, arg: FmtArg): Result<string, Rejection> {
    match RenderBase(floats, spec, arg)
    case Err(e) => Err(e)
    case Ok(base) =>
      Ok(Layout(spec, base.prefix, GroupedBody(spec, base, ZeroFills(spec, base.numeric)), base.numeric))
  }

  // ----- when it fails -----

  /** Rendering fails exactly when the spec check rejects the argument's kind, with its reason. */
  lemma FailsExactlyWhenRejected(floats: Floats, spec: FormatSpec, arg: FmtArg)
    ensures Render(floats, spec, arg).Err? <==> Rejected(spec, KindOf(arg)).Some?
    ensures Render(floats, spec, arg).Err? ==> Render(floats, spec, arg).error == Rejected(spec, KindOf(arg)).value
  {
  }

  /** A nested field's value; a literal has the same cap. */
  function FieldFromInt(n: Option<int>): (r: Result<nat, FieldError>)
    ensures r.Ok? <==> n.Some? && 0 <= n.value <= MAX_FIELD
    ensures r.Ok? ==> r.value == n.value
    ensures r == Err(NotAnInt) <==> n.None?
    ensures r.Err? && r.error.Negative? <==> n.Some? && n.value < 0
  {
    if n.None? then Err(NotAnInt)
    else if n.value < 0 then Err(Negative(n.value))
    else if n.value > MAX_FIELD then Err(OverMaximum)
    else Ok(n.value)
  }

  /** What the check rejects, by kind of value. */
  lemma RejectedExactly(spec: FormatSpec)
    ensures var float := spec.ty in {Some('f'), Some('F'), Some('e'), Some('E'), Some('%'), Some('g'), Some('G')};
            var radix := spec.ty in {Some('x'), Some('X'), Some('b'), Some('o')};
            && (Rejected(spec, IntKind).Some? <==>
                  (spec.zeroCoerce && !float) || (spec.precision.Some? && !float) || (spec.group == Some(',') && radix))
            && (Rejected(spec, FloatKind).Some? <==> spec.ty == Some('d') || radix)
            && (Rejected(spec, StrKind).Some? <==>
                  spec.zeroCoerce || spec.sign.Some? || spec.alt || spec.align == Some(Pad) || spec.zeroPad
                  || spec.group.Some? || spec.ty.Some?)
  {
  }

  /** Which reason is given when several hold: the first in this order. */
  lemma RejectedFirst(spec: FormatSpec)
    ensures Rejected(spec, IntKind) == Some(IntPrecision) ==> !spec.zeroCoerce && spec.precision.Some?
    ensures Rejected(spec, IntKind) == Some(ZeroCoerce(IntKind)) ==> spec.zeroCoerce
    ensures forall c :: Rejected(spec, IntKind) == Some(GroupWithType(c)) ==>
              !spec.zeroCoerce && spec.precision.None? && spec.group == Some(',') && spec.ty == Some(c)
    ensures forall c :: Rejected(spec, FloatKind) == Some(FloatType(c)) ==> spec.ty == Some(c)
    ensures Rejected(spec, StrKind) == Some(ZeroCoerce(StrKind)) <==> spec.zeroCoerce
    ensures forall c :: Rejected(spec, StrKind) == Some(StrSign(c)) <==> !spec.zeroCoerce && spec.sign == Some(c)
    ensures Rejected(spec, StrKind) == Some(StrAlt) <==> !spec.zeroCoerce && spec.sign.None? && spec.alt
    ensures Rejected(spec, StrKind) == Some(StrPadAlign) <==>
              !spec.zeroCoerce && spec.sign.None? && !spec.alt && spec.align == Some(Pad)
    ensures Rejected(spec, StrKind) == Some(StrZeroPad) <==>
              !spec.zeroCoerce && spec.sign.None? && !spec.alt && spec.align != Some(Pad) && spec.zeroPad
    ensures forall c :: Rejected(spec, StrKind) == Some(StrGroup(c)) <==>
              !spec.zeroCoerce && spec.sign.None? && !spec.alt && spec.align != Some(Pad) && !spec.zeroPad && spec.group == Some(c)
    ensures forall c :: Rejected(spec, StrKind) == Some(StrType(c)) ==> spec.group.None? && spec.ty == Some(c)
  {
  }

  /** A value that is neither an int nor a float is laid out as its text. */
  lemma OtherIsText(floats: Floats, spec: FormatSpec, s: string, n: int, x: Float)
    ensures Render(floats, spec, Other(s)) == Render(floats, spec, Str(s))
    ensures Rejected(spec, KindOf(Other(s))) == Rejected(spec, KindOf(Str(s))) == Rejected(spec, StrKind)
    ensures KindOf(Int(n)) == IntKind && KindOf(Flt(x)) == FloatKind
  {
  }

  /** An int under a float type is rendered as the float it converts to, and a float's text goes behind its
      sign, whatever its digits are. */
  lemma FloatIsPrefixed(floats: Floats, spec: FormatSpec, n: int, x: Float)
    ensures IsFloatType(spec.ty) && Rejected(spec, IntKind).None? ==>
              Render(floats, spec, Int(n)) == Render(floats, spec, Flt(floats.ofInt(n)))
    ensures Rejected(spec, FloatKind).None? ==>
              var (neg, body) := floats.text(spec, x);
              RenderBase(floats, spec, Flt(x)) ==
              Ok(Base(if neg then "-" else if spec.sign == Some('+') then "+" else if spec.sign == Some(' ') then " " else "", body, true))
  {
  }

  /** Every type a parsed spec can have, once accepted, has its own arm: an int renders in a radix or as
      a float, a float renders under a float type or none, and an int type that promotes to a float is
      accepted there. */
  lemma ArmsAreCovered(items: seq<SpecItem>)
    requires Parse(items).Ok?
    ensures var spec := Parse(items).value;
            && (Rejected(spec, IntKind).None? ==>
                  spec.ty.None? || spec.ty == Some('d') || IsRadixType(spec.ty) || IsFloatType(spec.ty))
            && (Rejected(spec, FloatKind).None? <==> spec.ty.None? || IsFloatType(spec.ty))
  {
    ParsedIsSpec(items);
  }

  /** Filling in the nested fields of a parsed spec never changes the verdict on it. */
  lemma FillingKeepsVerdict(items: seq<SpecItem>, width: nat, precision: nat, kind: Kind)
    requires Parse(items).Ok?
    ensures var spec := Parse(items).value;
            var filled := spec.(width := if spec.dynWidth then width else spec.width,
                                precision := if spec.dynPrecision then Some(precision) else spec.precision);
            Rejected(filled, kind) == Rejected(spec, kind)
  {
    ParsedIsSpec(items);
  }

  /** Which characters are grouped: the leading run of digits, hex ones under a hex type. */
  lemma {:induction false} DigitRunIs(ty: Option<char>, body: string)
    ensures var end := DigitEnd(ty, body);
            && (forall i :: 0 <= i < end ==>
                  '0' <= body[i] <= '9' || (ty in {Some('x'), Some('X')} && ('a' <= body[i] <= 'f' || 'A' <= body[i] <= 'F')))
            && (end < |body| ==>
                  !('0' <= body[end] <= '9')
                  && (ty in {Some('x'), Some('X')} ==> !('a' <= body[end] <= 'f' || 'A' <= body[end] <= 'F')))
  {
    if body != "" { DigitRunIs(ty, body[1..]); }
  }

  /** Without zero fill the digits of any number are grouped as they are, and the rest of its text kept. */
  lemma GroupedBodyIs(spec: FormatSpec, base: Base)
    ensures spec.group.None? ==> GroupedBody(spec, base, false) == base.body
    ensures spec.group.Some? ==>
              var end := DigitEnd(spec.ty, base.body);
              var size: Size := if spec.ty in {Some('b'), Some('o'), Some('x'), Some('X')} then 4 else 3;
              GroupedBody(spec, base, false) == Grouped(base.body[..end], spec.group.value, size) + base.body[end..]
  {
    var end := DigitEnd(spec.ty, base.body);
    assert Repeat('0', 0) + base.body[..end] == base.body[..end];
    if end == 0 { assert base.body[..0] == "" && "" + base.body[0..] == base.body; }
  }

  /** When zeros fill the width: under the bare `0` flag, or an `=` alignment whose fill is a zero. */
  lemma ZeroFillsWhen(spec: FormatSpec)
    ensures !ZeroFills(spec, false)
    ensures ZeroFills(spec, true) <==>
            (spec.align == None && spec.zeroPad) || (spec.align == Some(Pad) && spec.fill == '0')
  {
  }

  // ----- how long the text is -----

  lemma {:induction false} GroupedLength(digits: string, sep: char, size: Size)
    ensures |Grouped(digits, sep, size)| == Spread(|digits|, size)
  {
    if |digits| > 1 { GroupedLength(digits[1..], sep, size); }
  }

  ghost function NaturalLength(spec: FormatSpec, base: Base): nat {
    |base.prefix| + |GroupedBody(spec, base, false)|
  }

  lemma LayoutLength(spec: FormatSpec, prefix: string, body: string, numeric: bool)
    ensures |Layout(spec, prefix, body, numeric)| == if |prefix| + |body| >= spec.width then |prefix| + |body| else spec.width
  {
  }

  // ----- where the fill goes -----

  /** How `left`, `mid` and `right` fill characters share the padding before the prefix, before the body
      and after it. A centred text has the odd one on the right; a number without alignment goes right,
      or after its prefix under the `0` flag; anything else goes left. */
  ghost predicate Shared(spec: FormatSpec, numeric: bool, left: nat, mid: nat, right: nat) {
    && (spec.align == Some(Left) || (spec.align.None? && !numeric) ==> left == 0 && mid == 0)
    && (spec.align == Some(Right) || (spec.align.None? && numeric && !spec.zeroPad) ==> mid == 0 && right == 0)
    && (spec.align == Some(Center) ==> mid == 0 && left <= right <= left + 1)
    && (spec.align == Some(Pad) || (spec.align.None? && numeric && spec.zeroPad) ==> left == 0 && right == 0)
  }

  ghost function Spaced(fill: char, left: nat, prefix: string, mid: nat, body: string, right: nat): string {
    Repeat(fill, left) + (prefix + (Repeat(fill, mid) + (body + Repeat(fill, right))))
  }

  lemma SpacedAround(fill: char, left: nat, prefix: string, body: string, right: nat)
    ensures Spaced(fill, left, prefix, 0, body, right) == Repeat(fill, left) + (prefix + body) + Repeat(fill, right)
    ensures left == 0 ==> Spaced(fill, left, prefix, 0, body, right) == prefix + body + Repeat(fill, right)
    ensures right == 0 ==> Spaced(fill, left, prefix, 0, body, right) == Repeat(fill, left) + (prefix + body)
    ensures left == 0 && right == 0 ==> Spaced(fill, left, prefix, 0, body, right) == prefix + body
  {
    assert Repeat(fill, 0) == "";
  }

  lemma SpacedInside(fill: char, prefix: string, mid: nat, body: string)
    ensures Spaced(fill, 0, prefix, mid, body, 0) == prefix + Repeat(fill, mid) + body
  {
    assert Repeat(fill, 0) == "";
  }

  lemma LayoutIsShared(spec: FormatSpec, prefix: string, body: string, numeric: bool) returns (left: nat, mid: nat, right: nat)
    ensures Shared(spec, numeric, left, mid, right)
    ensures var fill := if spec.zeroPad && numeric && spec.align.None? then '0' else spec.fill;
            Layout(spec, prefix, body, numeric) == Spaced(fill, left, prefix, mid, body, right)
  {
    var fill := if spec.zeroPad && numeric && spec.align.None? then '0' else spec.fill;
    if |prefix| + |body| >= spec.width {
      SpacedAround(fill, 0, prefix, body, 0);
      return 0, 0, 0;
    }
    var pad := spec.width - |prefix| - |body|;
    if spec.align == Some(Left) || (spec.align.None? && !numeric) {
      SpacedAround(fill, 0, prefix, body, pad);
      return 0, 0, pad;
    }
    if spec.align == Some(Center) {
      SpacedAround(fill, pad / 2, prefix, body, pad - pad / 2);
      return pad / 2, 0, pad - pad / 2;
    }
    if spec.align == Some(Pad) || (spec.zeroPad && spec.align.None?) {
      SpacedInside(fill, prefix, pad, body);
      return 0, pad, 0;
    }
    SpacedAround(fill, pad, prefix, body, 0);
    return pad, 0, 0;
  }

  /** A string is shown from its start, cut at the precision, with the fill around it as the alignment
      says, and fill only as far as the width asks. */
  lemma StrIsPlaced(floats: Floats, spec: FormatSpec, s: string) returns (left: nat, right: nat)
    requires Rejected(spec, StrKind).None?
    ensures var shown := if spec.precision.Some? && spec.precision.value < |s| then s[..spec.precision.value] else s;
            && Render(floats, spec, Str(s)) == Ok(Repeat(spec.fill, left) + (shown + Repeat(spec.fill, right)))
            && left + |shown| + right == (if |shown| >= spec.width then |shown| else spec.width)
    ensures Shared(spec, false, left, 0, right)
  {
    var base := RenderStr(spec, s).value;
    var l, m, r := LayoutIsShared(spec, "", base.body, false);
    left, right := l, r;
    LayoutLength(spec, "", base.body, false);
    assert m == 0;
    assert Spaced(spec.fill, l, "", 0, base.body, r) == Repeat(spec.fill, l) + (base.body + Repeat(spec.fill, r));
  }

  /** Zero-filling grouped digits reaches the width, and passes it by at most one. */
  lemma ZeroFilledGroupLength(spec: FormatSpec, base: Base)
    requires spec.group.Some? && DigitEnd(spec.ty, base.body) > 0
    ensures var length := |base.prefix| + |GroupedBody(spec, base, true)|;
            if NaturalLength(spec, base) >= spec.width then length == NaturalLength(spec, base)
            else spec.width <= length <= spec.width + 1
  {
    var want := WantedDigits(spec, base, true);
    GroupedBodyLength(spec, base, false);
    GroupedBodyLength(spec, base, true);
    if want > DigitEnd(spec.ty, base.body) { SpreadGrows(want - 1, GroupSize(spec.ty)); }
  }

  lemma GroupedBodyLength(spec: FormatSpec, base: Base, zeroFill: bool)
    requires spec.group.Some? && DigitEnd(spec.ty, base.body) > 0
    ensures |GroupedBody(spec, base, zeroFill)| ==
            Spread(WantedDigits(spec, base, zeroFill), GroupSize(spec.ty)) + |base.body| - DigitEnd(spec.ty, base.body)
  {
    var end := DigitEnd(spec.ty, base.body);
    GroupedLength(Repeat('0', WantedDigits(spec, base, zeroFill) - end) + base.body[..end], spec.group.value, GroupSize(spec.ty));
  }

  /** The text is as long as the width or the value, whichever is longer; only zero fill with
      grouping may pass the width, by one. */
  lemma RenderedLength(floats: Floats, spec: FormatSpec, arg: FmtArg)
    requires RenderBase(floats, spec, arg).Ok?
    ensures var base := RenderBase(floats, spec, arg).value;
            var n := |Render(floats, spec, arg).value|;
            var exact := if NaturalLength(spec, base) >= spec.width then NaturalLength(spec, base) else spec.width;
            if ZeroFills(spec, base.numeric) && spec.group.Some? && DigitEnd(spec.ty, base.body) > 0
            then exact <= n <= exact + 1 && (NaturalLength(spec, base) >= spec.width ==> n == exact)
            else n == exact
  {
    var base := RenderBase(floats, spec, arg).value;
    var zeroFill := ZeroFills(spec, base.numeric);
    LayoutLength(spec, base.prefix, GroupedBody(spec, base, zeroFill), base.numeric);
    if zeroFill && spec.group.Some? && DigitEnd(spec.ty, base.body) > 0 { ZeroFilledGroupLength(spec, base); }
  }

  // ----- where the separators are -----

  /** Which digit, from the right, position `j` from the right shows. */
  function DigitIndex(j: nat, size: Size): nat {
    j - if size == 3 then j / 4 else j / 5
  }

  predicate IsSeparator(j: nat, size: Size) {
    if size == 3 then j % 4 == 3 else j % 5 == 4
  }

  lemma Remainders(q: nat, r: nat)
    ensures r < 3 ==> (3 * q + r) / 3 == q && (3 * q + r) % 3 == r
    ensures r < 4 ==> (4 * q + r) / 4 == q && (4 * q + r) % 4 == r
    ensures r < 5 ==> (5 * q + r) / 5 == q && (5 * q + r) % 5 == r
  {
  }

  lemma NextOfThree(m: nat)
    requires m > 0
    ensures var at := Spread(m, 3);
            if m % 3 == 0 then at % 4 == 3 && (at + 1) % 4 == 0 && at + 1 == m + (at + 1) / 4
            else at % 4 != 3 && at == m + at / 4
  {
    var q, r := (m - 1) / 3, (m - 1) % 3;
    var at := Spread(m, 3);
    assert at == 4 * q + (r + 1) && m == 3 * q + (r + 1);
    if r == 2 {
      Remainders(q, 3);
      Remainders(q + 1, 0);
      assert m == 3 * (q + 1) && at + 1 == 4 * (q + 1);
    } else {
      Remainders(q, r + 1);
    }
  }

  lemma NextOfFour(m: nat)
    requires m > 0
    ensures var at := Spread(m, 4);
            if m % 4 == 0 then at % 5 == 4 && (at + 1) % 5 == 0 && at + 1 == m + (at + 1) / 5
            else at % 5 != 4 && at == m + at / 5
  {
    var q, r := (m - 1) / 4, (m - 1) % 4;
    var at := Spread(m, 4);
    assert at == 5 * q + (r + 1) && m == 4 * q + (r + 1);
    if r == 3 {
      Remainders(q, 4);
      Remainders(q + 1, 0);
      assert m == 4 * (q + 1) && at + 1 == 5 * (q + 1);
    } else {
      Remainders(q, r + 1);
    }
  }

  /** Where the text of one more digit continues the text of `m` digits. */
  lemma NextPosition(m: nat, size: Size)
    requires m > 0
    ensures var at := Spread(m, size);
            if IsMultiple(m, size) then IsSeparator(at, size) && !IsSeparator(at + 1, size) && DigitIndex(at + 1, size) == m
            else !IsSeparator(at, size) && DigitIndex(at, size) == m
  {
    if size == 3 { NextOfThree(m); } else { NextOfFour(m); }
  }

  lemma FromRight<T>(a: seq<T>, b: seq<T>, j: nat)
    requires j < |a + b|
    ensures (a + b)[|a + b| - 1 - j] == if j < |b| then b[|b| - 1 - j] else a[|a| - 1 - (j - |b|)]
  {
  }

  /** What position `j` from the right of the grouped digits holds. */
  ghost predicate ShowsAt(digits: string, sep: char, size: Size, g: string, j: nat)
    requires j < |g|
  {
    if IsSeparator(j, size) then g[|g| - 1 - j] == sep
    else DigitIndex(j, size) < |digits| && g[|g| - 1 - j] == digits[|digits| - 1 - DigitIndex(j, size)]
  }

  lemma HeadShows(digits: string, sep: char, size: Size, rest: string, j: nat)
    requires |digits| > 1 && |rest| == Spread(|digits| - 1, size)
    requires |rest| <= j <= |rest| + if IsMultiple(|digits| - 1, size) then 1 else 0
    ensures var g := [digits[0]] + (if IsMultiple(|digits| - 1, size) then [sep] else []) + rest;
            ShowsAt(digits, sep, size, g, j)
  {
    NextPosition(|digits| - 1, size);
  }

  lemma RestShows(digits: string, sep: char, size: Size, head: string, rest: string, j: nat)
    requires |digits| > 1 && j < |rest| && ShowsAt(digits[1..], sep, size, rest, j)
    ensures ShowsAt(digits, sep, size, head + rest, j)
  {
    FromRight(head, rest, j);
  }

  /** Counting from the right, every position one past a full group holds the separator and every
      other position the next digit. */
  lemma {:induction false} GroupedAt(digits: string, sep: char, size: Size, j: nat)
    requires j < Spread(|digits|, size)
    ensures |Grouped(digits, sep, size)| == Spread(|digits|, size)
    ensures ShowsAt(digits, sep, size, Grouped(digits, sep, size), j)
  {
    GroupedLength(digits, sep, size);
    if |digits| > 1 {
      var head := [digits[0]] + if IsMultiple(|digits| - 1, size) then [sep] else [];
      var rest := Grouped(digits[1..], sep, size);
      GroupedLength(digits[1..], sep, size);
      if j < |rest| {
        GroupedAt(digits[1..], sep, size, j);
        RestShows(digits, sep, size, head, rest, j);
      } else {
        HeadShows(digits, sep, size, rest, j);
      }
    }
  }

  lemma GroupedEnds(digits: string, sep: char, size: Size)
    requires digits != ""
    ensures Grouped(digits, sep, size) != "" && Grouped(digits, sep, size)[0] == digits[0]
  {
  }

  // ----- reading a number back -----

  function StripChar(s: string, sep: char): string {
    if s == "" then "" else (if s[0] == sep then "" else [s[0]]) + StripChar(s[1..], sep)
  }

  function StripSeparators(s: string, group: Option<char>): string {
    if group.Some? then StripChar(s, group.value) else s
  }

  /** The number a rendered int shows: its sign, then its digits without prefix and separators. */
  function ReadInt(spec: FormatSpec, text: string): int {
    var neg := text != "" && text[0] == '-';
    var unsigned := if text != "" && IsSign(text[0]) then text[1..] else text;
    var digits := if |RadixPrefix(spec)| <= |unsigned| then unsigned[|RadixPrefix(spec)|..] else "";
    var m: int := FromRadix(StripSeparators(digits, spec.group), RadixOf(spec.ty));
    if neg then -m else m
  }

  lemma {:induction false} StripGrouped(digits: string, sep: char, size: Size)
    requires sep !in digits
    ensures StripChar(Grouped(digits, sep, size), sep) == digits
  {
    if |digits| == 0 {
    } else if |digits| == 1 {
      StripHead(digits[0], "", sep);
      assert [digits[0]] + "" == digits;
    } else {
      var rest := Grouped(digits[1..], sep, size);
      StripGrouped(digits[1..], sep, size);
      if IsMultiple(|digits| - 1, size) {
        StripHead(sep, rest, sep);
        StripHead(digits[0], [sep] + rest, sep);
        Assoc([digits[0]], [sep], rest);
      } else {
        StripHead(digits[0], rest, sep);
        assert [digits[0]] + [] + rest == [digits[0]] + rest;
      }
      assert [digits[0]] + digits[1..] == digits;
    }
  }

  lemma StripHead(c: char, rest: string, sep: char)
    ensures StripChar([c] + rest, sep) == (if c == sep then "" else [c]) + StripChar(rest, sep)
  {
    assert ([c] + rest)[1..] == rest;
  }

  lemma {:induction false} AllAreDigits(ty: Option<char>, body: string)
    requires forall c :: c in body ==> IsGrouped(ty, c)
    ensures DigitEnd(ty, body) == |body|
  {
    if body != "" {
      assert body[0] in body;
      assert forall c :: c in body[1..] ==> c in body;
      AllAreDigits(ty, body[1..]);
    }
  }

  ghost function IntBody(spec: FormatSpec, n: int): string {
    ToRadix(Magnitude(n), RadixOf(spec.ty), spec.ty == Some('X'))
  }

  lemma IntBodyIsDigits(spec: FormatSpec, n: int)
    ensures forall c :: c in IntBody(spec, n) ==> IsGrouped(spec.ty, c) && IsHex(c)
    ensures IntBody(spec, n) != "" && DigitEnd(spec.ty, IntBody(spec, n)) == |IntBody(spec, n)|
  {
    RadixIsDigits(Magnitude(n), RadixOf(spec.ty), spec.ty == Some('X'));
    AllAreDigits(spec.ty, IntBody(spec, n));
  }

  /** What the padding of an int may be for it to be read back: none, or zeros. */
  ghost predicate Readable(spec: FormatSpec, base: Base) {
    ZeroFills(spec, true) || spec.width <= NaturalLength(spec, base)
  }

  /** Without separators, the text after the prefix is the digits behind some zeros. */
  lemma PlainIntText(spec: FormatSpec, base: Base) returns (zeros: nat)
    requires spec.group.None? && base.numeric && Readable(spec, base)
    ensures Layout(spec, base.prefix, base.body, true) == base.prefix + (Repeat('0', zeros) + base.body)
  {
    zeros := if |base.prefix + base.body| >= spec.width then 0 else spec.width - |base.prefix + base.body|;
    Assoc(base.prefix, Repeat('0', zeros), base.body);
    assert zeros == 0 ==> Repeat('0', zeros) + base.body == base.body;
  }

  /** With separators, the zeros are grouped with the digits. */
  lemma GroupedIntText(spec: FormatSpec, base: Base) returns (zeros: nat)
    requires spec.group.Some? && base.numeric && Readable(spec, base)
    requires base.body != "" && DigitEnd(spec.ty, base.body) == |base.body|
    ensures Layout(spec, base.prefix, GroupedBody(spec, base, ZeroFills(spec, true)), true) ==
            base.prefix + Grouped(Repeat('0', zeros) + base.body, spec.group.value, GroupSize(spec.ty))
  {
    zeros := WantedDigits(spec, base, ZeroFills(spec, true)) - |base.body|;
    AllDigitsGrouped(spec, base, ZeroFills(spec, true));
    if ZeroFills(spec, true) { ZeroFilledGroupLength(spec, base); }
  }

  lemma AllDigitsGrouped(spec: FormatSpec, base: Base, zeroFill: bool)
    requires spec.group.Some? && base.body != "" && DigitEnd(spec.ty, base.body) == |base.body|
    ensures var zeros := WantedDigits(spec, base, zeroFill) - |base.body|;
            GroupedBody(spec, base, zeroFill) == Grouped(Repeat('0', zeros) + base.body, spec.group.value, GroupSize(spec.ty))
  {
    var end := |base.body|;
    assert base.body[..end] == base.body && base.body[end..] == "";
    var text := Grouped(Repeat('0', WantedDigits(spec, base, zeroFill) - end) + base.body, spec.group.value, GroupSize(spec.ty));
    assert text + "" == text;
  }

  lemma ReadPrefixed(spec: FormatSpec, neg: bool, text: string)
    requires text != "" && !IsSign(text[0]) && text[0] != '-'
    ensures ReadInt(spec, SignPrefix(neg, spec.sign) + RadixPrefix(spec) + text) ==
            (var m: int := FromRadix(StripSeparators(text, spec.group), RadixOf(spec.ty)); if neg then -m else m)
  {
    var sign, radix := SignPrefix(neg, spec.sign), RadixPrefix(spec);
    var t := sign + radix + text;
    Assoc(sign, radix, text);
    assert sign == "" ==> t == radix + text;
    assert sign != "" ==> t[0] == sign[0] && t[1..] == radix + text;
    assert (radix + text)[|radix|..] == text;
    assert radix == "" ==> radix + text == text;
    assert radix != "" ==> (radix + text)[0] == '0';
  }

  /** Every int rendered under a spec the check accepts, without padding or with zero fill, reads
      back as itself: sign, prefix, zeros and separators change nothing. */
  lemma IntReadsBack(floats: Floats, spec: FormatSpec, n: int)
    requires !IsFloatType(spec.ty) && Rejected(spec, IntKind).None?
    requires spec.group.Some? ==> IsGroup(spec.group.value)
    requires Readable(spec, RenderInt(floats, spec, n).value)
    ensures ReadInt(spec, Render(floats, spec, Int(n)).value) == n
  {
    var base := RenderInt(floats, spec, n).value;
    IntBodyIsDigits(spec, n);
    RadixRoundTrip(Magnitude(n), RadixOf(spec.ty), spec.ty == Some('X'));
    if spec.group.None? {
      var zeros := PlainIntText(spec, base);
      PlainReadsBack(spec, n < 0, zeros, base.body);
    } else {
      var zeros := GroupedIntText(spec, base);
      GroupedReadsBack(spec, n < 0, zeros, base.body);
    }
  }

  /** The value of int digits written under a type. */
  ghost predicate DigitsOf(ty: Option<char>, digits: string, m: nat) {
    && (ty == Some('b') ==> FromRadix(digits, 2) == m && forall c :: c in digits ==> '0' <= c <= '1')
    && (ty == Some('o') ==> FromRadix(digits, 8) == m && forall c :: c in digits ==> '0' <= c <= '7')
    && (ty == Some('x') ==> FromRadix(digits, 16) == m && forall c :: c in digits ==> '0' <= c <= '9' || 'a' <= c <= 'f')
    && (ty == Some('X') ==> FromRadix(digits, 16) == m && forall c :: c in digits ==> '0' <= c <= '9' || 'A' <= c <= 'F')
    && (ty == Some('d') || ty == None ==> FromRadix(digits, 10) == m && forall c :: c in digits ==> '0' <= c <= '9')
  }

  lemma IntDigits(spec: FormatSpec, n: int, zeros: nat)
    ensures DigitsOf(spec.ty, Repeat('0', zeros) + IntBody(spec, n), Magnitude(n))
    ensures IntBody(spec, n) != "" && (n == 0 ==> IntBody(spec, n) == ['0']) && (n != 0 ==> IntBody(spec, n)[0] != '0')
  {
    var radix, upper := RadixOf(spec.ty), spec.ty == Some('X');
    RadixRoundTrip(Magnitude(n), radix, upper);
    RadixDigitsAreBelow(Magnitude(n), radix, upper);
    RadixIsCanonical(Magnitude(n), radix, upper);
    ZerosAreFree(zeros, IntBody(spec, n), radix);
  }

  /** What is written before the digits. */
  ghost predicate IsPrefix(spec: FormatSpec, n: int, sign: string, radix: string) {
    && sign == (if n < 0 then "-" else if spec.sign == Some('+') then "+" else if spec.sign == Some(' ') then " " else "")
    && radix == (if !spec.alt then ""
                 else if spec.ty == Some('b') then "0b" else if spec.ty == Some('o') then "0o"
                 else if spec.ty == Some('x') then "0x" else if spec.ty == Some('X') then "0X" else "")
  }

  /** The text of every int under every accepted int spec, unpadded or zero-filled: the sign, the radix
      prefix, and the digits behind some zeros, grouped in fours under a radix type and in threes
      otherwise. The digits are those of the type's radix, without a leading zero of their own. */
  lemma IntTextIs(floats: Floats, spec: FormatSpec, n: int)
    returns (sign: string, radix: string, zeros: nat, digits: string)
    requires !IsFloatType(spec.ty) && Rejected(spec, IntKind).None?
    requires Readable(spec, RenderInt(floats, spec, n).value)
    ensures IsPrefix(spec, n, sign, radix) && DigitsOf(spec.ty, Repeat('0', zeros) + digits, if n < 0 then -n else n)
    ensures digits != "" && (n == 0 ==> digits == ['0']) && (n != 0 ==> digits[0] != '0')
    ensures var all := Repeat('0', zeros) + digits;
            var size: Size := if spec.ty in {Some('b'), Some('o'), Some('x'), Some('X')} then 4 else 3;
            Render(floats, spec, Int(n)) ==
            Ok(sign + radix + if spec.group.None? then all else Grouped(all, spec.group.value, size))
  {
    var base := RenderInt(floats, spec, n).value;
    sign, radix, digits := SignPrefix(n < 0, spec.sign), RadixPrefix(spec), IntBody(spec, n);
    IntBodyIsDigits(spec, n);
    if spec.group.None? { zeros := PlainIntText(spec, base); } else { zeros := GroupedIntText(spec, base); }
    IntDigits(spec, n, zeros);
  }

  /** In the text of every int with grouping, unpadded or zero-filled, the separators stand exactly after
      every third (or fourth) digit from the right, and the first character after the prefix is a digit. */
  lemma IntSeparators(floats: Floats, spec: FormatSpec, n: int) returns (digits: string)
    requires !IsFloatType(spec.ty) && Rejected(spec, IntKind).None? && spec.group.Some?
    requires Readable(spec, RenderInt(floats, spec, n).value)
    ensures var base := RenderInt(floats, spec, n).value;
            var text := Render(floats, spec, Int(n)).value;
            && |digits| >= |base.body| > 0 && digits[|digits| - |base.body|..] == base.body
            && (forall i :: 0 <= i < |digits| - |base.body| ==> digits[i] == '0')
            && base.prefix <= text && |text| == |base.prefix| + Spread(|digits|, GroupSize(spec.ty))
            && text[|base.prefix|] == digits[0]
            && forall j :: 0 <= j < Spread(|digits|, GroupSize(spec.ty)) ==>
                 ShowsAt(digits, spec.group.value, GroupSize(spec.ty), text, j)
  {
    var base := RenderInt(floats, spec, n).value;
    IntBodyIsDigits(spec, n);
    var zeros := GroupedIntText(spec, base);
    digits := Repeat('0', zeros) + base.body;
    SeparatorsBehind(base.prefix, digits, spec.group.value, GroupSize(spec.ty));
  }

  lemma SeparatorsBehind(prefix: string, digits: string, sep: char, size: Size)
    requires digits != ""
    ensures var text := prefix + Grouped(digits, sep, size);
            && prefix <= text && |text| == |prefix| + Spread(|digits|, size) && text[|prefix|] == digits[0]
            && forall j :: 0 <= j < Spread(|digits|, size) ==> ShowsAt(digits, sep, size, text, j)
  {
    GroupedLength(digits, sep, size);
    GroupedEnds(digits, sep, size);
    forall j | 0 <= j < Spread(|digits|, size)
      ensures ShowsAt(digits, sep, size, prefix + Grouped(digits, sep, size), j)
    {
      GroupedAt(digits, sep, size, j);
      FromRight(prefix, Grouped(digits, sep, size), j);
    }
  }

  lemma ZerosLead(zeros: nat, body: string)
    requires body != "" && forall c :: c in body ==> IsHex(c)
    ensures var text := Repeat('0', zeros) + body;
            text != "" && IsHex(text[0]) && forall c :: c in text ==> IsHex(c)
  {
    assert body[0] in body;
  }

  lemma PlainReadsBack(spec: FormatSpec, neg: bool, zeros: nat, body: string)
    requires spec.group.None? && body != "" && forall c :: c in body ==> IsHex(c)
    ensures ReadInt(spec, SignPrefix(neg, spec.sign) + RadixPrefix(spec) + (Repeat('0', zeros) + body)) ==
            (var m: int := FromRadix(body, RadixOf(spec.ty)); if neg then -m else m)
  {
    ZerosLead(zeros, body);
    ReadPrefixed(spec, neg, Repeat('0', zeros) + body);
    ZerosAreFree(zeros, body, RadixOf(spec.ty));
  }

  lemma GroupedReadsBack(spec: FormatSpec, neg: bool, zeros: nat, body: string)
    requires spec.group.Some? && IsGroup(spec.group.value) && body != "" && forall c :: c in body ==> IsHex(c)
    ensures ReadInt(spec, SignPrefix(neg, spec.sign) + RadixPrefix(spec)
                          + Grouped(Repeat('0', zeros) + body, spec.group.value, GroupSize(spec.ty))) ==
            (var m: int := FromRadix(body, RadixOf(spec.ty)); if neg then -m else m)
  {
    var digits, sep, size := Repeat('0', zeros) + body, spec.group.value, GroupSize(spec.ty);
    ZerosLead(zeros, body);
    GroupedEnds(digits, sep, size);
    ReadPrefixed(spec, neg, Grouped(digits, sep, size));
    StripGrouped(digits, sep, size);
    ZerosAreFree(zeros, body, RadixOf(spec.ty));
  }

  // ----- the code as it runs -----

  /** The string a render appends to. */
  class Buffer {
    var text: string

    constructor ()
      ensures text == ""
    {
      text := "";
    }

    method Push(s: string)
      modifies this
      ensures text == old(text) + s
    {
      text := text + s;
    }

    /** `n` copies of `fill`. */
    method PushFill(fill: char, n: nat)
      modifies this
      ensures text == old(text) + Repeat(fill, n)
    {
      for i := 0 to n
        invariant text == old(text) + Repeat(fill, i)
      {
        Assoc(old(text), Repeat(fill, i), [fill]);
        assert Repeat(fill, i) + [fill] == Repeat(fill, i + 1);
        text := text + [fill];
      }
    }
  }

  /** What is left to write of the grouped digits from digit `k` on. */
  ghost function Unwritten(digits: string, k: nat, sep: char, size: Size): string
    requires k <= |digits|
  {
    if k == |digits| then ""
    else (if k > 0 && IsMultiple(|digits| - k, size) then [sep] else []) + Grouped(digits[k..], sep, size)
  }

  lemma UnwrittenStep(digits: string, k: nat, sep: char, size: Size)
    requires k < |digits|
    ensures Unwritten(digits, k, sep, size) ==
            (if k > 0 && IsMultiple(|digits| - k, size) then [sep] else []) + [digits[k]] + Unwritten(digits, k + 1, sep, size)
  {
    assert digits[k..][1..] == digits[k + 1..];
    var before := if k > 0 && IsMultiple(|digits| - k, size) then [sep] else [];
    if k + 1 == |digits| {
      assert digits[k..] == [digits[k]];
      assert before + [digits[k]] + "" == before + [digits[k]];
    } else {
      var after := if IsMultiple(|digits| - k - 1, size) then [sep] else [];
      Assoc([digits[k]], after, Grouped(digits[k + 1..], sep, size));
      Assoc(before, [digits[k]], Unwritten(digits, k + 1, sep, size));
    }
  }

  /** The separators inserted left to right, the digits zero-padded to `want` first. */
  method GroupDigits(digits: string, want: nat, sep: char, size: Size) returns (out: string)
    requires |digits| <= want
    ensures out == Grouped(Repeat('0', want - |digits|) + digits, sep, size)
  {
    var pad := want - |digits|;
    ghost var all := Repeat('0', pad) + digits;
    out := "";
    assert all[0..] == all && [] + Grouped(all, sep, size) == Grouped(all, sep, size);
    for k := 0 to want
      invariant Grouped(all, sep, size) == out + Unwritten(all, k, sep, size)
    {
      UnwrittenStep(all, k, sep, size);
      var before := if k > 0 && IsMultiple(want - k, size) then [sep] else [];
      var digit := if k < pad then '0' else digits[k - pad];
      assert digit == all[k];
      Assoc4(out, before, [digit], Unwritten(all, k + 1, sep, size));
      out := out + before + [digit];
    }
  }

  /** The digit count grown until its spread covers the target. */
  method GrowDigits(count: nat, target: int, size: Size) returns (want: nat)
    ensures want == Wanted(count, target, size)
  {
    want := count;
    while Spread(want, size) < target
      invariant want >= count && Wanted(count, target, size) == Wanted(want, target, size)
      decreases target - Spread(want, size)
    {
      SpreadGrows(want, size);
      want := want + 1;
    }
  }

  method FindDigitEnd(ty: Option<char>, body: string) returns (end: nat)
    ensures end == DigitEnd(ty, body)
  {
    end := 0;
    while end < |body| && IsGrouped(ty, body[end])
      invariant end <= |body| && DigitEnd(ty, body) == end + DigitEnd(ty, body[end..])
    {
      assert body[end..][1..] == body[end + 1..];
      end := end + 1;
    }
  }

  method GroupBody(spec: FormatSpec, base: Base, zeroFill: bool) returns (body: string)
    ensures body == GroupedBody(spec, base, zeroFill)
  {
    if spec.group.None? { return base.body; }
    var end := FindDigitEnd(spec.ty, base.body);
    if end == 0 { return base.body; }
    var digits, tail := base.body[..end], base.body[end..];
    var want := end;
    if zeroFill { want := GrowDigits(end, spec.width - |base.prefix| - |tail|, GroupSize(spec.ty)); }
    assert want == WantedDigits(spec, base, zeroFill);
    var grouped := GroupDigits(digits, want, spec.group.value, GroupSize(spec.ty));
    body := grouped + tail;
  }

  /** Append the value under the spec; a rejected spec leaves the buffer untouched. */
  method Apply(floats: Floats, spec: FormatSpec, arg: FmtArg, out: Buffer) returns (r: Option<Rejection>)
    modifies out
    ensures r == Rejected(spec, KindOf(arg))
    ensures r.Some? ==> out.text == old(out.text)
    ensures r.None? ==> Render(floats, spec, arg).Ok? && out.text == old(out.text) + Render(floats, spec, arg).value
  {
    FailsExactlyWhenRejected(floats, spec, arg);
    var rendered := RenderBase(floats, spec, arg);
    if rendered.Err? { return Some(rendered.error); }
    var base := rendered.value;
    var body := GroupBody(spec, base, ZeroFills(spec, base.numeric));
    AppendPadded(spec, base.prefix, body, base.numeric, out);
    r := None;
  }

  /** The padding, written piece by piece. */
  method AppendPadded(spec: FormatSpec, prefix: string, body: string, numeric: bool, out: Buffer)
    modifies out
    ensures out.text == old(out.text) + Layout(spec, prefix, body, numeric)
  {
    var full := prefix + body;
    ghost var before := out.text;
    if |full| >= spec.width {
      out.Push(full);
      return;
    }
    var pad := spec.width - |full|;
    var align := if spec.align.Some? then spec.align.value else if numeric then Right else Left;
    if (spec.zeroPad && numeric && spec.align.None?) || align == Pad {
      var fill := if align == Pad then spec.fill else '0';
      out.Push(prefix);
      out.PushFill(fill, pad);
      out.Push(body);
      Assoc4(before, prefix, Repeat(fill, pad), body);
    } else if align == Left {
      out.Push(full);
      out.PushFill(spec.fill, pad);
      Assoc(before, full, Repeat(spec.fill, pad));
    } else {
      var left := if align == Right then pad else pad / 2;
      out.PushFill(spec.fill, left);
      out.Push(full);
      out.PushFill(spec.fill, pad - left);
      Assoc4(before, Repeat(spec.fill, left), full, Repeat(spec.fill, pad - left));
      assert align == Right ==> Repeat(spec.fill, left) + full + Repeat(spec.fill, 0) == Repeat(spec.fill, left) + full;
    }
  }
}
