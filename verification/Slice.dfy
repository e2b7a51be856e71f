/** Slice resolution (`norm_index` and `range_indices` of src/slice.rs): saturating 64-bit arithmetic
    against the unbounded definition. */
module Slice {
  import opened Wrappers
  import opened IntOps

  /** The four fields of a Range value. */
  datatype RangeParts = RangeParts(start: Option<int>, end: Option<int>, step: int, inclusive: bool)

  predicate InRange(r: RangeParts) {
    && (r.start.Some? ==> Fits(r.start.value))
    && (r.end.Some? ==> Fits(r.end.value))
    && Fits(r.step)
  }

  // ----- the definition, on unbounded integers -----

  function Clamp(x: int, lo: int, hi: int): int
    requires lo <= hi
  {
    if x < lo then lo else if x > hi then hi else x
  }

  /** A negative bound counts from the end. */
  function FromEnd(b: int, n: nat): int {
    if b < 0 then b + n else b
  }

  /** The position of a bound: [0, n] going up, [-1, n - 1] going down. */
  function Position(x: int, up: bool, n: nat): int {
    if up then Clamp(x, 0, n) else Clamp(x, -1, n - 1)
  }

  function Start(r: RangeParts, n: nat): int {
    var up := r.step > 0;
    Position(if r.start.Some? then FromEnd(r.start.value, n) else if up then 0 else n - 1, up, n)
  }

  /** An inclusive end reaches one position further in the step's direction. */
  function Stop(r: RangeParts, n: nat): int {
    var up := r.step > 0;
    var further := if !r.inclusive then 0 else if up then 1 else -1;
    Position(if r.end.Some? then FromEnd(r.end.value, n) + further else if up then n else -1, up, n)
  }

  predicate Before(i: int, stop: int, step: int) {
    if step > 0 then i < stop else i > stop
  }

  /** start, start + step, ... up to but not including `stop`. */
  function Stepped(start: int, stop: int, step: int): seq<int>
    requires step != 0
    decreases if step > 0 then stop - start else start - stop
  {
    if Before(start, stop, step) then [start] + Stepped(start + step, stop, step) else []
  }

  function Indices(r: RangeParts, n: nat): seq<int>
    requires r.step != 0
  {
    Stepped(Start(r, n), Stop(r, n), r.step)
  }

  // ----- the code -----

  function SaturatingAdd(a: int, b: int): int {
    Clamp(a + b, MIN, MAX)
  }

  /** The code's bounds, with their saturation, are the definition's. */
  lemma BoundsAgree(r: RangeParts, len: nat)
    requires InRange(r) && len <= MAX && r.step != 0
    ensures ClampedStart(r, len) == Start(r, len) && ClampedStop(r, len) == Stop(r, len)
  {
  }

  function ClampedStart(r: RangeParts, len: nat): int {
    var up := r.step > 0;
    Position(Bound(r.start, len, if up then 0 else len - 1), up, len)
  }

  function ClampedStop(r: RangeParts, len: nat): int {
    var up := r.step > 0;
    Position(
      if r.end.None? then if up then len else -1
      else if !r.inclusive then Bound(r.end, len, 0)
      else SaturatingAdd(Bound(r.end, len, 0), if up then 1 else -1), up, len)
  }

  method RangeIndices(r: RangeParts, len: nat) returns (res: Result<seq<nat>, string>)
    requires InRange(r) && len <= MAX
    ensures res.Err? <==> r.step == 0
    ensures res.Ok? ==> res.value == Indices(r, len)
    ensures res.Ok? ==> forall k :: 0 <= k < |res.value| ==> res.value[k] < len
  {
    if r.step == 0 { return Err("slice step cannot be zero"); }
    BoundsAgree(r, len);
    var out := Walk(ClampedStart(r, len), ClampedStop(r, len), r.step, len);
    res := Ok(out);
  }

  /** The stepping loop; a step that would leave the 64-bit range is past the end. */
  method Walk(lo: int, hi: int, step: int, len: nat) returns (out: seq<nat>)
    requires step != 0 && len <= MAX
    requires if step > 0 then 0 <= lo && hi <= len else lo < len && -1 <= hi
    ensures out == Stepped(lo, hi, step)
    ensures forall k :: 0 <= k < |out| ==> out[k] < len
  {
    out := [];
    var i := lo;
    while Before(i, hi, step)
      invariant out + Stepped(i, hi, step) == Stepped(lo, hi, step)
      invariant if step > 0 then 0 <= i else i < len
      invariant forall k :: 0 <= k < |out| ==> out[k] < len
      decreases if step > 0 then hi - i else i - hi
    {
      ghost var rest := Stepped(i + step, hi, step);
      assert out + Stepped(i, hi, step) == out + [i] + rest;
      out := out + [i];
      if !Fits(i + step) {
        assert rest == [];
        return;
      }
      i := i + step;
    }
  }

  function Bound(b: Option<int>, len: nat, missing: int): int {
    match b
    case None => missing
    case Some(x) => if x < 0 then SaturatingAdd(x, len) else x
  }

  function NormIndex(n: int, len: nat): (r: Option<nat>)
    ensures r.Some? <==> 0 - len <= n < len
    ensures r.Some? ==> r.value < len && (r.value == n || r.value == n + len)
  {
    var i := if n < 0 then n + len else n;
    if 0 <= i < len then Some(i) else None
  }

  // ----- what a slice selects -----

  lemma {:induction false} ElementAt(start: int, stop: int, step: int, k: nat)
    requires step != 0 && k < |Stepped(start, stop, step)|
    ensures Stepped(start, stop, step)[k] == start + k * step && Before(start + k * step, stop, step)
    decreases k
  {
    if k > 0 {
      ElementAt(start + step, stop, step, k - 1);
      OneStepOn(start, step, k - 1);
    }
  }

  lemma {:induction false} EndsBeyond(start: int, stop: int, step: int)
    requires step != 0
    ensures !Before(start + |Stepped(start, stop, step)| * step, stop, step)
    decreases if step > 0 then stop - start else start - stop
  {
    if Before(start, stop, step) {
      EndsBeyond(start + step, stop, step);
      OneStepOn(start, step, |Stepped(start + step, stop, step)|);
    }
  }

  /** The indices are start, start + step, ..., and one step further passes the end. */
  lemma SteppedAt(start: int, stop: int, step: int)
    requires step != 0
    ensures forall k :: 0 <= k < |Stepped(start, stop, step)| ==>
              Stepped(start, stop, step)[k] == start + k * step && Before(start + k * step, stop, step)
    ensures !Before(start + |Stepped(start, stop, step)| * step, stop, step)
  {
    forall k | 0 <= k < |Stepped(start, stop, step)|
      ensures Stepped(start, stop, step)[k] == start + k * step && Before(start + k * step, stop, step)
    {
      ElementAt(start, stop, step, k);
    }
    EndsBeyond(start, stop, step);
  }

  lemma OneStepOn(start: int, step: int, k: int)
    ensures start + step + k * step == start + (k + 1) * step
  {
  }

  function Select<T>(xs: seq<T>, indices: seq<int>): seq<T>
    requires forall k :: 0 <= k < |indices| ==> 0 <= indices[k] < |xs|
  {
    seq(|indices|, k requires 0 <= k < |indices| => xs[indices[k]])
  }

  /** Every index of a slice is in bounds, so the selection below is defined. */
  lemma IndicesInBounds(r: RangeParts, n: nat)
    requires r.step != 0
    ensures forall k :: 0 <= k < |Indices(r, n)| ==> 0 <= Indices(r, n)[k] < n
  {
    var start, stop := Start(r, n), Stop(r, n);
    SteppedAt(start, stop, r.step);
    forall k | 0 <= k < |Indices(r, n)| ensures 0 <= start + k * r.step < n {
      if r.step > 0 { assert k * r.step >= 0; } else { assert k * r.step <= 0; }
    }
  }

  function Sliced<T>(xs: seq<T>, r: RangeParts): seq<T>
    requires r.step != 0
  {
    IndicesInBounds(r, |xs|);
    Select(xs, Indices(r, |xs|))
  }

  lemma UnitStep<T>(xs: seq<T>, a: nat, b: nat)
    requires a <= b <= |xs|
    ensures forall k :: 0 <= k < |Stepped(a, b, 1)| ==> 0 <= Stepped(a, b, 1)[k] < |xs|
    ensures Select(xs, Stepped(a, b, 1)) == xs[a..b]
  {
    SteppedAt(a, b, 1);
    var s := Stepped(a, b, 1);
    assert |s| > 0 ==> s[|s| - 1] < b;
  }

  /** Where a slice starts, case by case. */
  lemma StartIs(r: RangeParts, n: nat)
    requires r.step != 0
    ensures r.start.None? ==> Start(r, n) == if r.step > 0 then 0 else n - 1
    ensures r.start.Some? && 0 <= r.start.value < n ==> Start(r, n) == r.start.value
    ensures r.start.Some? && 0 - n <= r.start.value < 0 ==> Start(r, n) == r.start.value + n
    ensures r.start.Some? && r.start.value >= n ==> Start(r, n) == if r.step > 0 then n else n - 1
    ensures r.start.Some? && r.start.value < 0 - n ==> Start(r, n) == if r.step > 0 then 0 else -1
  {
  }

  /** Where it stops, case by case; an inclusive end takes one position more, in the direction of the step. */
  lemma StopIs(r: RangeParts, n: nat)
    requires r.step != 0
    ensures r.end.None? ==> Stop(r, n) == if r.step > 0 then n else -1
    ensures r.end.Some? && !r.inclusive ==>
              Stop(r, n) == Start(RangeParts(r.end, None, r.step, false), n)
    ensures r.end.Some? && r.inclusive && 0 - n <= r.end.value < n ==>
              Stop(r, n) == (if r.end.value < 0 then r.end.value + n else r.end.value) + if r.step > 0 then 1 else -1
    ensures r.end.Some? && r.inclusive && r.end.value >= n ==>
              Stop(r, n) == if r.step > 0 then n else n - 1
    ensures r.end.Some? && r.inclusive && r.end.value < 0 - n ==> Stop(r, n) == if r.step > 0 then 0 else -1
  {
  }

  /** `xs[a..b]` and `xs[a..=b]` are what they say. */
  lemma PlainSlice<T>(xs: seq<T>, a: nat, b: nat)
    requires a <= b <= |xs|
    ensures Sliced(xs, RangeParts(Some(a), Some(b), 1, false)) == xs[a..b]
    ensures b < |xs| ==> Sliced(xs, RangeParts(Some(a), Some(b), 1, true)) == xs[a..b + 1]
    ensures a > 0 ==> Sliced(xs, RangeParts(Some(0 - a), None, 1, false)) == xs[|xs| - a..]
    ensures a < b ==> Sliced(xs, RangeParts(Some(b), Some(a), 1, false)) == []
  {
    UnitStep(xs, a, b);
    if b < |xs| { UnitStep(xs, a, b + 1); }
    if a > 0 { UnitStep(xs, |xs| - a, |xs|); }
  }

  /** Downward from `b`: `xs[b..a]` by -1 ends after `a`, and `xs[b..=a]` with it. */
  lemma DownwardSlice<T>(xs: seq<T>, a: nat, b: nat)
    requires a <= b < |xs|
    ensures var down := Sliced(xs, RangeParts(Some(b), Some(a), -1, false));
            |down| == b - a && forall k :: 0 <= k < b - a ==> down[k] == xs[b - k]
    ensures var down := Sliced(xs, RangeParts(Some(b), Some(a), -1, true));
            |down| == b - a + 1 && forall k :: 0 <= k <= b - a ==> down[k] == xs[b - k]
  {
    DownwardSteps(b, a);
    DownwardSteps(b, a - 1);
  }

  lemma DownwardSteps(b: int, stop: int)
    requires stop <= b
    ensures |Stepped(b, stop, -1)| == b - stop
    ensures forall k :: 0 <= k < b - stop ==> Stepped(b, stop, -1)[k] == b - k
  {
    SteppedAt(b, stop, -1);
    var s := Stepped(b, stop, -1);
    assert |s| > 0 ==> s[|s| - 1] > stop;
  }

  /** `xs[..k]` followed by `xs[k..]` is `xs`, for every k. */
  lemma SplitAnywhere<T>(xs: seq<T>, k: int)
    ensures Sliced(xs, RangeParts(None, Some(k), 1, false)) + Sliced(xs, RangeParts(Some(k), None, 1, false)) == xs
  {
    var m := Clamp(FromEnd(k, |xs|), 0, |xs|);
    UnitStep(xs, 0, m);
    UnitStep(xs, m, |xs|);
    assert xs[0..m] + xs[m..|xs|] == xs;
  }

  /** Step -1 without bounds is the exact reversal. */
  lemma FullReverse<T>(xs: seq<T>, inclusive: bool)
    ensures var rev := Sliced(xs, RangeParts(None, None, -1, inclusive));
            |rev| == |xs| && forall k :: 0 <= k < |xs| ==> rev[k] == xs[|xs| - 1 - k]
  {
    SteppedAt(|xs| - 1, -1, -1);
    var s := Stepped(|xs| - 1, -1, -1);
    assert |s| > 0 ==> s[|s| - 1] > -1;
  }

  lemma MulMonotone(a: int, b: int, step: int)
    requires a <= b
    ensures step >= 0 ==> a * step <= b * step
    ensures step <= 0 ==> a * step >= b * step
  {
    assert b * step - a * step == (b - a) * step;
  }

  lemma SteppedIsComplete(start: int, stop: int, step: int, k: nat)
    requires step != 0
    ensures Before(start + k * step, stop, step) <==> k < |Stepped(start, stop, step)|
  {
    SteppedAt(start, stop, step);
    var m := |Stepped(start, stop, step)|;
    if m <= k { MulMonotone(m, k, step); }
  }

  /** A slice holds, in order, exactly the positions that are a whole number of steps from the start
      and lie before the end. */
  lemma IndicesAreComplete(r: RangeParts, n: nat, k: nat)
    requires r.step != 0
    ensures Before(Start(r, n) + k * r.step, Stop(r, n), r.step) <==> k < |Indices(r, n)|
    ensures k < |Indices(r, n)| ==> Indices(r, n)[k] == Start(r, n) + k * r.step
  {
    SteppedIsComplete(Start(r, n), Stop(r, n), r.step, k);
    SteppedAt(Start(r, n), Stop(r, n), r.step);
  }
}
