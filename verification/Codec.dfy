/** The build-time artifact (src/ast/codec.rs): a tree written with the range its ids lie in, and read
    back with every id shifted into a block this process reserves. */
module Codec {
  import opened Wrappers
  import opened Sequences
  import opened NodeIds

  type Byte = x: int | 0 <= x < 256

  // ----- 32-bit words, little endian -----

  function WriteU32(n: nat): seq<Byte>
    requires n < WRAP
  {
    [n % 256, n / 256 % 256, n / 65536 % 256, n / 16777216]
  }

  function ReadU32(t: seq<Byte>): Option<(nat, seq<Byte>)> {
    if |t| < 4 then None
    else
      var a: int, b: int, c: int, d: int := t[0], t[1], t[2], t[3];
      Some((a + 256 * b + 65536 * c + 16777216 * d, t[4..]))
  }

  lemma U32ReadsBack(n: nat, rest: seq<Byte>)
    requires n < WRAP
    ensures ReadU32(WriteU32(n) + rest) == Some((n, rest))
  {
    var t := WriteU32(n) + rest;
    assert t[4..] == rest;
    assert n / 256 / 256 == n / 65536 && n / 65536 / 256 == n / 16777216;
  }

  // ----- trees -----

  /** Every number of the tree is a 32-bit word. */
  predicate Encodable(n: Node)
    decreases n
  {
    && n.content < WRAP && n.span < WRAP && n.id < WRAP && |n.kids| < WRAP && |n.hidden| < WRAP
    && AllEncodable(n.kids) && AllEncodable(n.hidden)
  }

  predicate AllEncodable(ns: seq<Node>)
    decreases ns
  {
    ns == [] || (Encodable(ns[0]) && AllEncodable(ns[1..]))
  }

  function KindWord(k: Kind): nat {
    match k case Carrier => 0 case Numbered => 1 case Unnumbered => 2
  }

  function Write(n: Node): seq<Byte>
    requires Encodable(n)
    decreases n
  {
    WriteWords(Head(n)) + (WriteAll(n.kids) + WriteAll(n.hidden))
  }

  predicate AreWords(words: seq<nat>) {
    forall i :: 0 <= i < |words| ==> words[i] < WRAP
  }

  function WriteWords(words: seq<nat>): seq<Byte>
    requires AreWords(words)
  {
    if words == [] then [] else WriteU32(words[0]) + WriteWords(words[1..])
  }

  /** The six words that open a node. */
  function Head(n: Node): (words: seq<nat>)
    requires Encodable(n)
    ensures AreWords(words)
  {
    [KindWord(n.kind), n.content, n.span, n.id, |n.kids|, |n.hidden|]
  }

  function WriteAll(ns: seq<Node>): seq<Byte>
    requires AllEncodable(ns)
    decreases ns
  {
    if ns == [] then [] else Write(ns[0]) + WriteAll(ns[1..])
  }

  /** A node id read under a shift: SYNTH stays, any other moves, wrapping at 2^32. */
  function ShiftId(raw: nat, shift: nat): nat {
    if raw == SYNTH then SYNTH else (raw + shift) % WRAP
  }

  function Shifted(n: Node, shift: nat): Node
    decreases n
  {
    n.(id := ShiftId(n.id, shift), kids := ShiftedAll(n.kids, shift), hidden := ShiftedAll(n.hidden, shift))
  }

  function ShiftedAll(ns: seq<Node>, shift: nat): seq<Node>
    decreases ns
  {
    if ns == [] then [] else [Shifted(ns[0], shift)] + ShiftedAll(ns[1..], shift)
  }

  function ReadWords(t: seq<Byte>, count: nat): Option<(seq<nat>, seq<Byte>)> {
    if count == 0 then Some(([], t))
    else
      var first := ReadU32(t);
      if first.None? then None
      else
        var rest := ReadWords(first.value.1, count - 1);
        if rest.None? then None else Some(([first.value.0] + rest.value.0, rest.value.1))
  }

  function Read(t: seq<Byte>, shift: nat): (r: Option<(Node, seq<Byte>)>)
    ensures r.Some? ==> |r.value.1| < |t|
    decreases |t|, 0
  {
    var words := ReadWords(t, 6);
    WordsShrink(t, 6);
    if words.None? || words.value.0[0] > 2 then None
    else
      var (ws, t1) := words.value;
      var kids := ReadAll(t1, ws[4], shift);
      if kids.None? then None
      else
        var hidden := ReadAll(kids.value.1, ws[5], shift);
        if hidden.None? then None
        else
          var kind := if ws[0] == 0 then Carrier else if ws[0] == 1 then Numbered else Unnumbered;
          Some((Node(kind, ws[1], ws[2], ShiftId(ws[3], shift), kids.value.0, hidden.value.0), hidden.value.1))
  }

  function ReadAll(t: seq<Byte>, count: nat, shift: nat): (r: Option<(seq<Node>, seq<Byte>)>)
    ensures r.Some? ==> |r.value.1| <= |t|
    decreases |t|, count
  {
    if count == 0 then Some(([], t))
    else
      var first := Read(t, shift);
      if first.None? then None
      else
        var rest := ReadAll(first.value.1, count - 1, shift);
        if rest.None? then None else Some(([first.value.0] + rest.value.0, rest.value.1))
  }

  lemma {:induction false} WordsShrink(t: seq<Byte>, count: nat)
    ensures ReadWords(t, count).Some? ==>
              |ReadWords(t, count).value.0| == count && |ReadWords(t, count).value.1| == |t| - 4 * count
  {
    if count > 0 && ReadU32(t).Some? { WordsShrink(ReadU32(t).value.1, count - 1); }
  }

  lemma {:induction false} WordsAreU32(t: seq<Byte>, count: nat)
    ensures ReadWords(t, count).Some? ==> AreWords(ReadWords(t, count).value.0)
  {
    if count > 0 && ReadU32(t).Some? { WordsAreU32(ReadU32(t).value.1, count - 1); }
  }

  // ----- reading a tree back -----

  lemma {:induction false} WordsReadBack(words: seq<nat>, rest: seq<Byte>)
    requires AreWords(words)
    ensures ReadWords(WriteWords(words) + rest, |words|) == Some((words, rest))
  {
    if words == [] {
      assert WriteWords(words) + rest == rest;
    } else {
      var tail := WriteWords(words[1..]) + rest;
      Assoc(WriteU32(words[0]), WriteWords(words[1..]), rest);
      U32ReadsBack(words[0], tail);
      WordsReadBack(words[1..], rest);
      assert [words[0]] + words[1..] == words;
    }
  }

  /** Reading what was written gives the tree with its ids shifted, whatever follows. */
  lemma {:induction false} TreeReadsBack(n: Node, rest: seq<Byte>, shift: nat)
    requires Encodable(n)
    ensures Read(Write(n) + rest, shift) == Some((Shifted(n, shift), rest))
    decreases n
  {
    var body := WriteAll(n.kids) + WriteAll(n.hidden);
    WordsReadBack(Head(n), body + rest);
    Assoc(WriteWords(Head(n)), body, rest);
    Assoc(WriteAll(n.kids), WriteAll(n.hidden), rest);
    ForestReadsBack(n.kids, WriteAll(n.hidden) + rest, shift);
    ForestReadsBack(n.hidden, rest, shift);
  }

  lemma {:induction false} ForestReadsBack(ns: seq<Node>, rest: seq<Byte>, shift: nat)
    requires AllEncodable(ns)
    ensures ReadAll(WriteAll(ns) + rest, |ns|, shift) == Some((ShiftedAll(ns, shift), rest))
    decreases ns
  {
    if ns == [] {
      assert WriteAll(ns) + rest == rest;
    } else {
      Assoc(Write(ns[0]), WriteAll(ns[1..]), rest);
      TreeReadsBack(ns[0], WriteAll(ns[1..]) + rest, shift);
      ForestReadsBack(ns[1..], rest, shift);
    }
  }

  // ----- artifacts -----

  function Encode(lo: nat, end: nat, n: Node): seq<Byte>
    requires lo < WRAP && end < WRAP && Encodable(n)
  {
    WriteWords([lo, end]) + Write(n)
  }

  /** An artifact's tree when the reserved block starts at `base`. */
  function DecodeAt(bytes: seq<Byte>, base: nat): Option<Node> {
    var header := ReadWords(bytes, 2);
    WordsShrink(bytes, 2);
    if header.None? || header.value.0[1] < header.value.0[0] then None
    else
      var r := Read(header.value.1, (base - header.value.0[0]) % WRAP);
      if r.None? || r.value.1 != [] then None else Some(r.value.0)
  }

  /** How many ids an artifact reserves; None when it is refused before reserving any. */
  function Reserves(bytes: seq<Byte>): Option<nat> {
    var header := ReadWords(bytes, 2);
    WordsShrink(bytes, 2);
    if header.None? || header.value.0[1] < header.value.0[0] then None else Some(header.value.0[1] - header.value.0[0])
  }

  class Decoder {
    const counter: Counter
    /** What the id reader adds to each id; 0 outside a decode. */
    var idShift: nat

    constructor (c: Counter)
      ensures counter == c && idShift == 0
    {
      counter, idShift := c, 0;
    }

    /** The tree of an artifact, its ids moved into the block of draw `d`. The shift is reset on every
        path, and an artifact refused for its range draws nothing. */
    method Decode(bytes: seq<Byte>) returns (r: Option<Node>, ghost d: nat)
      requires idShift == 0 && counter.Valid()
      modifies this`idShift, counter
      ensures idShift == 0 && counter.Valid() && old(counter.drawn) <= counter.drawn
      ensures Reserves(bytes).None? ==> r.None? && counter.drawn == old(counter.drawn)
      ensures Reserves(bytes).Some? ==>
                && |old(counter.drawn)| <= d < |counter.drawn| && counter.drawn[d] == Reserves(bytes).value
                && r == DecodeAt(bytes, BlockId(counter.drawn, d, 0))
    {
      d := 0;
      var header := ReadWords(bytes, 2);
      WordsShrink(bytes, 2);
      if header.None? || header.value.0[1] < header.value.0[0] { return None, d; }
      var lo, end := header.value.0[0], header.value.0[1];
      WordsAreU32(bytes, 2);
      var base, draw := counter.FreshBlock(end - lo);
      d := draw;
      idShift := (base - lo) % WRAP;
      var v := Read(header.value.1, idShift);
      idShift := 0;
      if v.None? || v.value.1 != [] { return None, d; }
      r := Some(v.value.0);
    }

    /** Any mix of the operations that draw, one after the other, with other threads drawing in between:
        what each returns is told by draws of its own. */
    method Perform(ops: seq<Op>) returns (results: seq<OpResult>, ghost held: seq<seq<nat>>)
      requires idShift == 0 && counter.Valid()
      modifies this`idShift, counter
      ensures idShift == 0 && counter.Valid() && old(counter.drawn) <= counter.drawn
      ensures Explained(ops, results, held, counter.drawn, |old(counter.drawn)|)
    {
      results, held := [], [];
      for i := 0 to |ops|
        invariant idShift == 0 && counter.Valid() && old(counter.drawn) <= counter.drawn
        invariant Explained(ops[..i], results, held, counter.drawn, |old(counter.drawn)|)
      {
        ghost var before := counter.drawn;
        var r, ds := PerformOne(ops[i]);
        OneMoreExplained(ops[..i], results, held, before, |old(counter.drawn)|, ops[i], r, ds, counter.drawn);
        assert ops[..i + 1] == ops[..i] + [ops[i]];
        results, held := results + [r], held + [ds];
      }
      assert ops[..|ops|] == ops;
    }

    method PerformOne(op: Op) returns (r: OpResult, ghost ds: seq<nat>)
      requires idShift == 0 && counter.Valid()
      modifies this`idShift, counter
      ensures idShift == 0 && counter.Valid() && old(counter.drawn) <= counter.drawn
      ensures Explains(op, r, ds, counter.drawn, |old(counter.drawn)|)
    {
      match op
      case Block(n) =>
        var id, d := counter.FreshBlock(n);
        r, ds := Id(id), [d];
      case Renumbering(tree) =>
        var t, draws := counter.Renumber(tree);
        r, ds := Tree(t), draws;
      case Decoding(bytes) =>
        var t, d := Decode(bytes);
        r := if t.Some? then Tree(t.value) else Refused;
        ds := if Reserves(bytes).Some? then [d] else [];
    }
  }

  // ----- every mix of draws -----

  /** An operation that draws; `fresh` is a block of one. */
  datatype Op = Block(n: U32) | Renumbering(tree: Node) | Decoding(bytes: seq<Byte>)

  datatype OpResult = Id(id: U32) | Tree(tree: Node) | Refused

  /** What an operation returned is told by the draws `ds` it made, all from draw `from` on. */
  ghost predicate Explains(op: Op, r: OpResult, ds: seq<nat>, drawn: seq<U32>, from: nat) {
    && (forall i :: 0 <= i < |ds| ==> from <= ds[i] < |drawn|)
    && (forall i, j :: 0 <= i < j < |ds| ==> ds[i] < ds[j])
    && match op
       case Block(n) => |ds| == 1 && drawn[ds[0]] == n && r == Id(BlockId(drawn, ds[0], 0))
       case Renumbering(tree) => r.Tree? && Erase(r.tree) == Erase(tree) && AreDraws(Walk(r.tree), ds, drawn, from)
       case Decoding(bytes) =>
         if Reserves(bytes).None? then ds == [] && r == Refused
         else
           && |ds| == 1 && drawn[ds[0]] == Reserves(bytes).value
           && var tree := DecodeAt(bytes, BlockId(drawn, ds[0], 0));
              r == if tree.Some? then Tree(tree.value) else Refused
  }

  lemma ExplainsGrows(op: Op, r: OpResult, ds: seq<nat>, drawn: seq<U32>, from: nat, more: seq<U32>)
    requires Explains(op, r, ds, drawn, from) && drawn <= more
    ensures Explains(op, r, ds, more, from)
  {
    forall i | 0 <= i < |ds| ensures BlockId(more, ds[i], 0) == BlockId(drawn, ds[i], 0) {
      DrawsStay(drawn, more, ds[i], 0);
    }
    if op.Renumbering? {
      forall i | 0 <= i < |ds| ensures IsDraw(Walk(r.tree)[i], more, ds[i]) {
        assert IsDraw(Walk(r.tree)[i], drawn, ds[i]);
      }
    }
  }

  /** Every operation is explained, and the draws of an earlier one come before those of a later one. */
  ghost predicate Explained(ops: seq<Op>, results: seq<OpResult>, held: seq<seq<nat>>, drawn: seq<U32>, from: nat) {
    && |results| == |held| == |ops|
    && (forall a :: 0 <= a < |ops| ==> Explains(ops[a], results[a], held[a], drawn, from))
    && (forall a, b, x, y :: 0 <= a < b < |ops| && x in held[a] && y in held[b] ==> x < y)
  }

  lemma OneMoreExplained(ops: seq<Op>, results: seq<OpResult>, held: seq<seq<nat>>, drawn: seq<U32>, from: nat,
                         op: Op, r: OpResult, ds: seq<nat>, more: seq<U32>)
    requires Explained(ops, results, held, drawn, from) && drawn <= more && from <= |drawn|
    requires Explains(op, r, ds, more, |drawn|)
    ensures Explained(ops + [op], results + [r], held + [ds], more, from)
  {
    forall a | 0 <= a < |ops| ensures Explains(ops[a], results[a], held[a], more, from) {
      ExplainsGrows(ops[a], results[a], held[a], drawn, from, more);
    }
    ExplainsLater(op, r, ds, more, from, |drawn|);
    forall a, x | 0 <= a < |ops| && x in held[a] ensures x < |drawn| {
      assert Explains(ops[a], results[a], held[a], drawn, from);
    }
  }

  lemma ExplainsLater(op: Op, r: OpResult, ds: seq<nat>, drawn: seq<U32>, from: nat, later: nat)
    requires Explains(op, r, ds, drawn, later) && from <= later
    ensures Explains(op, r, ds, drawn, from)
  {
  }

  /** In every mix, an id an operation drew differs from SYNTH and from every id another operation drew,
      if it was drawn before the counter passed 2^32 and the counter has not come round to it; and these
      are exactly the ids no other draw of the process has. */
  lemma MixIsApart(ops: seq<Op>, results: seq<OpResult>, held: seq<seq<nat>>, drawn: seq<U32>, from: nat,
                   a: nat, x: nat, k: nat)
    requires Explained(ops, results, held, drawn, from) && a < |ops|
    requires x in held[a] && x < |drawn| && k < drawn[x]
    ensures var at := BlockStart(drawn, x) + k;
            Unique(drawn, x, k) <==> at < WRAP && BlockStart(drawn, |drawn|) <= at + WRAP
    ensures Unique(drawn, x, k) ==>
              && BlockId(drawn, x, k) != SYNTH
              && forall b, y, l :: 0 <= b < |ops| && b != a && y in held[b] && y < |drawn| && 0 <= l < drawn[y] ==>
                   BlockId(drawn, x, k) != BlockId(drawn, y, l)
  {
    IdIsUnique(drawn, x, k);
    forall b, y | 0 <= b < |ops| && b != a && y in held[b] ensures y != x {
      if a < b { assert x < y; } else { assert y < x; }
    }
  }

  // ----- what decoding does to ids -----

  /** Where an id of a range that starts at `lo` goes when the range moves to `base`. */
  function MovedId(id: nat, lo: nat, base: nat): nat {
    if id == SYNTH then SYNTH else (id - lo + base) % WRAP
  }

  /** `m` is `n` with every id moved by the same distance, SYNTH apart, and nothing else changed. */
  ghost predicate IsMoved(n: Node, m: Node, lo: nat, base: nat)
    decreases n
  {
    && m == n.(id := m.id, kids := m.kids, hidden := m.hidden)
    && m.id == MovedId(n.id, lo, base)
    && AllMoved(n.kids, m.kids, lo, base) && AllMoved(n.hidden, m.hidden, lo, base)
  }

  ghost predicate AllMoved(ns: seq<Node>, ms: seq<Node>, lo: nat, base: nat)
    decreases ns
  {
    if ns == [] then ms == []
    else ms != [] && IsMoved(ns[0], ms[0], lo, base) && AllMoved(ns[1..], ms[1..], lo, base)
  }

  lemma ShiftMoves(id: nat, lo: nat, base: nat)
    ensures (id + (base - lo) % WRAP) % WRAP == (id - lo + base) % WRAP
  {
  }

  lemma {:induction false} ShiftedIsMoved(n: Node, lo: nat, base: nat)
    ensures IsMoved(n, Shifted(n, (base - lo) % WRAP), lo, base)
    decreases n
  {
    ShiftMoves(n.id, lo, base);
    AllShiftedAreMoved(n.kids, lo, base);
    AllShiftedAreMoved(n.hidden, lo, base);
  }

  lemma {:induction false} AllShiftedAreMoved(ns: seq<Node>, lo: nat, base: nat)
    ensures AllMoved(ns, ShiftedAll(ns, (base - lo) % WRAP), lo, base)
    decreases ns
  {
    if ns != [] {
      ShiftedIsMoved(ns[0], lo, base);
      AllShiftedAreMoved(ns[1..], lo, base);
      assert ([Shifted(ns[0], (base - lo) % WRAP)] + ShiftedAll(ns[1..], (base - lo) % WRAP))[1..]
          == ShiftedAll(ns[1..], (base - lo) % WRAP);
    }
  }

  /** Decoding an encoded tree gives the tree back with one distance added to every id, modulo 2^32. */
  lemma DecodeMovesIds(n: Node, lo: nat, end: nat, base: nat)
    requires Encodable(n) && lo <= end < WRAP
    ensures DecodeAt(Encode(lo, end, n), base).Some?
    ensures IsMoved(n, DecodeAt(Encode(lo, end, n), base).value, lo, base)
    ensures Reserves(Encode(lo, end, n)) == Some(end - lo)
  {
    WordsReadBack([lo, end], Write(n));
    TreeReadsBack(n, [], (base - lo) % WRAP);
    assert Write(n) + [] == Write(n);
    ShiftedIsMoved(n, lo, base);
  }

  /** The ids of a range keep their order exactly when the range does not run over 2^32 at its new place. */
  lemma OrderSurvives(lo: nat, end: nat, base: U32)
    requires 0 < lo <= end < WRAP
    ensures (forall x, y :: lo <= x < y < end ==> MovedId(x, lo, base) < MovedId(y, lo, base)) <==>
            base + (end - lo) <= WRAP
  {
    if base + (end - lo) > WRAP {
      var x, y := lo, lo + (WRAP - base);
      assert lo <= x < y < end && MovedId(y, lo, base) == 0 && MovedId(x, lo, base) == base;
    }
  }

  // ----- every id of a tree, walked or not -----

  function Everything(n: Node): seq<Entry>
    decreases n
  {
    OwnEntry(n) + (EverythingIn(n.kids) + EverythingIn(n.hidden))
  }

  function EverythingIn(ns: seq<Node>): seq<Entry>
    decreases ns
  {
    if ns == [] then [] else Everything(ns[0]) + EverythingIn(ns[1..])
  }

  /** `m` is `n` or any part of it, walked or skipped. */
  ghost predicate Contains(n: Node, m: Node)
    decreases n
  {
    || n == m
    || (exists i :: 0 <= i < |n.kids| && Contains(n.kids[i], m))
    || (exists i :: 0 <= i < |n.hidden| && Contains(n.hidden[i], m))
  }

  lemma {:induction false} EverythingAt(ns: seq<Node>, i: nat, e: Entry)
    requires i < |ns| && e in Everything(ns[i])
    ensures e in EverythingIn(ns)
  {
    if i > 0 { EverythingAt(ns[1..], i - 1, e); }
  }

  /** Everything is there. */
  lemma {:induction false} EverythingMeets(n: Node, m: Node)
    requires Contains(n, m) && !m.kind.Unnumbered?
    ensures Entry(m.id, if m.kind.Carrier? then 12 else 1, m.span) in Everything(n)
    decreases n
  {
    var e := Entry(m.id, IdWidth(m.kind), m.span);
    if n != m {
      if i :| 0 <= i < |n.kids| && Contains(n.kids[i], m) {
        EverythingMeets(n.kids[i], m);
        EverythingAt(n.kids, i, e);
      } else {
        var i :| 0 <= i < |n.hidden| && Contains(n.hidden[i], m);
        EverythingMeets(n.hidden[i], m);
        EverythingAt(n.hidden, i, e);
      }
    }
  }

  /** Every id of the tree, with the ids a carrier reserves, is synthetic or lies in [lo, end). */
  ghost predicate IdsIn(n: Node, lo: nat, end: nat) {
    forall i :: 0 <= i < |Everything(n)| ==> EntryIn(Everything(n)[i], lo, end)
  }

  ghost predicate EntryIn(e: Entry, lo: nat, end: nat) {
    e.id == SYNTH || (lo <= e.id && e.id + e.width <= end)
  }

  ghost predicate EntriesMoved(a: seq<Entry>, b: seq<Entry>, lo: nat, base: nat) {
    |a| == |b| && forall i :: 0 <= i < |a| ==>
      b[i].id == MovedId(a[i].id, lo, base) && b[i].width == a[i].width && b[i].span == a[i].span
  }

  lemma MovedConcat(a: seq<Entry>, b: seq<Entry>, c: seq<Entry>, d: seq<Entry>, lo: nat, base: nat)
    requires EntriesMoved(a, b, lo, base) && EntriesMoved(c, d, lo, base)
    ensures EntriesMoved(a + c, b + d, lo, base)
  {
  }

  /** The walk of the moved tree is the walk, moved. */
  lemma {:induction false} WalkIsMoved(n: Node, m: Node, lo: nat, base: nat)
    requires IsMoved(n, m, lo, base)
    ensures EntriesMoved(Walk(n), Walk(m), lo, base)
    decreases n
  {
    ForestWalkIsMoved(n.kids, m.kids, lo, base);
    MovedConcat(OwnEntry(n), OwnEntry(m), WalkAll(n.kids), WalkAll(m.kids), lo, base);
  }

  lemma {:induction false} ForestWalkIsMoved(ns: seq<Node>, ms: seq<Node>, lo: nat, base: nat)
    requires AllMoved(ns, ms, lo, base)
    ensures EntriesMoved(WalkAll(ns), WalkAll(ms), lo, base)
    decreases ns
  {
    if ns != [] {
      WalkIsMoved(ns[0], ms[0], lo, base);
      ForestWalkIsMoved(ns[1..], ms[1..], lo, base);
      MovedConcat(Walk(ns[0]), Walk(ms[0]), WalkAll(ns[1..]), WalkAll(ms[1..]), lo, base);
    }
  }

  /** So are the ids the walk skips. */
  lemma {:induction false} EverythingIsMoved(n: Node, m: Node, lo: nat, base: nat)
    requires IsMoved(n, m, lo, base)
    ensures EntriesMoved(Everything(n), Everything(m), lo, base)
    decreases n
  {
    ForestIsMoved(n.kids, m.kids, lo, base);
    ForestIsMoved(n.hidden, m.hidden, lo, base);
    MovedConcat(EverythingIn(n.kids), EverythingIn(m.kids), EverythingIn(n.hidden), EverythingIn(m.hidden), lo, base);
    MovedConcat(OwnEntry(n), OwnEntry(m), EverythingIn(n.kids) + EverythingIn(n.hidden),
                EverythingIn(m.kids) + EverythingIn(m.hidden), lo, base);
  }

  lemma {:induction false} ForestIsMoved(ns: seq<Node>, ms: seq<Node>, lo: nat, base: nat)
    requires AllMoved(ns, ms, lo, base)
    ensures EntriesMoved(EverythingIn(ns), EverythingIn(ms), lo, base)
    decreases ns
  {
    if ns != [] {
      EverythingIsMoved(ns[0], ms[0], lo, base);
      ForestIsMoved(ns[1..], ms[1..], lo, base);
      MovedConcat(Everything(ns[0]), Everything(ms[0]), EverythingIn(ns[1..]), EverythingIn(ms[1..]), lo, base);
    }
  }

  /** What the walk meets is among everything. */
  lemma {:induction false} WalkIsInEverything(n: Node, e: Entry)
    requires e in Walk(n)
    ensures e in Everything(n)
    decreases n
  {
    if e !in OwnEntry(n) { ForestIsInEverything(n.kids, e); }
  }

  lemma {:induction false} ForestIsInEverything(ns: seq<Node>, e: Entry)
    requires e in WalkAll(ns)
    ensures e in EverythingIn(ns)
    decreases ns
  {
    if e in Walk(ns[0]) { WalkIsInEverything(ns[0], e); } else { ForestIsInEverything(ns[1..], e); }
  }

  /** A tree without duplicate ids has none after a round trip through an artifact, wherever its range
      goes. */
  lemma DecodeKeepsUniqueness(n: Node, m: Node, lo: nat, end: nat, base: nat)
    requires IdsIn(n, lo, end) && lo <= end < WRAP && IsMoved(n, m, lo, base)
    requires Duplicates(Walk(n)) == []
    ensures Duplicates(Walk(m)) == []
  {
    var a, b := Walk(n), Walk(m);
    WalkIsMoved(n, m, lo, base);
    NoDuplicatesIffDistinct(a);
    forall i, j | 0 <= i < j < |b| && b[i].id != SYNTH ensures b[i].id != b[j].id {
      WalkEntryIn(n, lo, end, a[i]);
      WalkEntryIn(n, lo, end, a[j]);
      if a[j].id != SYNTH { MovedApart(a[i].id, a[j].id, lo, end, base); }
    }
    NoDuplicatesIffDistinct(b);
  }

  lemma WalkEntryIn(n: Node, lo: nat, end: nat, e: Entry)
    requires IdsIn(n, lo, end) && e in Walk(n)
    ensures EntryIn(e, lo, end)
  {
    WalkIsInEverything(n, e);
  }

  lemma MovedApart(x: nat, y: nat, lo: nat, end: nat, base: nat)
    requires lo <= x <= end < WRAP && lo <= y <= end && x != y && x != SYNTH && y != SYNTH
    ensures MovedId(x, lo, base) != MovedId(y, lo, base)
  {
    if x < y { TurnsApart(x - lo + base, y - lo + base); } else { TurnsApart(y - lo + base, x - lo + base); }
  }

  // ----- the promise of a decode -----

  /** `id` is SYNTH or an id of a draw other than `d`. */
  ghost predicate Collides(id: nat, drawn: seq<U32>, d: nat) {
    id == SYNTH || exists j, l :: 0 <= j < |drawn| && j != d && 0 <= l < drawn[j] && BlockId(drawn, j, l) == id
  }

  lemma CollidesUnlessUnique(drawn: seq<U32>, d: nat, k: nat)
    requires d < |drawn| && k < drawn[d]
    ensures Collides(BlockId(drawn, d, k), drawn, d) <==> !Unique(drawn, d, k)
  {
    if !Unique(drawn, d, k) && BlockId(drawn, d, k) != SYNTH {
      var j, l :| 0 <= j < |drawn| && 0 <= l < drawn[j] && (j != d || l != k) && BlockId(drawn, j, l) == BlockId(drawn, d, k);
      if j == d {
        var s := BlockStart(drawn, d);
        if l < k { TurnsApart(s + l, s + k); } else { TurnsApart(s + k, s + l); }
      }
    }
  }

  /** Each id of a decoded tree, and each id a carrier reserves there, is an id of the block drawn for it. */
  lemma DecodedIsInItsBlock(n: Node, m: Node, lo: nat, end: nat, drawn: seq<U32>, d: nat, i: nat, k: nat)
    requires IdsIn(n, lo, end) && lo <= end && d < |drawn| && drawn[d] == end - lo
    requires IsMoved(n, m, lo, BlockId(drawn, d, 0))
    requires i < |Everything(n)| && Everything(n)[i].id != SYNTH && k < Everything(n)[i].width
    ensures i < |Everything(m)| && lo <= Everything(n)[i].id && Everything(n)[i].id - lo + k < drawn[d]
    ensures CarrierChild(Everything(m)[i].id, k) == BlockId(drawn, d, Everything(n)[i].id - lo + k)
  {
    EverythingIsMoved(n, m, lo, BlockId(drawn, d, 0));
    assert EntryIn(Everything(n)[i], lo, end);
    var x := Everything(n)[i].id - lo;
    Turned(BlockStart(drawn, d), x, k);
  }

  lemma Turned(s: nat, x: nat, k: nat)
    ensures ((x + s % WRAP) % WRAP + k) % WRAP == (s + (x + k)) % WRAP
  {
  }

  /** No id of the decoded tree `m`, and none a carrier reserves there, is SYNTH or an id that was or will
      be drawn for anything else. */
  ghost predicate Apart(n: Node, m: Node, drawn: seq<U32>, d: nat) {
    |Everything(m)| == |Everything(n)| &&
    forall i, k :: 0 <= i < |Everything(n)| && Everything(n)[i].id != SYNTH && 0 <= k < Everything(n)[i].width ==>
      !Collides(CarrierChild(Everything(m)[i].id, k), drawn, d)
  }

  /** Draw `d` ended within 2^32, and the counter has not come round to its start again. */
  ghost predicate Clear(drawn: seq<U32>, d: nat)
    requires d < |drawn|
  {
    && BlockStart(drawn, d) + drawn[d] <= WRAP
    && BlockStart(drawn, |drawn|) <= BlockStart(drawn, d) + WRAP
  }

  /** The range is no wider than the tree: its first and its last id are held by some node. */
  ghost predicate Spans(n: Node, lo: nat, end: nat) {
    && (exists i :: 0 <= i < |Everything(n)| && Everything(n)[i].id != SYNTH && Everything(n)[i].id == lo)
    && (exists i :: 0 <= i < |Everything(n)| && Everything(n)[i].id != SYNTH && Everything(n)[i].id + Everything(n)[i].width == end)
  }

  lemma ApartIfClear(n: Node, m: Node, lo: nat, end: nat, drawn: seq<U32>, d: nat)
    requires IdsIn(n, lo, end) && lo <= end && d < |drawn| && drawn[d] == end - lo
    requires IsMoved(n, m, lo, BlockId(drawn, d, 0)) && Clear(drawn, d)
    ensures Apart(n, m, drawn, d)
  {
    EverythingIsMoved(n, m, lo, BlockId(drawn, d, 0));
    forall i, k | 0 <= i < |Everything(n)| && Everything(n)[i].id != SYNTH && 0 <= k < Everything(n)[i].width
      ensures !Collides(CarrierChild(Everything(m)[i].id, k), drawn, d)
    {
      DecodedIsInItsBlock(n, m, lo, end, drawn, d, i, k);
      BlockIsUnique(drawn, d);
      CollidesUnlessUnique(drawn, d, Everything(n)[i].id - lo + k);
    }
  }

  lemma {:induction false} WidthsArePositive(n: Node)
    ensures forall i :: 0 <= i < |Everything(n)| ==> Everything(n)[i].width > 0
    decreases n
  {
    ForestWidthsArePositive(n.kids);
    ForestWidthsArePositive(n.hidden);
  }

  lemma {:induction false} ForestWidthsArePositive(ns: seq<Node>)
    ensures forall i :: 0 <= i < |EverythingIn(ns)| ==> EverythingIn(ns)[i].width > 0
    decreases ns
  {
    if ns != [] {
      WidthsArePositive(ns[0]);
      ForestWidthsArePositive(ns[1..]);
    }
  }

  lemma ClearIfApart(n: Node, m: Node, lo: nat, end: nat, drawn: seq<U32>, d: nat)
    requires IdsIn(n, lo, end) && lo <= end && d < |drawn| && drawn[d] == end - lo && Spans(n, lo, end)
    requires IsMoved(n, m, lo, BlockId(drawn, d, 0)) && Apart(n, m, drawn, d)
    ensures Clear(drawn, d)
  {
    WidthsArePositive(n);
    var i :| 0 <= i < |Everything(n)| && Everything(n)[i].id != SYNTH && Everything(n)[i].id == lo;
    DecodedIsInItsBlock(n, m, lo, end, drawn, d, i, 0);
    CollidesUnlessUnique(drawn, d, 0);
    IdIsUnique(drawn, d, 0);
    var j :| 0 <= j < |Everything(n)| && Everything(n)[j].id != SYNTH && Everything(n)[j].id + Everything(n)[j].width == end;
    var k := Everything(n)[j].width - 1;
    DecodedIsInItsBlock(n, m, lo, end, drawn, d, j, k);
    CollidesUnlessUnique(drawn, d, drawn[d] - 1);
    IdIsUnique(drawn, d, drawn[d] - 1);
  }

  /** The promise of `decode`: the ids of an artifact's tree collide with no id this process drew or will
      draw, exactly when the block drawn for it is clear. The exact form is for a range the tree spans;
      in a wider one the block may be wanting where the tree holds no id. */
  lemma DecodeIsApart(n: Node, lo: nat, end: nat, drawn: seq<U32>, d: nat)
    requires Encodable(n) && IdsIn(n, lo, end) && lo <= end < WRAP
    requires d < |drawn| && drawn[d] == end - lo
    ensures DecodeAt(Encode(lo, end, n), BlockId(drawn, d, 0)).Some?
    ensures var m := DecodeAt(Encode(lo, end, n), BlockId(drawn, d, 0)).value;
            && (Clear(drawn, d) ==> Apart(n, m, drawn, d))
            && (Spans(n, lo, end) ==> (Apart(n, m, drawn, d) <==> Clear(drawn, d)))
  {
    DecodeMovesIds(n, lo, end, BlockId(drawn, d, 0));
    var m := DecodeAt(Encode(lo, end, n), BlockId(drawn, d, 0)).value;
    if Clear(drawn, d) { ApartIfClear(n, m, lo, end, drawn, d); }
    if Spans(n, lo, end) && Apart(n, m, drawn, d) { ClearIfApart(n, m, lo, end, drawn, d); }
  }

  /** A later draw: the block stays clear as long as the counter has not come round. */
  lemma StaysClear(drawn: seq<U32>, more: seq<U32>, d: nat)
    requires drawn <= more && d < |drawn| && Clear(drawn, d)
    ensures Clear(more, d) <==> BlockStart(more, |more|) <= BlockStart(drawn, d) + WRAP
  {
    assert more[..d] == drawn[..d];
  }

  /** An artifact whose range ends before it starts is refused, and draws nothing. */
  lemma BackwardRangeIsRefused(n: Node, lo: nat, end: nat, base: nat)
    requires Encodable(n) && end < lo < WRAP
    ensures DecodeAt(Encode(lo, end, n), base).None? && Reserves(Encode(lo, end, n)).None?
  {
    WordsReadBack([lo, end], Write(n));
  }

  /** Anything with bytes left over is refused, whatever block it would get. */
  lemma TrailingIsRefused(n: Node, lo: nat, end: nat, base: nat, extra: seq<Byte>)
    requires Encodable(n) && lo < WRAP && end < WRAP && extra != []
    ensures DecodeAt(Encode(lo, end, n) + extra, base).None?
  {
    Assoc(WriteWords([lo, end]), Write(n), extra);
    WordsReadBack([lo, end], Write(n) + extra);
    TreeReadsBack(n, extra, (base - lo) % WRAP);
  }
}
