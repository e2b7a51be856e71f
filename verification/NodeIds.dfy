/** Node identities (src/ast/mod.rs): blocks of ids drawn from one counter, the walk over a tree's
    ids, renumbering, and the duplicate check. */
module NodeIds {

  const CARRIER_IDS: nat := 12
  const SYNTH: nat := 0

  /** Whether a node carries an id, and how many it reserves. */
  datatype Kind = Carrier | Numbered | Unnumbered

  /** A syntax tree. `content` is all the rest of a node; `kids` are the parts the id walk enters, in
      its order, and `hidden` the parts it skips (binding targets), whose ids it never sees. */
  datatype Node = Node(kind: Kind, content: nat, span: nat, id: nat, kids: seq<Node>, hidden: seq<Node>)

  function IdWidth(k: Kind): nat {
    match k case Carrier => CARRIER_IDS case Numbered => 1 case Unnumbered => 0
  }

  // ----- the counter, with its 32-bit wrap -----

  const WRAP: nat := 0x1_0000_0000

  type U32 = n: nat | n < WRAP

  function Sum(widths: seq<U32>): nat {
    if widths == [] then 0 else Sum(widths[..|widths| - 1]) + widths[|widths| - 1]
  }

  /** Where block `i` would start, if the counter had no wrap, when blocks of these widths are drawn in
      this order. */
  function BlockStart(widths: seq<U32>, i: nat): nat
    requires i <= |widths|
  {
    1 + Sum(widths[..i])
  }

  /** Id `k` of block `i`, as the 32-bit counter gives it. */
  function BlockId(widths: seq<U32>, i: nat, k: nat): U32
    requires i < |widths|
  {
    (BlockStart(widths, i) + k) % WRAP
  }

  /** Id `k` of block `d` is not the synthetic id, and no other drawn id equals it. */
  ghost predicate Unique(widths: seq<U32>, d: nat, k: nat)
    requires d < |widths|
  {
    && BlockId(widths, d, k) != SYNTH
    && forall j, l ::
         0 <= j < |widths| && 0 <= l < widths[j] && (j != d || l != k) ==> BlockId(widths, j, l) != BlockId(widths, d, k)
  }

  /** No two ids of the drawn blocks are equal, and none is the synthetic id. */
  ghost predicate AllDistinct(widths: seq<U32>) {
    forall d, k :: 0 <= d < |widths| && 0 <= k < widths[d] ==> Unique(widths, d, k)
  }

  lemma {:induction false} StartsAscend(widths: seq<U32>, i: nat, j: nat)
    requires i < j <= |widths|
    ensures BlockStart(widths, i) + widths[i] <= BlockStart(widths, j)
    decreases j
  {
    var front := widths[..j];
    assert front[..|front| - 1] == widths[..j - 1];
    if i < j - 1 {
      StartsAscend(widths, i, j - 1);
    }
  }

  /** Every position below the end of the first `n` blocks lies in one of them. */
  lemma {:induction false} BlockOf(widths: seq<U32>, n: nat, t: nat) returns (i: nat, k: nat)
    requires n <= |widths| && 1 <= t < BlockStart(widths, n)
    ensures i < n && k < widths[i] && BlockStart(widths, i) + k == t
    decreases n
  {
    assert widths[..0] == [];
    assert widths[..n][..n - 1] == widths[..n - 1];
    if t >= BlockStart(widths, n - 1) {
      i, k := n - 1, t - BlockStart(widths, n - 1);
    } else {
      i, k := BlockOf(widths, n - 1, t);
    }
  }

  lemma PositionsDiffer(widths: seq<U32>, d: nat, k: nat, j: nat, l: nat)
    requires d < |widths| && k < widths[d] && j < |widths| && l < widths[j] && (j != d || l != k)
    ensures BlockStart(widths, j) + l != BlockStart(widths, d) + k
    ensures BlockStart(widths, j) + l < BlockStart(widths, |widths|)
  {
    StartsAscend(widths, j, |widths|);
    if j < d { StartsAscend(widths, j, d); } else if d < j { StartsAscend(widths, d, j); }
  }

  /** A position a whole turn of the counter away, if drawn, gives the same id. */
  lemma SharedId(widths: seq<U32>, d: nat, k: nat, t: nat)
    requires d < |widths| && k < widths[d] && 1 <= t < BlockStart(widths, |widths|)
    requires t != BlockStart(widths, d) + k && t % WRAP == (BlockStart(widths, d) + k) % WRAP
    ensures !Unique(widths, d, k)
  {
    var j, l := BlockOf(widths, |widths|, t);
    assert BlockId(widths, j, l) == BlockId(widths, d, k);
  }

  /** An id is told apart from SYNTH and from every other id ever drawn exactly when it was drawn before
      the counter passed 2^32 and the counter has not come round to it again. */
  lemma IdIsUnique(widths: seq<U32>, d: nat, k: nat)
    requires d < |widths| && k < widths[d]
    ensures var at := BlockStart(widths, d) + k;
            Unique(widths, d, k) <==> at < WRAP && BlockStart(widths, |widths|) <= at + WRAP
  {
    var at, end := BlockStart(widths, d) + k, BlockStart(widths, |widths|);
    StartsAscend(widths, d, |widths|);
    if at > WRAP {
      SharedId(widths, d, k, at - WRAP);
    } else if at == WRAP {
      assert BlockId(widths, d, k) == SYNTH;
    } else if end > at + WRAP {
      SharedId(widths, d, k, at + WRAP);
    } else {
      forall j, l | 0 <= j < |widths| && 0 <= l < widths[j] && (j != d || l != k)
        ensures BlockId(widths, j, l) != BlockId(widths, d, k)
      {
        PositionsDiffer(widths, d, k, j, l);
      }
    }
  }

  /** The same for a whole block. */
  lemma BlockIsUnique(widths: seq<U32>, d: nat)
    requires d < |widths| && widths[d] > 0
    ensures (forall k :: 0 <= k < widths[d] ==> Unique(widths, d, k)) <==>
            && BlockStart(widths, d) + widths[d] <= WRAP
            && BlockStart(widths, |widths|) <= BlockStart(widths, d) + WRAP
  {
    IdIsUnique(widths, d, 0);
    IdIsUnique(widths, d, widths[d] - 1);
    forall k | 0 <= k < widths[d]
      ensures var at := BlockStart(widths, d) + k;
              Unique(widths, d, k) <==> at < WRAP && BlockStart(widths, |widths|) <= at + WRAP
    {
      IdIsUnique(widths, d, k);
    }
  }

  /** The ids drawn are all distinct and none is synthetic exactly as long as the counter has not
      passed 2^32. */
  lemma DistinctUntilWrap(widths: seq<U32>)
    ensures AllDistinct(widths) <==> BlockStart(widths, |widths|) <= WRAP
  {
    if BlockStart(widths, |widths|) <= WRAP {
      forall d, k | 0 <= d < |widths| && 0 <= k < widths[d] ensures Unique(widths, d, k) {
        StartsAscend(widths, d, |widths|);
        IdIsUnique(widths, d, k);
      }
    } else {
      var i, k := BlockOf(widths, |widths|, WRAP);
      assert !Unique(widths, i, k);
    }
  }

  /** The range between two readings of the counter holds exactly the ids drawn in between, as long as
      the counter has not passed 2^32. */
  lemma RangeIsWhatWasDrawn(widths: seq<U32>, from: nat, t: nat)
    requires from <= |widths| && BlockStart(widths, |widths|) <= WRAP
    ensures BlockStart(widths, from) <= t < BlockStart(widths, |widths|) <==>
            exists d, k :: from <= d < |widths| && 0 <= k < widths[d] && BlockId(widths, d, k) == t
  {
    if BlockStart(widths, from) <= t < BlockStart(widths, |widths|) {
      var d, k := BlockOf(widths, |widths|, t);
      if d < from { StartsAscend(widths, d, from); }
      assert BlockId(widths, d, k) == t;
    }
    if d, k :| from <= d < |widths| && 0 <= k < widths[d] && BlockId(widths, d, k) == t {
      StartsAscend(widths, d, |widths|);
      if from < d { StartsAscend(widths, from, d); }
    }
  }

  /** Later draws leave the ids of earlier ones as they are. */
  lemma DrawsStay(widths: seq<U32>, more: seq<U32>, d: nat, k: nat)
    requires widths <= more && d < |widths|
    ensures BlockId(more, d, k) == BlockId(widths, d, k)
  {
    assert more[..d] == widths[..d];
  }

  // ----- the walk -----

  /** An id the walk meets, with its width and its node's span. */
  datatype Entry = Entry(id: nat, width: nat, span: nat)

  function OwnEntry(n: Node): seq<Entry> {
    if n.kind.Unnumbered? then [] else [Entry(n.id, IdWidth(n.kind), n.span)]
  }

  function Walk(n: Node): seq<Entry>
    decreases n
  {
    OwnEntry(n) + WalkAll(n.kids)
  }

  function WalkAll(ns: seq<Node>): seq<Entry>
    decreases ns
  {
    if ns == [] then [] else Walk(ns[0]) + WalkAll(ns[1..])
  }

  /** The tree without the ids the walk meets; what it skips is kept, ids and all. */
  ghost function Erase(n: Node): Node
    decreases n
  {
    n.(id := if n.kind.Unnumbered? then n.id else 0, kids := EraseAll(n.kids))
  }

  ghost function EraseAll(ns: seq<Node>): seq<Node>
    decreases ns
  {
    if ns == [] then [] else [Erase(ns[0])] + EraseAll(ns[1..])
  }

  /** The same tree but for the ids the walk meets. */
  ghost predicate OnlyIdsDiffer(n: Node, m: Node)
    decreases n
  {
    && n.kind == m.kind && n.content == m.content && n.span == m.span && n.hidden == m.hidden
    && (n.kind == Unnumbered ==> n.id == m.id)
    && |n.kids| == |m.kids| && forall i :: 0 <= i < |n.kids| ==> OnlyIdsDiffer(n.kids[i], m.kids[i])
  }

  /** Erasing the ids the walk meets loses nothing else. */
  lemma {:induction false} ErasedAlike(n: Node, m: Node)
    ensures Erase(n) == Erase(m) <==> OnlyIdsDiffer(n, m)
    decreases n
  {
    if |n.kids| == |m.kids| {
      forall i | 0 <= i < |n.kids| ensures Erase(n.kids[i]) == Erase(m.kids[i]) <==> OnlyIdsDiffer(n.kids[i], m.kids[i]) {
        ErasedAlike(n.kids[i], m.kids[i]);
      }
    }
    EraseAllAt(n.kids);
    EraseAllAt(m.kids);
    assert Erase(n) == Erase(m) ==> EraseAll(n.kids) == EraseAll(m.kids);
  }

  lemma {:induction false} EraseAllAt(ns: seq<Node>)
    ensures |EraseAll(ns)| == |ns| && forall i :: 0 <= i < |ns| ==> EraseAll(ns)[i] == Erase(ns[i])
  {
    if ns != [] { EraseAllAt(ns[1..]); }
  }

  /** The entries are draws of the counter, `ds` in the order drawn, none before draw `from`. */
  ghost predicate AreDraws(entries: seq<Entry>, ds: seq<nat>, drawn: seq<U32>, from: nat) {
    && |ds| == |entries|
    && (forall i :: 0 <= i < |ds| ==> from <= ds[i] < |drawn| && IsDraw(entries[i], drawn, ds[i]))
    && (forall i, j :: 0 <= i < j < |ds| ==> ds[i] < ds[j])
  }

  ghost predicate IsDraw(e: Entry, drawn: seq<U32>, d: nat)
    requires d < |drawn|
  {
    drawn[d] == e.width && e.width > 0 && e.id == BlockId(drawn, d, 0)
  }

  lemma DrawsConcat(a: seq<Entry>, da: seq<nat>, drawn: seq<U32>, from: nat,
                    b: seq<Entry>, db: seq<nat>, more: seq<U32>)
    requires AreDraws(a, da, drawn, from) && AreDraws(b, db, more, |drawn|) && drawn <= more && from <= |drawn|
    ensures AreDraws(a + b, da + db, more, from)
  {
    forall i | 0 <= i < |da| ensures IsDraw(a[i], more, da[i]) {
      DrawsStay(drawn, more, da[i], 0);
    }
  }

  /** How many ids a node reserves. */
  lemma WidthsAre()
    ensures IdWidth(Carrier) == 12 && IdWidth(Numbered) == 1 && IdWidth(Unnumbered) == 0
  {
  }

  /** `m` is `n` or lies in a part of it the walk enters. */
  ghost predicate Reaches(n: Node, m: Node)
    decreases n
  {
    n == m || exists i :: 0 <= i < |n.kids| && Reaches(n.kids[i], m)
  }

  lemma {:induction false} WalkAllAt(ns: seq<Node>, i: nat, e: Entry)
    requires i < |ns| && e in Walk(ns[i])
    ensures e in WalkAll(ns)
  {
    if i > 0 { WalkAllAt(ns[1..], i - 1, e); }
  }

  lemma {:induction false} WalkAllFrom(ns: seq<Node>, e: Entry) returns (i: nat)
    requires e in WalkAll(ns)
    ensures i < |ns| && e in Walk(ns[i])
  {
    if e in Walk(ns[0]) {
      i := 0;
    } else {
      var j := WalkAllFrom(ns[1..], e);
      i := j + 1;
    }
  }

  /** The walk meets every node with an id that can be reached. */
  lemma {:induction false} WalkMeets(n: Node, m: Node)
    requires Reaches(n, m) && !m.kind.Unnumbered?
    ensures Entry(m.id, if m.kind.Carrier? then 12 else 1, m.span) in Walk(n)
    decreases n
  {
    if n != m {
      var i :| 0 <= i < |n.kids| && Reaches(n.kids[i], m);
      WalkMeets(n.kids[i], m);
      WalkAllAt(n.kids, i, Entry(m.id, IdWidth(m.kind), m.span));
    }
  }

  /** And nothing else. */
  lemma {:induction false} WalkMeetsOnly(n: Node, e: Entry) returns (m: Node)
    requires e in Walk(n)
    ensures Reaches(n, m) && !m.kind.Unnumbered? && e == Entry(m.id, if m.kind.Carrier? then 12 else 1, m.span)
    decreases n
  {
    if e in OwnEntry(n) {
      m := n;
    } else {
      var i := WalkAllFrom(n.kids, e);
      m := WalkMeetsOnly(n.kids[i], e);
    }
  }

  /** Each once: a node before its parts, and the parts in order. */
  lemma {:induction false} WalkInOrder(n: Node, a: seq<Node>, b: seq<Node>)
    ensures |Walk(n)| == |WalkAll(n.kids)| + (if n.kind.Unnumbered? then 0 else 1)
    ensures Walk(n)[|Walk(n)| - |WalkAll(n.kids)|..] == WalkAll(n.kids)
    ensures WalkAll(a + b) == WalkAll(a) + WalkAll(b)
    ensures WalkAll([n]) == Walk(n) && WalkAll([]) == []
  {
    assert [n][1..] == [] && Walk(n) + [] == Walk(n);
    if a == [] {
      assert a + b == b;
    } else {
      assert (a + b)[1..] == a[1..] + b;
      WalkInOrder(n, a[1..], b);
    }
  }

  // ----- renumbering -----

  /** The process-wide counter, with everything drawn from it so far. Between two draws of one caller
      the others may draw any number of blocks. */
  class Counter {
    var next: U32
    ghost var drawn: seq<U32>

    ghost predicate Valid()
      reads this
    {
      next == BlockStart(drawn, |drawn|) % WRAP
    }

    constructor ()
      ensures Valid() && drawn == []
    {
      next, drawn := 1, [];
    }

    /** One atomic addition, modulo 2^32. */
    method Add(n: U32) returns (before: U32)
      requires Valid()
      modifies this
      ensures Valid() && drawn == old(drawn) + [n] && before == BlockId(drawn, |old(drawn)|, 0)
    {
      before := next;
      next := (next + n) % WRAP;
      OneMoreDraw(drawn, n);
      drawn := drawn + [n];
    }

    method OthersDraw()
      requires Valid()
      modifies this
      ensures Valid() && old(drawn) <= drawn
    {
      var widths: seq<U32> := *;
      for i := 0 to |widths|
        invariant Valid() && old(drawn) <= drawn
      {
        var _ := Add(widths[i]);
      }
    }

    /** A block of `n` ids is draw `d`. */
    method FreshBlock(n: U32) returns (id: U32, ghost d: nat)
      requires Valid()
      modifies this
      ensures Valid() && old(drawn) <= drawn && |old(drawn)| <= d < |drawn|
      ensures drawn[d] == n && id == BlockId(drawn, d, 0)
    {
      OthersDraw();
      d := |drawn|;
      id := Add(n);
    }

    /** Give every id the walk meets a draw of its own, in walk order; change nothing else. */
    method Renumber(n: Node) returns (r: Node, ghost ds: seq<nat>)
      requires Valid()
      modifies this
      ensures Valid() && old(drawn) <= drawn
      ensures Erase(r) == Erase(n) && |Walk(r)| == |Walk(n)|
      ensures AreDraws(Walk(r), ds, drawn, |old(drawn)|)
      decreases n
    {
      r, ds := n, [];
      if !n.kind.Unnumbered? {
        var id, d := FreshBlock(IdWidth(n.kind));
        r, ds := r.(id := id), [d];
      }
      ghost var mid := drawn;
      var kids, rest := RenumberAll(n.kids);
      DrawsConcat(OwnEntry(r), ds, mid, |old(drawn)|, WalkAll(kids), rest, drawn);
      r, ds := r.(kids := kids), ds + rest;
    }

    method RenumberAll(ns: seq<Node>) returns (r: seq<Node>, ghost ds: seq<nat>)
      requires Valid()
      modifies this
      ensures Valid() && old(drawn) <= drawn
      ensures EraseAll(r) == EraseAll(ns) && |WalkAll(r)| == |WalkAll(ns)|
      ensures AreDraws(WalkAll(r), ds, drawn, |old(drawn)|)
      decreases ns
    {
      if ns == [] { return [], []; }
      var first, ds1 := Renumber(ns[0]);
      ghost var mid := drawn;
      var rest, ds2 := RenumberAll(ns[1..]);
      DrawsConcat(Walk(first), ds1, mid, |old(drawn)|, WalkAll(rest), ds2, drawn);
      r, ds := [first] + rest, ds1 + ds2;
      assert r[1..] == rest;
    }
  }

  lemma OneMoreDraw(drawn: seq<U32>, n: U32)
    ensures BlockStart(drawn + [n], |drawn| + 1) == BlockStart(drawn, |drawn|) + n
    ensures BlockStart(drawn + [n], |drawn|) == BlockStart(drawn, |drawn|)
  {
    var more := drawn + [n];
    assert more[..|drawn|] == drawn[..|drawn|] == drawn;
    assert more[..|drawn| + 1] == more;
  }

  /** The `k`th node synthesized for a carrier whose id is `id`. */
  function CarrierChild(id: nat, k: nat): nat {
    (id + k) % WRAP
  }

  /** Every id a renumbered tree holds, the ones its carriers reserve included, is an id of its own draw,
      with the exact condition under which nothing else has it. */
  lemma RenumberedIsUnique(entries: seq<Entry>, ds: seq<nat>, drawn: seq<U32>, from: nat, i: nat, k: nat)
    requires AreDraws(entries, ds, drawn, from) && i < |entries| && k < entries[i].width
    ensures CarrierChild(entries[i].id, k) == BlockId(drawn, ds[i], k)
    ensures var at := BlockStart(drawn, ds[i]) + k;
            Unique(drawn, ds[i], k) <==> at < WRAP && BlockStart(drawn, |drawn|) <= at + WRAP
  {
    assert IsDraw(entries[i], drawn, ds[i]);
    IdIsUnique(drawn, ds[i], k);
  }

  // ----- duplicates -----

  /** The entries whose id appeared before, SYNTH apart. */
  function Duplicates(entries: seq<Entry>): seq<Entry> {
    if entries == [] then []
    else
      var front, last := entries[..|entries| - 1], entries[|entries| - 1];
      Duplicates(front) + if last.id != SYNTH && Appears(front, last.id) then [last] else []
  }

  predicate Appears(entries: seq<Entry>, id: nat) {
    exists i :: 0 <= i < |entries| && entries[i].id == id
  }

  /** The filter through a set of ids seen. */
  method DuplicateIds(n: Node) returns (dups: seq<Entry>)
    ensures dups == Duplicates(Walk(n))
  {
    var entries := Walk(n);
    var seen: set<nat> := {};
    dups := [];
    for k := 0 to |entries|
      invariant dups == Duplicates(entries[..k])
      invariant HasSeen(seen, entries[..k])
    {
      var e := entries[k];
      OneMoreEntry(seen, entries, k);
      if e.id != SYNTH && e.id in seen { dups := dups + [e]; }
      seen := seen + {e.id};
    }
    assert entries[..|entries|] == entries;
  }

  ghost predicate HasSeen(seen: set<nat>, entries: seq<Entry>) {
    forall id :: id in seen <==> Appears(entries, id)
  }

  lemma SeenNext(seen: set<nat>, entries: seq<Entry>, k: nat)
    requires k < |entries| && HasSeen(seen, entries[..k])
    ensures HasSeen(seen + {entries[k].id}, entries[..k + 1])
  {
    AppearsNext(entries, k);
  }

  lemma OneMoreEntry(seen: set<nat>, entries: seq<Entry>, k: nat)
    requires k < |entries| && HasSeen(seen, entries[..k])
    ensures HasSeen(seen + {entries[k].id}, entries[..k + 1])
    ensures Duplicates(entries[..k + 1]) ==
            Duplicates(entries[..k]) + if entries[k].id != SYNTH && entries[k].id in seen then [entries[k]] else []
  {
    SeenNext(seen, entries, k);
    DuplicatesNext(entries, k);
  }

  lemma DuplicatesNext(entries: seq<Entry>, k: nat)
    requires k < |entries|
    ensures Duplicates(entries[..k + 1]) ==
            Duplicates(entries[..k])
            + if entries[k].id != SYNTH && Appears(entries[..k], entries[k].id) then [entries[k]] else []
  {
    assert entries[..k + 1][..k] == entries[..k];
  }

  lemma AppearsNext(entries: seq<Entry>, k: nat)
    requires k < |entries|
    ensures forall id :: Appears(entries[..k + 1], id) <==> Appears(entries[..k], id) || id == entries[k].id
  {
    forall id ensures Appears(entries[..k + 1], id) <==> Appears(entries[..k], id) || id == entries[k].id {
      if Appears(entries[..k], id) {
        var i :| 0 <= i < k && entries[..k][i].id == id;
        assert entries[..k + 1][i].id == id;
      }
      if id == entries[k].id { assert entries[..k + 1][k].id == id; }
      if Appears(entries[..k + 1], id) {
        var i :| 0 <= i < k + 1 && entries[..k + 1][i].id == id;
        assert i < k ==> entries[..k][i].id == id;
      }
    }
  }

  /** An entry with this id and content comes after another with the same id. */
  ghost predicate Repeats(entries: seq<Entry>, e: Entry) {
    exists i, k :: 0 <= i < k < |entries| && entries[k] == e && entries[i].id == e.id
  }

  lemma RepeatsNext(front: seq<Entry>, last: Entry, e: Entry)
    ensures Repeats(front + [last], e) <==> Repeats(front, e) || (last == e && Appears(front, e.id))
  {
    var all, n := front + [last], |front|;
    if Repeats(front, e) {
      var i, k :| 0 <= i < k < n && front[k] == e && front[i].id == e.id;
      assert all[k] == e && all[i].id == e.id;
    }
    if last == e && Appears(front, e.id) {
      var i :| 0 <= i < n && front[i].id == e.id;
      assert all[n] == e && all[i].id == e.id;
    }
    if Repeats(all, e) {
      var i, k :| 0 <= i < k < |all| && all[k] == e && all[i].id == e.id;
      assert front[i].id == e.id;
      if k < n { assert front[k] == e; }
    }
  }

  /** What the check lists: the entries whose id, not SYNTH, an earlier entry has. */
  lemma {:induction false} DuplicatesAre(entries: seq<Entry>, e: Entry)
    ensures e in Duplicates(entries) <==> e.id != 0 && Repeats(entries, e)
  {
    if entries != [] {
      var front, last := entries[..|entries| - 1], entries[|entries| - 1];
      DuplicatesAre(front, e);
      RepeatsNext(front, last, e);
      assert front + [last] == entries;
    }
  }

  ghost function WithId(entries: seq<Entry>, id: nat): nat {
    if entries == [] then 0 else WithId(entries[..|entries| - 1], id) + if entries[|entries| - 1].id == id then 1 else 0
  }

  /** Every occurrence of an id but its first is listed. */
  lemma {:induction false} DuplicatesCount(entries: seq<Entry>, id: nat)
    requires id != SYNTH
    ensures WithId(Duplicates(entries), id) == if WithId(entries, id) == 0 then 0 else WithId(entries, id) - 1
    ensures WithId(entries, id) > 0 <==> Appears(entries, id)
    ensures WithId(Duplicates(entries), SYNTH) == 0
  {
    if entries != [] {
      var n := |entries| - 1;
      var front, last := entries[..n], entries[n];
      DuplicatesCount(front, id);
      AppearsNext(entries, n);
      assert entries[..n + 1] == entries;
      var dups := Duplicates(front);
      assert (dups + [last])[..|dups|] == dups;
      assert dups + [] == dups;
    }
  }

  /** The check is silent exactly when no two walked nodes share an id, SYNTH apart. */
  lemma {:induction false} NoDuplicatesIffDistinct(entries: seq<Entry>)
    ensures Duplicates(entries) == [] <==>
            forall i, j :: 0 <= i < j < |entries| && entries[i].id != SYNTH ==> entries[i].id != entries[j].id
  {
    if entries != [] {
      var n := |entries| - 1;
      var front, last := entries[..n], entries[n];
      NoDuplicatesIffDistinct(front);
      if last.id != SYNTH && Appears(front, last.id) {
        var i :| 0 <= i < n && front[i].id == last.id;
        assert entries[i].id == entries[n].id;
      } else {
        forall i | 0 <= i < n && entries[i].id != SYNTH ensures entries[i].id != last.id {
          assert front[i].id == entries[i].id;
        }
        assert forall i, j :: 0 <= i < j < n ==> entries[i] == front[i] && entries[j] == front[j];
      }
    }
  }

  /** The counter came round from draw `c` to exactly draw `d`, and not at SYNTH. */
  ghost predicate CameRound(drawn: seq<U32>, c: nat, d: nat)
    requires c < |drawn| && d < |drawn|
  {
    (BlockStart(drawn, d) - BlockStart(drawn, c)) % WRAP == 0 && BlockStart(drawn, c) % WRAP != SYNTH
  }

  /** A renumbered tree passes the duplicate check exactly when the counter did not come round from one of
      its draws to another. */
  lemma RenumberedDuplicatesIff(entries: seq<Entry>, ds: seq<nat>, drawn: seq<U32>, from: nat)
    requires AreDraws(entries, ds, drawn, from)
    ensures Duplicates(entries) == [] <==> forall i, j :: 0 <= i < j < |ds| ==> !CameRound(drawn, ds[i], ds[j])
  {
    forall i, j | 0 <= i < j < |ds|
      ensures CameRound(drawn, ds[i], ds[j]) <==> entries[i].id == entries[j].id && entries[i].id != SYNTH
    {
      assert IsDraw(entries[i], drawn, ds[i]) && IsDraw(entries[j], drawn, ds[j]);
      WholeTurns(BlockStart(drawn, ds[i]), BlockStart(drawn, ds[j]));
    }
    NoDuplicatesIffDistinct(entries);
  }

  lemma WholeTurns(p: nat, q: nat)
    ensures (q - p) % WRAP == 0 <==> p % WRAP == q % WRAP
  {
  }

  /** So it does whenever fewer than 2^32 ids were drawn, by anyone, from its first draw to its last. */
  lemma RenumberedHasNoDuplicates(entries: seq<Entry>, ds: seq<nat>, drawn: seq<U32>, from: nat)
    requires AreDraws(entries, ds, drawn, from)
    requires entries != [] ==> BlockStart(drawn, ds[|ds| - 1]) < BlockStart(drawn, ds[0]) + WRAP
    ensures Duplicates(entries) == []
  {
    forall i, j | 0 <= i < j < |ds| ensures !CameRound(drawn, ds[i], ds[j]) {
      assert IsDraw(entries[i], drawn, ds[i]);
      StartsAscend(drawn, ds[i], ds[j]);
      if 0 < i { StartsAscend(drawn, ds[0], ds[i]); }
      if j < |ds| - 1 { StartsAscend(drawn, ds[j], ds[|ds| - 1]); }
    }
    RenumberedDuplicatesIff(entries, ds, drawn, from);
  }

  lemma TurnsApart(p: nat, q: nat)
    requires p < q < p + WRAP
    ensures p % WRAP != q % WRAP
  {
  }
}
