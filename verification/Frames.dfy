/** The cheapest accepted context of every nonterminal (`frames` of src/conformance.rs): a
    best-first search over the grammar, filtered by the hand parser, which is an arbitrary
    predicate on terminal names here. */
module Frames {
  import opened Wrappers
  import opened Grammar

  /** A `prefix X suffix` context, as terminal names. */
  datatype Frame = Frame(prefix: seq<string>, suffix: seq<string>)

  /** A queued context of `name`, keyed by the length of its minimal sentence. */
  datatype Entry = Entry(cost: nat, name: string, frame: Frame)

  /** How a frame was found: when, and from which parent slot. */
  datatype Origin = Origin(order: nat, p: string, k: nat, i: nat)

  type Parser = seq<string> -> bool

  // ----- contexts: what the grammar itself says -----

  /** A path from the root down to one symbol, with a derivation of every symbol beside it. */
  datatype Spine =
    | Top
    | Down(up: Spine, parent: string, alt: seq<Sym>, i: nat, left: seq<Tree>, right: seq<Tree>)

  ghost predicate IsSpine(rules: Rules, root: string, x: string, sp: Spine)
    decreases sp
  {
    match sp
    case Top => x == root
    case Down(up, parent, alt, i, left, right) =>
      && IsSpine(rules, root, parent, up)
      && parent in rules && alt in rules[parent] && i < |alt| && alt[i] == N(x)
      && Matches(rules, alt[..i], left) && Matches(rules, alt[i + 1..], right)
  }

  ghost function FrameOf(sp: Spine): Frame {
    match sp
    case Top => Frame([], [])
    case Down(up, _, _, _, left, right) =>
      Frame(FrameOf(up).prefix + YieldAll(left), YieldAll(right) + FrameOf(up).suffix)
  }

  /** root =>* prefix X suffix. */
  ghost predicate IsContext(rules: Rules, root: string, x: string, f: Frame) {
    exists sp :: IsSpine(rules, root, x, sp) && FrameOf(sp) == f
  }

  // ----- the search -----

  /** Every nonterminal of `syms` has a shortest sentence. */
  ghost predicate AllKnown(min: Sentences, syms: seq<Sym>) {
    forall i :: 0 <= i < |syms| && syms[i].N? ==> syms[i].n in min
  }

  /** Every nonterminal that an alternative of `p` names has a shortest sentence. */
  ghost predicate Usable(rules: Rules, min: Sentences, p: string) {
    p in rules && forall k :: 0 <= k < |rules[p]| ==> AllKnown(min, rules[p][k])
  }

  function Sentence(min: Sentences, x: string, f: Frame): seq<string>
    requires x in min
  {
    f.prefix + min[x] + f.suffix + ["EOF"]
  }

  function Cost(min: Sentences, x: string, f: Frame): nat
    requires x in min
  {
    |f.prefix| + |min[x]| + |f.suffix|
  }

  /** `syms` minimally expanded; every symbol of a productive grammar is. */
  ghost function Spelled(syms: seq<Sym>, min: Sentences): seq<string> {
    var r := Expand(syms, min);
    if r.Some? then r.value else []
  }

  /** The frame of `alt[i]` inside a node framed by `f`, every sibling minimally expanded. */
  ghost function Extend(min: Sentences, f: Frame, alt: seq<Sym>, i: nat): Frame
    requires i < |alt|
  {
    Frame(f.prefix + Spelled(alt[..i], min), Spelled(alt[i + 1..], min) + f.suffix)
  }

  lemma {:induction false} KnownExpands(min: Sentences, syms: seq<Sym>)
    requires AllKnown(min, syms)
    ensures Expand(syms, min).Some?
  {
    if syms != [] {
      assert syms[0].N? ==> syms[0].n in min;
      assert AllKnown(min, syms[1..]);
      KnownExpands(min, syms[1..]);
    }
  }

  /** An alternative expands to its left part, one slot and its right part. */
  lemma SlotExpands(min: Sentences, alt: seq<Sym>, i: nat)
    requires AllKnown(min, alt) && i < |alt| && alt[i].N?
    ensures alt[i].n in min && Expand(alt, min).Some?
    ensures Expand(alt[..i], min).Some? && Expand(alt[i + 1..], min).Some?
    ensures |Expand(alt, min).value| ==
            |Expand(alt[..i], min).value| + |min[alt[i].n]| + |Expand(alt[i + 1..], min).value|
  {
    KnownExpands(min, alt[..i]);
    KnownExpands(min, alt[i + 1..]);
    ExpandOne(alt[i], min);
    ExpandConcat(alt[..i], [alt[i]], min);
    ExpandConcat(alt[..i] + [alt[i]], alt[i + 1..], min);
    assert alt[..i] + [alt[i]] + alt[i + 1..] == alt;
  }

  /** A child's minimal sentence is the parent's with one alternative spelled out, so it is no
      shorter. */
  lemma ExtendIsNoCheaper(rules: Rules, min: Sentences, p: string, f: Frame, k: nat, i: nat)
    requires Usable(rules, min, p) && Closed(rules, min) && p in min && k < |rules[p]|
    requires i < |rules[p][k]| && rules[p][k][i].N?
    ensures rules[p][k][i].n in min
    ensures Cost(min, rules[p][k][i].n, Extend(min, f, rules[p][k], i)) >= Cost(min, p, f)
  {
    SlotExpands(min, rules[p][k], i);
    assert Settled(rules, min, p, |rules[p]|);
  }

  lemma ExtendIsContext(rules: Rules, root: string, min: Sentences, p: string, f: Frame, k: nat, i: nat)
    requires Usable(rules, min, p) && Sound(rules, min) && k < |rules[p]|
    requires i < |rules[p][k]| && rules[p][k][i].N? && IsContext(rules, root, p, f)
    ensures IsContext(rules, root, rules[p][k][i].n, Extend(min, f, rules[p][k], i))
  {
    var alt := rules[p][k];
    SlotExpands(min, alt, i);
    ExpandIsDerived(rules, min, alt[..i]);
    ExpandIsDerived(rules, min, alt[i + 1..]);
    var up :| IsSpine(rules, root, p, up) && FrameOf(up) == f;
    var left :| Matches(rules, alt[..i], left) && YieldAll(left) == Expand(alt[..i], min).value;
    var right :| Matches(rules, alt[i + 1..], right) && YieldAll(right) == Expand(alt[i + 1..], min).value;
    var sp := Down(up, p, alt, i, left, right);
    assert IsSpine(rules, root, alt[i].n, sp) && FrameOf(sp) == Extend(min, f, alt, i);
  }

  /** The problem instance: fixed through a search. */
  datatype Search = Search(rules: Rules, root: string, min: Sentences, parser: Parser) {

    ghost predicate Valid() {
      Closed(rules, min) && Sound(rules, min) && root in min
    }

    ghost predicate Accepted(x: string, f: Frame) {
      x in min && parser(Sentence(min, x, f))
    }

    /** Slot `i` of alternative `k` of `p` holds a nonterminal. */
    ghost predicate Slot(p: string, k: nat, i: nat) {
      && p in rules && p in min && k < |rules[p]|
      && i < |rules[p][k]| && rules[p][k][i].N? && rules[p][k][i].n in min
    }

    ghost function Child(p: string, k: nat, i: nat): string
      requires Slot(p, k, i)
    {
      rules[p][k][i].n
    }

    /** The frame of a child slot under a parent framed by `f`. */
    ghost function ChildFrame(p: string, k: nat, i: nat, f: Frame): Frame
      requires Slot(p, k, i)
    {
      Extend(min, f, rules[p][k], i)
    }

    ghost function ChildEntry(p: string, k: nat, i: nat, f: Frame): Entry
      requires Slot(p, k, i)
    {
      var c := ChildFrame(p, k, i, f);
      Entry(Cost(min, Child(p, k, i), c), Child(p, k, i), c)
    }

    /** A frame table in which every frame is a real accepted context, the root's or a child frame
        of a framed parent. */
    ghost predicate Justified(framed: map<string, Frame>) {
      && (forall x :: x in framed ==>
            x in min && Usable(rules, min, x) && Accepted(x, framed[x]) && IsContext(rules, root, x, framed[x]))
      && (framed != map[] ==> root in framed && framed[root] == Frame([], []))
    }

    ghost predicate FromParent(framed: map<string, Frame>, x: string, f: Frame)
    {
      exists p, k: nat, i: nat ::
        Slot(p, k, i) && p in framed && Child(p, k, i) == x && ChildFrame(p, k, i, framed[p]) == f
    }

    /** What the search owes, for every accept/reject oracle: real accepted contexts, each obtained
        by extending a framed parent, complete and cheapest among the accepted extensions. */
    ghost predicate Solves(framed: map<string, Frame>)
    {
      && Justified(framed)
      && (root in framed <==> Accepted(root, Frame([], [])))
      && (forall x {:trigger FromParent(framed, x, framed[x])} ::
            x in framed && x != root ==> FromParent(framed, x, framed[x]))
      && (forall p, k: nat, i: nat :: p in framed && Slot(p, k, i) ==> Cheapest(framed, p, k, i))
    }

    /** An accepted child frame of framed `p` is beaten or met by the child's own frame. */
    ghost predicate Cheapest(framed: map<string, Frame>, p: string, k: nat, i: nat)
      requires Slot(p, k, i) && p in framed
    {
      var x := Child(p, k, i);
      var c := ChildFrame(p, k, i, framed[p]);
      Accepted(x, c) ==> x in framed && x in min && Cost(min, x, framed[x]) <= Cost(min, x, c)
    }

    /** `found` names the parent slot each frame was obtained from, and their order. */
    ghost predicate Ranked(framed: map<string, Frame>, found: map<string, Origin>, count: nat) {
      && found.Keys == framed.Keys
      && (forall x :: x in found ==> found[x].order < count)
      && (forall x {:trigger Sprung(framed, found, x)} :: x in framed && x != root ==> Sprung(framed, found, x))
    }

    ghost predicate Sprung(framed: map<string, Frame>, found: map<string, Origin>, x: string)
      requires x in framed && found.Keys == framed.Keys
    {
      var o := found[x];
      && Slot(o.p, o.k, o.i) && o.p in framed && found[o.p].order < o.order
      && Child(o.p, o.k, o.i) == x && ChildFrame(o.p, o.k, o.i, framed[o.p]) == framed[x]
    }

    lemma SprungStays(framed: map<string, Frame>, found: map<string, Origin>, n: string, f: Frame, o: Origin, x: string)
      requires found.Keys == framed.Keys && n !in framed && x in framed && Sprung(framed, found, x)
      ensures found[n := o].Keys == framed[n := f].Keys && Sprung(framed[n := f], found[n := o], x)
    {
      var p := found[x].p;
      assert framed[n := f][p] == framed[p] && found[n := o][p] == found[p];
      assert found[n := o].Keys == found.Keys + {n} && framed[n := f].Keys == framed.Keys + {n};
    }

    lemma NewSprung(framed: map<string, Frame>, found: map<string, Origin>, count: nat, n: string, f: Frame)
      returns (o: Origin)
      requires found.Keys == framed.Keys && forall x :: x in found ==> found[x].order < count
      requires n !in framed && (n == root || FromParent(framed, n, f))
      ensures o.order == count && found[n := o].Keys == framed[n := f].Keys
      ensures n == root || Sprung(framed[n := f], found[n := o], n)
    {
      o := Origin(count, n, 0, 0);
      if n != root {
        var p, k: nat, i: nat :| Slot(p, k, i) && p in framed && Child(p, k, i) == n && ChildFrame(p, k, i, framed[p]) == f;
        o := Origin(count, p, k, i);
        assert framed[n := f][p] == framed[p] && found[n := o][p] == found[p];
      }
      assert found[n := o].Keys == found.Keys + {n} && framed[n := f].Keys == framed.Keys + {n};
    }

    lemma RankedGrows(framed: map<string, Frame>, found: map<string, Origin>, count: nat, n: string, f: Frame)
      returns (found': map<string, Origin>)
      requires Ranked(framed, found, count) && n !in framed && (n == root || FromParent(framed, n, f))
      ensures Ranked(framed[n := f], found', count + 1)
    {
      var o := NewSprung(framed, found, count, n, f);
      found' := found[n := o];
      var framed' := framed[n := f];
      forall x | x in framed' && x != root ensures Sprung(framed', found', x) {
        if x != n {
          assert Sprung(framed, found, x);
          SprungStays(framed, found, n, f, o, x);
        }
      }
    }

    // ----- the loop's invariant -----

    ghost function RootEntry(): Entry
      requires root in min
    {
      Entry(|min[root]|, root, Frame([], []))
    }

    ghost predicate Queued(framed: map<string, Frame>, last: nat, e: Entry)
    {
      && root in min && e.name in rules && e.name in min && e.cost == Cost(min, e.name, e.frame) && last <= e.cost
      && IsContext(rules, root, e.name, e.frame)
      && (e == RootEntry() || FromParent(framed, e.name, e.frame))
    }

    ghost predicate Covered(framed: map<string, Frame>, queue: set<Entry>, p: string, k: nat, i: nat)
      requires Slot(p, k, i) && p in framed
    {
      ChildEntry(p, k, i, framed[p]) in queue || Cheapest(framed, p, k, i)
    }

    ghost predicate Settles(framed: map<string, Frame>, last: nat)
    {
      && Justified(framed)
      && (forall x :: x in framed ==> x in min && Cost(min, x, framed[x]) <= last)
      && (forall x {:trigger FromParent(framed, x, framed[x])} ::
            x in framed && x != root ==> FromParent(framed, x, framed[x]))
    }

    ghost predicate Inv(framed: map<string, Frame>, queue: set<Entry>, last: nat)
    {
      && Settles(framed, last)
      && (forall e :: e in queue ==> Queued(framed, last, e))
      && (forall p, k: nat, i: nat :: p in framed && Slot(p, k, i) ==> Covered(framed, queue, p, k, i))
      && root in min
      && (framed == map[] ==> queue == {RootEntry()} || (queue == {} && !Accepted(root, Frame([], []))))
    }

    lemma InitInv()
      requires Valid()
      ensures Inv(map[], {RootEntry()}, 0)
    {
      assert IsSpine(rules, root, root, Top) && FrameOf(Top) == Frame([], []);
    }

    lemma DoneSolves(framed: map<string, Frame>, last: nat)
      requires Inv(framed, {}, last)
      ensures Solves(framed)
    {
    }

    /** Popping an entry whose nonterminal has a frame, or that the oracle rejects. */
    lemma DropInv(framed: map<string, Frame>, queue: set<Entry>, last: nat, e: Entry)
      requires Inv(framed, queue, last)
      requires e in queue && forall q :: q in queue ==> e.cost <= q.cost
      requires e.name in framed || !Accepted(e.name, e.frame)
      ensures Inv(framed, queue - {e}, e.cost)
    {
      var rest := queue - {e};
      forall p, k: nat, i: nat | p in framed && Slot(p, k, i)
        ensures Covered(framed, rest, p, k, i)
      {
        assert Covered(framed, queue, p, k, i);
      }
    }

    /** The parent's frames stay frames when the table grows. */
    lemma FromParentGrows(framed: map<string, Frame>, n: string, f: Frame, x: string, g: Frame)
      requires n !in framed && FromParent(framed, x, g)
      ensures FromParent(framed[n := f], x, g)
    {
      var p, k: nat, i: nat :| Slot(p, k, i) && p in framed && Child(p, k, i) == x && ChildFrame(p, k, i, framed[p]) == g;
      assert framed[n := f][p] == framed[p];
    }

    /** What pushing the children of `e` leaves: the old entries, and the children not yet framed. */
    ghost predicate Pushed(framed: map<string, Frame>, queue: set<Entry>, e: Entry, queue': set<Entry>)
    {
      && queue <= queue'
      && (forall q :: q in queue' && q !in queue ==>
            exists k: nat, i: nat :: Slot(e.name, k, i) && q == ChildEntry(e.name, k, i, e.frame))
      && (forall k: nat, i: nat :: Slot(e.name, k, i) ==> PushedSlot(framed, e, queue', k, i))
    }

    /** [Pushed] part way: the slots of the alternatives before `k`, and those before `i` in `k`. */
    ghost predicate PushedTo(framed: map<string, Frame>, queue: set<Entry>, e: Entry, queue': set<Entry>, k: nat, i: nat) {
      && queue <= queue'
      && (forall q :: q in queue' && q !in queue ==>
            exists k: nat, i: nat :: Slot(e.name, k, i) && q == ChildEntry(e.name, k, i, e.frame))
      && (forall k', i' :: 0 <= k' < k && 0 <= i' && Slot(e.name, k', i') ==> PushedSlot(framed, e, queue', k', i'))
      && (forall i' :: 0 <= i' < i && Slot(e.name, k, i') ==> PushedSlot(framed, e, queue', k, i'))
    }

    ghost predicate PushedSlot(framed: map<string, Frame>, e: Entry, queue: set<Entry>, k: nat, i: nat)
      requires Slot(e.name, k, i)
    {
      || Child(e.name, k, i) in framed
      || Child(e.name, k, i) == e.name
      || ChildEntry(e.name, k, i, e.frame) in queue
    }

    lemma PushedStep(framed: map<string, Frame>, queue: set<Entry>, e: Entry, before: set<Entry>, after: set<Entry>, k: nat, i: nat)
      requires PushedTo(framed, queue, e, before, k, i) && before <= after
      requires forall q :: q in after && q !in before ==> Slot(e.name, k, i) && q == ChildEntry(e.name, k, i, e.frame)
      requires Slot(e.name, k, i) ==> PushedSlot(framed, e, after, k, i)
      ensures PushedTo(framed, queue, e, after, k, i + 1)
    {
    }

    lemma PushedAlt(framed: map<string, Frame>, queue: set<Entry>, e: Entry, queue': set<Entry>, k: nat)
      requires e.name in rules && k < |rules[e.name]|
      requires PushedTo(framed, queue, e, queue', k, |rules[e.name][k]|)
      ensures PushedTo(framed, queue, e, queue', k + 1, 0)
    {
    }

    lemma AcceptJustified(framed: map<string, Frame>, e: Entry)
      requires Justified(framed) && Usable(rules, min, e.name) && IsContext(rules, root, e.name, e.frame)
      requires e.name !in framed && Accepted(e.name, e.frame)
      requires framed == map[] ==> e.name == root && e.frame == Frame([], [])
      ensures Justified(framed[e.name := e.frame])
    {
    }

    lemma AcceptSettles(framed: map<string, Frame>, last: nat, e: Entry)
      requires Settles(framed, last) && Queued(framed, last, e) && Usable(rules, min, e.name)
      requires e.name !in framed && Accepted(e.name, e.frame)
      requires framed == map[] ==> e == RootEntry()
      ensures Settles(framed[e.name := e.frame], e.cost)
    {
      var framed' := framed[e.name := e.frame];
      AcceptJustified(framed, e);
      forall x | x in framed' && x != root
        ensures FromParent(framed', x, framed'[x])
      {
        assert framed != map[];
        assert x == e.name || FromParent(framed, x, framed[x]);
        FromParentGrows(framed, e.name, e.frame, x, framed'[x]);
      }
    }

    lemma AcceptQueued(framed: map<string, Frame>, queue: set<Entry>, last: nat, e: Entry, queue': set<Entry>, q: Entry)
      requires Valid() && Inv(framed, queue, last) && e in queue
      requires forall q :: q in queue ==> e.cost <= q.cost
      requires e.name !in framed && Accepted(e.name, e.frame)
      requires Pushed(framed, queue - {e}, e, queue') && q in queue' && Usable(rules, min, e.name)
      ensures Queued(framed[e.name := e.frame], e.cost, q)
    {
      assert Queued(framed, last, e);
      var framed' := framed[e.name := e.frame];
      if q in queue - {e} {
        assert Queued(framed, last, q);
        if q != RootEntry() { FromParentGrows(framed, e.name, e.frame, q.name, q.frame); }
      } else {
        var k: nat, i: nat :| Slot(e.name, k, i) && q == ChildEntry(e.name, k, i, e.frame);
        ExtendIsNoCheaper(rules, min, e.name, e.frame, k, i);
        ExtendIsContext(rules, root, min, e.name, e.frame, k, i);
        assert framed'[e.name] == e.frame;
      }
    }

    /** A slot of the nonterminal just framed: queued, or its child has a frame already and that
        one was popped earlier. */
    lemma NewParentCovered(framed: map<string, Frame>, last: nat, e: Entry, queue': set<Entry>, k: nat, i: nat)
      requires Valid() && Settles(framed, last) && last <= e.cost && Usable(rules, min, e.name)
      requires e.name in min && e.cost == Cost(min, e.name, e.frame) && e.name !in framed
      requires Slot(e.name, k, i) && PushedSlot(framed, e, queue', k, i)
      ensures Covered(framed[e.name := e.frame], queue', e.name, k, i)
    {
      ExtendIsNoCheaper(rules, min, e.name, e.frame, k, i);
    }

    /** A slot of an older parent: its entry is still queued, or it is the one just framed. */
    lemma OldParentCovered(framed: map<string, Frame>, queue: set<Entry>, e: Entry, queue': set<Entry>,
                           p: string, k: nat, i: nat)
      requires p in framed && Slot(p, k, i) && Covered(framed, queue, p, k, i)
      requires queue - {e} <= queue' && e.name !in framed
      ensures Covered(framed[e.name := e.frame], queue', p, k, i)
    {
    }

    lemma AcceptInv(framed: map<string, Frame>, queue: set<Entry>, last: nat, e: Entry, queue': set<Entry>)
      requires Valid() && Inv(framed, queue, last)
      requires e in queue && forall q :: q in queue ==> e.cost <= q.cost
      requires e.name !in framed && Accepted(e.name, e.frame)
      requires Pushed(framed, queue - {e}, e, queue') && Usable(rules, min, e.name)
      ensures Inv(framed[e.name := e.frame], queue', e.cost)
    {
      assert Queued(framed, last, e);
      AcceptSettles(framed, last, e);
      forall q | q in queue' ensures Queued(framed[e.name := e.frame], e.cost, q) {
        AcceptQueued(framed, queue, last, e, queue', q);
      }
      forall p, k: nat, i: nat | p in framed[e.name := e.frame] && Slot(p, k, i)
        ensures Covered(framed[e.name := e.frame], queue', p, k, i)
      {
        if p == e.name {
          assert PushedSlot(framed, e, queue', k, i);
          NewParentCovered(framed, last, e, queue', k, i);
        } else {
          assert Covered(framed, queue, p, k, i);
          OldParentCovered(framed, queue, e, queue', p, k, i);
        }
      }
    }

    // ----- how good the frames are -----

    /** The oracle accepts a context only where it accepts the context of its parent. */
    ghost predicate Hereditary() {
      forall x, sp :: IsSpine(rules, root, x, sp) && sp.Down? && Accepted(x, FrameOf(sp)) ==>
                        Accepted(sp.parent, FrameOf(sp.up))
    }

    /** Replacing the outer part of an accepted context by an accepted one that is no longer, and
        the siblings by their minimal sentences, stays accepted. */
    ghost predicate Exchange() {
      forall x, sp, f ::
        IsSpine(rules, root, x, sp) && sp.Down? && sp.i < |sp.alt| && Accepted(x, FrameOf(sp))
        && IsContext(rules, root, sp.parent, f) && Accepted(sp.parent, f)
        && Cost(min, sp.parent, f) <= Cost(min, sp.parent, FrameOf(sp.up))
        ==> Accepted(x, Extend(min, f, sp.alt, sp.i))
    }

    /** Extending costs what the expanded siblings cost, and minimal siblings are the cheapest. */
    lemma ExtendBeatsSpine(x: string, sp: Spine, f: Frame)
      requires Valid() && IsSpine(rules, root, x, sp) && sp.Down?
      requires sp.parent in min && Cost(min, sp.parent, f) <= Cost(min, sp.parent, FrameOf(sp.up))
      requires x in min
      ensures Cost(min, x, Extend(min, f, sp.alt, sp.i)) <= Cost(min, x, FrameOf(sp))
    {
      ClosedBoundsKids(rules, min, sp.alt[..sp.i], sp.left);
      ClosedBoundsKids(rules, min, sp.alt[sp.i + 1..], sp.right);
    }

    /** Under those two conditions the search finds, for every nonterminal with an accepted context
        anywhere in the language, one of globally least cost. */
    lemma {:induction false} CheapestOverall(framed: map<string, Frame>, x: string, sp: Spine)
      requires Valid() && Solves(framed) && Hereditary() && Exchange()
      requires IsSpine(rules, root, x, sp) && Accepted(x, FrameOf(sp))
      ensures x in framed && Cost(min, x, framed[x]) <= Cost(min, x, FrameOf(sp))
      decreases sp
    {
      if sp.Down? {
        var p := sp.parent;
        CheapestOverall(framed, p, sp.up);
        assert Accepted(x, Extend(min, framed[p], sp.alt, sp.i));
        var k: nat :| k < |rules[p]| && rules[p][k] == sp.alt;
        assert Slot(p, k, sp.i) && Cheapest(framed, p, k, sp.i);
        ExtendBeatsSpine(x, sp, framed[p]);
      }
    }

    /** With an oracle that accepts everything: a nonterminal has a frame exactly when some context
        reaches it, and no context is cheaper. */
    lemma AcceptAllFindsShortest(framed: map<string, Frame>, x: string)
      requires Valid() && Solves(framed) && forall s :: parser(s)
      ensures x in framed <==> exists f :: IsContext(rules, root, x, f)
      ensures forall f :: IsContext(rules, root, x, f) ==>
                            x in framed && x in min && Cost(min, x, framed[x]) <= Cost(min, x, f)
    {
      forall y, sp | IsSpine(rules, root, y, sp) && sp.Down? && y in min ensures sp.parent in min {
        ParentIsKnown(y, sp);
      }
      forall f | IsContext(rules, root, x, f)
        ensures x in framed && x in min && Cost(min, x, framed[x]) <= Cost(min, x, f)
      {
        var sp :| IsSpine(rules, root, x, sp) && FrameOf(sp) == f;
        ReachedIsFramed(framed, x, sp);
        CheapestOverall(framed, x, sp);
      }
    }

    /** Around a nonterminal with a sentence, every nonterminal has one. */
    lemma ParentIsKnown(x: string, sp: Spine)
      requires Closed(rules, min) && Sound(rules, min) && IsSpine(rules, root, x, sp) && sp.Down? && x in min
      ensures sp.parent in min
    {
      FillNode(rules, sp.parent, sp.alt, sp.i, sp.left, sp.right, x, min[x]);
      var t :| Derivation(rules, N(sp.parent), t) && Yield(t) == YieldAll(sp.left) + min[x] + YieldAll(sp.right);
      ClosedBoundsTree(rules, min, N(sp.parent), t);
    }

    lemma {:induction false} ReachedIsFramed(framed: map<string, Frame>, x: string, sp: Spine)
      requires Valid() && Solves(framed) && IsSpine(rules, root, x, sp) && forall s :: parser(s)
      ensures x in framed
      decreases sp
    {
      if sp.Down? {
        var p := sp.parent;
        ReachedIsFramed(framed, p, sp.up);
        var k: nat :| k < |rules[p]| && rules[p][k] == sp.alt;
        assert AllKnown(min, rules[p][k]);
        assert Slot(p, k, sp.i) && Cheapest(framed, p, k, sp.i);
      }
    }

    // ----- the exact condition -----

    /** The documented promise: no accepted context anywhere is cheaper than the frame. */
    ghost predicate CheapestOfAll(framed: map<string, Frame>) {
      forall x, f :: IsContext(rules, root, x, f) && Accepted(x, f) ==>
                       x in framed && Cost(min, x, framed[x]) <= Cost(min, x, f)
    }

    ghost predicate HasContext(x: string) {
      exists f :: IsContext(rules, root, x, f) && Accepted(x, f)
    }

    /** `f` is a cheapest accepted context of `x`. */
    ghost predicate Best(x: string, f: Frame) {
      && IsContext(rules, root, x, f) && Accepted(x, f)
      && forall g :: IsContext(rules, root, x, g) && Accepted(x, g) ==> Cost(min, x, f) <= Cost(min, x, g)
    }

    /** A well-founded choice of parents: every acceptable nonterminal but the root inherits a best
        context from a parent's best context; from any of them, or from some. */
    ghost predicate Inherits(rank: map<string, nat>, any: bool) {
      && (forall x :: HasContext(x) ==> x in rank && Accepted(root, Frame([], [])))
      && (forall x :: HasContext(x) && x != root ==> InheritsFrom(rank, x, any))
    }

    ghost predicate InheritsFrom(rank: map<string, nat>, x: string, any: bool) {
      exists p, k: nat, i: nat ::
        && Slot(p, k, i) && Child(p, k, i) == x && HasContext(p)
        && p in rank && x in rank && rank[p] < rank[x]
        && if any then forall f :: Best(p, f) ==> Best(x, ChildFrame(p, k, i, f))
           else exists f :: Best(p, f) && Best(x, ChildFrame(p, k, i, f))
    }

    /** Sufficient, for every tie-break. */
    lemma InheritingIsCheapest(framed: map<string, Frame>, rank: map<string, nat>)
      requires Solves(framed) && Inherits(rank, true)
      ensures CheapestOfAll(framed)
    {
      forall x | HasContext(x) ensures x in framed && Best(x, framed[x]) {
        InheritingFrame(framed, rank, x);
      }
    }

    lemma {:induction false} InheritingFrame(framed: map<string, Frame>, rank: map<string, nat>, x: string)
      requires Solves(framed) && Inherits(rank, true) && HasContext(x)
      ensures x in framed && Best(x, framed[x])
      decreases rank[x]
    {
      if x != root {
        assert InheritsFrom(rank, x, true);
        var p, k: nat, i: nat :|
          && Slot(p, k, i) && Child(p, k, i) == x && HasContext(p)
          && p in rank && x in rank && rank[p] < rank[x]
          && forall f :: Best(p, f) ==> Best(x, ChildFrame(p, k, i, f));
        InheritingFrame(framed, rank, p);
        assert Cheapest(framed, p, k, i);
      }
    }

    /** Necessary, with the order the search found its frames in as the ranking. */
    lemma CheapestInherits(framed: map<string, Frame>, found: map<string, Origin>)
      requires Solves(framed) && Ranked(framed, found, |framed|) && CheapestOfAll(framed)
      ensures Inherits(map x | x in found :: found[x].order, false)
    {
      var rank := map x | x in found :: found[x].order;
      forall x | HasContext(x) && x != root ensures InheritsFrom(rank, x, false) {
        assert Sprung(framed, found, x);
        var o := found[x];
        assert Best(o.p, framed[o.p]) && Best(x, framed[x]);
        assert Slot(o.p, o.k, o.i) && rank[o.p] < rank[x];
      }
    }

    /** Exact where no nonterminal has two cheapest accepted contexts. */
    lemma CheapestIffInherits(framed: map<string, Frame>, found: map<string, Origin>)
      requires Solves(framed) && Ranked(framed, found, |framed|)
      requires forall x, f, g :: Best(x, f) && Best(x, g) ==> f == g
      ensures CheapestOfAll(framed) <==> exists r :: Inherits(r, true)
    {
      if CheapestOfAll(framed) {
        CheapestInherits(framed, found);
        assert Inherits(map x | x in found :: found[x].order, true);
      }
      if r :| Inherits(r, true) {
        InheritingIsCheapest(framed, r);
      }
    }
  }

  /** Filling the hole of a context with a derivation of its nonterminal derives from the root, so
      every sentence the coverage test builds from a frame is a sentence of the grammar. */
  lemma {:induction false} FillSpine(rules: Rules, root: string, x: string, sp: Spine, s: seq<string>)
    requires IsSpine(rules, root, x, sp) && Derives(rules, N(x), s)
    ensures Derives(rules, N(root), FrameOf(sp).prefix + s + FrameOf(sp).suffix)
    decreases sp
  {
    match sp
    case Top =>
      assert [] + s + [] == s;
    case Down(up, parent, alt, i, left, right) =>
      var inner := YieldAll(left) + s + YieldAll(right);
      FillNode(rules, parent, alt, i, left, right, x, s);
      FillSpine(rules, root, parent, up, inner);
      assert FrameOf(up).prefix + inner + FrameOf(up).suffix == FrameOf(sp).prefix + s + FrameOf(sp).suffix;
  }

  /** What the parser is asked about a context: the context with the shortest sentence of its nonterminal
      in the hole, one token longer than its key; so it is asked about sentences of the grammar only. */
  lemma AskedSentence(rules: Rules, root: string, min: Sentences, x: string, f: Frame)
    requires Sound(rules, min) && x in min && IsContext(rules, root, x, f)
    ensures var q, n := Sentence(min, x, f), |f.prefix| + |min[x]|;
            && |q| == Cost(min, x, f) + 1 == |f.prefix| + |min[x]| + |f.suffix| + 1
            && q[..|f.prefix|] == f.prefix && q[|f.prefix|..n] == min[x]
            && q[n..n + |f.suffix|] == f.suffix && q[|q| - 1] == "EOF"
            && Derives(rules, N(x), q[|f.prefix|..n]) && Derives(rules, N(root), q[..|q| - 1])
  {
    var sp :| IsSpine(rules, root, x, sp) && FrameOf(sp) == f;
    FillSpine(rules, root, x, sp, min[x]);
    var q, n := Sentence(min, x, f), |f.prefix| + |min[x]|;
    assert q[..|q| - 1] == f.prefix + min[x] + f.suffix;
    assert q[|f.prefix|..n] == min[x];
  }

  lemma FillNode(rules: Rules, p: string, alt: seq<Sym>, i: nat, left: seq<Tree>, right: seq<Tree>, x: string, s: seq<string>)
    requires p in rules && alt in rules[p] && i < |alt| && alt[i] == N(x)
    requires Matches(rules, alt[..i], left) && Matches(rules, alt[i + 1..], right)
    requires Derives(rules, N(x), s)
    ensures Derives(rules, N(p), YieldAll(left) + s + YieldAll(right))
  {
    var t :| Derivation(rules, N(x), t) && Yield(t) == s;
    MatchesOne(rules, alt[i], t);
    MatchesConcat(rules, alt[..i], left, [alt[i]], [t]);
    MatchesConcat(rules, alt[..i] + [alt[i]], left + [t], alt[i + 1..], right);
    YieldConcat(left, [t]);
    YieldConcat(left + [t], right);
    assert alt[..i] + [alt[i]] + alt[i + 1..] == alt;
    assert Derivation(rules, N(p), Node(p, alt, left + [t] + right));
  }

  lemma MatchesOne(rules: Rules, sym: Sym, t: Tree)
    requires Derivation(rules, sym, t)
    ensures Matches(rules, [sym], [t]) && YieldAll([t]) == Yield(t)
  {
    assert [t][1..] == [] && [sym][1..] == [];
    assert YieldAll([t][1..]) == [];
  }

  lemma {:induction false} MatchesConcat(rules: Rules, a: seq<Sym>, ka: seq<Tree>, b: seq<Sym>, kb: seq<Tree>)
    requires Matches(rules, a, ka) && Matches(rules, b, kb)
    ensures Matches(rules, a + b, ka + kb)
  {
    if a == [] {
      assert a + b == b && ka + kb == kb;
    } else {
      assert (a + b)[0] == a[0] && (a + b)[1..] == a[1..] + b;
      assert (ka + kb)[0] == ka[0] && (ka + kb)[1..] == ka[1..] + kb;
      MatchesConcat(rules, a[1..], ka[1..], b, kb);
    }
  }

  lemma {:induction false} YieldConcat(a: seq<Tree>, b: seq<Tree>)
    ensures YieldAll(a + b) == YieldAll(a) + YieldAll(b)
  {
    if a == [] {
      assert a + b == b;
    } else {
      assert (a + b)[0] == a[0] && (a + b)[1..] == a[1..] + b;
      YieldConcat(a[1..], b);
    }
  }

  // ----- the search itself -----

  method PopFirst(queue: set<Entry>) returns (e: Entry)
    requires queue != {}
    ensures e in queue && forall q :: q in queue ==> e.cost <= q.cost
  {
    e :| e in queue;
    var todo := queue - {e};
    while todo != {}
      invariant e in queue && todo <= queue
      invariant forall q :: q in queue && q !in todo ==> e.cost <= q.cost
      decreases todo
    {
      var q :| q in todo;
      if q.cost < e.cost { e := q; }
      todo := todo - {q};
    }
  }

  /** Queue the frames of the children of `e`, one per slot whose nonterminal has no frame yet; None when
      a nonterminal has no sentence, where the search gives up. */
  method PushChildren(ghost s: Search, rules: Rules, min: Sentences, framed: map<string, Frame>,
                      e: Entry, queue: set<Entry>)
    returns (r: Option<set<Entry>>)
    requires rules == s.rules && min == s.min && e.name in rules && e.name in min && framed.Keys <= min.Keys
    ensures r.Some? <==> Usable(rules, min, e.name)
    ensures r.Some? ==> s.Pushed(framed, queue, e, r.value)
  {
    var queue' := queue;
    var alts: seq<seq<Sym>> := rules[e.name];
    for k := 0 to |alts|
      invariant s.PushedTo(framed, queue, e, queue', k, 0)
      invariant forall k' :: 0 <= k' < k ==> AllKnown(min, alts[k'])
    {
      for i := 0 to |alts[k]|
        invariant s.PushedTo(framed, queue, e, queue', k, i)
        invariant AllKnown(min, alts[k][..i])
      {
        var added := ChildOf(s, rules, min, framed, e, k, i);
        if added.None? { return None; }
        s.PushedStep(framed, queue, e, queue', queue' + added.value, k, i);
        queue' := queue' + added.value;
      }
      assert alts[k][..|alts[k]|] == alts[k];
      s.PushedAlt(framed, queue, e, queue', k);
    }
    r := Some(queue');
  }

  /** The entry slot `i` of alternative `k` adds to the queue, if it adds one. */
  method ChildOf(ghost s: Search, rules: Rules, min: Sentences, framed: map<string, Frame>, e: Entry, k: nat, i: nat)
    returns (added: Option<set<Entry>>)
    requires rules == s.rules && min == s.min && framed.Keys <= min.Keys
    requires e.name in rules && e.name in min && k < |rules[e.name]| && i < |rules[e.name][k]|
    ensures added.None? ==> !AllKnown(min, rules[e.name][k])
    ensures added.Some? && rules[e.name][k][i].N? ==> rules[e.name][k][i].n in min
    ensures added.Some? && s.Slot(e.name, k, i) ==> s.PushedSlot(framed, e, added.value, k, i)
    ensures added.Some? ==>
              added.value == {} || (s.Slot(e.name, k, i) && added.value == {s.ChildEntry(e.name, k, i, e.frame)})
  {
    var alt: seq<Sym> := rules[e.name][k];
    if alt[i].T? || alt[i].n in framed || alt[i].n == e.name { return Some({}); }
    var left := ExpandSymbols(alt[..i], min);
    var right := ExpandSymbols(alt[i + 1..], min);
    if left.None? || right.None? || alt[i].n !in min {
      if AllKnown(min, alt) { SlotExpands(min, alt, i); }
      return None;
    }
    var f := Frame(e.frame.prefix + left.value, right.value + e.frame.suffix);
    added := Some({Entry(|f.prefix| + |min[alt[i].n]| + |f.suffix|, alt[i].n, f)});
  }

  /** One popped entry: dropped when its nonterminal has a frame or the parser refuses it, else
      framed. */
  method Visit(ghost s: Search, rules: Rules, min: Sentences, parser: Parser, framed: map<string, Frame>,
               queue: set<Entry>, e: Entry, ghost last: nat, ghost found: map<string, Origin>)
    returns (r: Option<map<string, Frame>>, queue': set<Entry>, ghost found': map<string, Origin>)
    requires s == Search(rules, s.root, min, parser) && s.Valid() && s.Inv(framed, queue, last) && s.Ranked(framed, found, |framed|)
    requires e in queue && forall q :: q in queue ==> e.cost <= q.cost
    ensures r.None? ==> s.Accepted(e.name, e.frame) && !Usable(rules, min, e.name) && IsContext(rules, s.root, e.name, e.frame)
    ensures r.Some? ==> s.Inv(r.value, queue', e.cost) && s.Ranked(r.value, found', |r.value|) && last <= e.cost
    ensures r.Some? ==>
              Unframed(rules, r.value) < Unframed(rules, framed) || (r.value == framed && |queue'| < |queue|)
  {
    assert s.Queued(framed, last, e);
    found' := found;
    if e.name in framed || !parser(Sentence(min, e.name, e.frame)) {
      s.DropInv(framed, queue, last, e);
      return Some(framed), queue - {e}, found;
    }
    var pushed := PushChildren(s, rules, min, framed, e, queue - {e});
    if pushed.None? { return None, queue, found; }
    queue' := pushed.value;
    s.AcceptInv(framed, queue, last, e, queue');
    found' := s.RankedGrows(framed, found, |framed|, e.name, e.frame);
    r := Some(framed[e.name := e.frame]);
    UnframedShrinks(rules, framed, e.name, e.frame);
  }

  ghost function Unframed(rules: Rules, framed: map<string, Frame>): nat {
    |rules.Keys - framed.Keys|
  }

  lemma UnframedShrinks(rules: Rules, framed: map<string, Frame>, n: string, f: Frame)
    requires n in rules && n !in framed
    ensures Unframed(rules, framed[n := f]) < Unframed(rules, framed)
  {
    assert rules.Keys - framed[n := f].Keys == rules.Keys - framed.Keys - {n};
  }

  ghost predicate Ascending(keys: seq<nat>) {
    forall i, j :: 0 <= i < j < |keys| ==> keys[i] <= keys[j]
  }

  lemma AscendingGrows(keys: seq<nat>, last: nat, key: nat)
    requires Ascending(keys + [last]) && last <= key
    ensures Ascending(keys + [key] + [key]) && Ascending(keys)
  {
    forall i | 0 <= i < |keys| ensures keys[i] <= last {
      assert (keys + [last])[i] <= (keys + [last])[|keys|];
    }
    forall i, j | 0 <= i < j < |keys| ensures keys[i] <= keys[j] {
      assert (keys + [last])[i] <= (keys + [last])[j];
    }
  }

  /** For each nonterminal reachable from `root` through accepted contexts, a cheapest frame. Any
      entry of least cost may be popped next. None: the root, or a nonterminal named by one with an
      accepted context, derives nothing, and the search gives up. `popped` records the keys in order,
      `found` where each frame came from. */
  method FindFrames(root: string, rules: Rules, min: Sentences, parser: Parser)
    returns (r: Option<map<string, Frame>>, ghost popped: seq<nat>, ghost found: map<string, Origin>)
    requires Closed(rules, min) && Sound(rules, min)
    ensures r.Some? ==> root in min && Search(rules, root, min, parser).Solves(r.value)
    ensures r.Some? ==> Search(rules, root, min, parser).Ranked(r.value, found, |r.value|)
    ensures r.None? ==>
              root !in min || exists x, f :: IsContext(rules, root, x, f) && Search(rules, root, min, parser).Accepted(x, f)
                                             && !Usable(rules, min, x)
    ensures Ascending(popped)
  {
    ghost var s := Search(rules, root, min, parser);
    popped, found := [], map[];
    if root !in min { return None, popped, found; }
    var framed: map<string, Frame> := map[];
    var queue := {Entry(|min[root]|, root, Frame([], []))};
    ghost var last := 0;
    s.InitInv();
    while queue != {}
      invariant s.Inv(framed, queue, last) && s.Ranked(framed, found, |framed|)
      invariant Ascending(popped + [last])
      decreases Unframed(rules, framed), |queue|
    {
      var e := PopFirst(queue);
      var next, rest, origins := Visit(s, rules, min, parser, framed, queue, e, last, found);
      if next.None? {
        AscendingGrows(popped, last, last);
        return None, popped, found;
      }
      framed, queue, found := next.value, rest, origins;
      AscendingGrows(popped, last, e.cost);
      popped, last := popped + [e.cost], e.cost;
    }
    s.DoneSolves(framed, last);
    AscendingGrows(popped, last, last);
    r := Some(framed);
  }

  // ----- the claim that fails -----

  /** The grammar r ::= p | "(" p ")"; p ::= "q" | x "y" "y"; x ::= "x". */
  const NESTED: Rules := map[
    "r" := [[N("p")], [T("("), N("p"), T(")")]],
    "p" := [[T("q")], [N("x"), T("y"), T("y")]],
    "x" := [[T("x")]]]

  const NESTED_MIN: Sentences := map["r" := ["q"], "p" := ["q"], "x" := ["x"]]

  /** The parser refuses exactly the bare `x y y`. */
  const REFUSES_BARE: Parser := s => s != ["x", "y", "y", "EOF"]

  const NESTED_SEARCH := Search(NESTED, "r", NESTED_MIN, REFUSES_BARE)

  /** The context `( x y y )` of `x`, through the longer alternative of `r`. */
  ghost function BracketedX(): Spine {
    Down(Down(Top, "r", NESTED["r"][1], 1, [Leaf("(")], [Leaf(")")]), "p", NESTED["p"][1], 0, [], [Leaf("y"), Leaf("y")])
  }

  lemma BracketedXIsAccepted()
    ensures IsSpine(NESTED, "r", "x", BracketedX())
    ensures NESTED_SEARCH.Accepted("x", FrameOf(BracketedX()))
  {
    var outer := BracketedX().up;
    assert NESTED["r"][1][..1] == [T("(")] && NESTED["r"][1][2..] == [T(")")];
    assert NESTED["p"][1][..0] == [] && NESTED["p"][1][1..] == [T("y"), T("y")];
    assert Matches(NESTED, [T("(")], [Leaf("(")]);
  }

  lemma NestedIsSound()
    ensures Sound(NESTED, NESTED_MIN)
  {
    NodeOfTerminal(NESTED, "x", "x");
    NodeOfTerminal(NESTED, "p", "q");
    assert NESTED["r"][0][..0] == [] && NESTED["r"][0][1..] == [];
    FillNode(NESTED, "r", NESTED["r"][0], 0, [], [], "p", ["q"]);
    assert [] + ["q"] + [] == ["q"];
  }

  lemma NestedIsClosed()
    ensures Closed(NESTED, NESTED_MIN)
  {
    forall n, j | n in NESTED && 0 <= j < |NESTED[n]| && Expand(NESTED[n][j], NESTED_MIN).Some?
      ensures n in NESTED_MIN && |NESTED_MIN[n]| <= |Expand(NESTED[n][j], NESTED_MIN).value|
    {
      ExpandNonEmpty(NESTED[n][j], NESTED_MIN);
    }
  }

  lemma ExpandNonEmpty(syms: seq<Sym>, min: Sentences)
    requires syms != [] && Expand(syms, min).Some? && forall n :: n in min ==> min[n] != []
    ensures Expand(syms, min).value != []
  {
  }

  lemma NestedIsUsable(p: string)
    requires p in NESTED
    ensures Usable(NESTED, NESTED_MIN, p)
  {
  }

  lemma NodeOfTerminal(rules: Rules, n: string, t: string)
    requires n in rules && [T(t)] in rules[n]
    ensures Derives(rules, N(n), [t])
  {
    MatchesOne(rules, T(t), Leaf(t));
    NodeDerives(rules, n, [T(t)], [t]);
  }

  /** The search promises the cheapest context whose minimal sentence the parser accepts. It does
      not always find one: here `x` has an accepted context and gets no frame, because `p` keeps
      only its own cheapest context, whose extension to `x` is refused. */
  lemma CheapestClaimFails(framed: map<string, Frame>)
    requires NESTED_SEARCH.Solves(framed)
    ensures NESTED_SEARCH.Valid()
    ensures "x" !in framed
    ensures exists f :: IsContext(NESTED, "r", "x", f) && NESTED_SEARCH.Accepted("x", f)
  {
    NestedIsSound();
    NestedIsClosed();
    BracketedXIsAccepted();
    if "x" in framed {
      NestedFrameOfP(framed);
      NestedFrameOfX(framed);
      assert false;
    }
  }

  /** The search itself, on that grammar and parser, misses an accepted context. */
  method NestedMisses() returns (framed: map<string, Frame>)
    ensures "x" !in framed
    ensures exists f :: IsContext(NESTED, "r", "x", f) && NESTED_SEARCH.Accepted("x", f)
  {
    NestedIsSound();
    NestedIsClosed();
    var r, popped, found := FindFrames("r", NESTED, NESTED_MIN, REFUSES_BARE);
    forall p | p in NESTED_MIN ensures Usable(NESTED, NESTED_MIN, p) {
      NestedIsUsable(p);
    }
    framed := r.value;
    CheapestClaimFails(framed);
  }

  lemma NestedFrameOfP(framed: map<string, Frame>)
    requires NESTED_SEARCH.Solves(framed)
    ensures "p" in framed && framed["p"] == Frame([], [])
  {
    var s := NESTED_SEARCH;
    assert Sentence(s.min, "r", Frame([], [])) == ["q", "EOF"];
    assert s.Accepted("r", Frame([], []));
    assert s.Slot("r", 0, 0) && s.Cheapest(framed, "r", 0, 0);
    NestedChildP();
  }

  lemma NestedChildP()
    ensures NESTED_SEARCH.Slot("r", 0, 0) && NESTED_SEARCH.Child("r", 0, 0) == "p"
    ensures NESTED_SEARCH.ChildFrame("r", 0, 0, Frame([], [])) == Frame([], [])
    ensures NESTED_SEARCH.Accepted("p", Frame([], []))
  {
    assert NESTED["r"][0][..0] == [] && NESTED["r"][0][1..] == [];
    assert Sentence(NESTED_MIN, "p", Frame([], [])) == ["q", "EOF"];
  }

  lemma NestedFrameOfX(framed: map<string, Frame>)
    requires "x" in framed && NESTED_SEARCH.FromParent(framed, "x", framed["x"])
    requires "p" in framed && framed["p"] == Frame([], [])
    ensures !NESTED_SEARCH.Accepted("x", framed["x"])
  {
    var s := NESTED_SEARCH;
    var p, k: nat, i: nat :|
      s.Slot(p, k, i) && p in framed && s.Child(p, k, i) == "x" && s.ChildFrame(p, k, i, framed[p]) == framed["x"];
    NestedParentOfX(p, k, i);
    NestedChildX();
  }

  lemma NestedChildX()
    ensures NESTED_SEARCH.Slot("p", 1, 0)
    ensures !NESTED_SEARCH.Accepted("x", NESTED_SEARCH.ChildFrame("p", 1, 0, Frame([], [])))
  {
    var ys := [T("y"), T("y")];
    assert NESTED["p"][1][..0] == [] && NESTED["p"][1][1..] == ys;
    ExpandOne(T("y"), NESTED_MIN);
    ExpandConcat([T("y")], [T("y")], NESTED_MIN);
    assert [T("y")] + [T("y")] == ys;
    assert NESTED_SEARCH.ChildFrame("p", 1, 0, Frame([], [])) == Frame([], ["y", "y"]);
    assert Sentence(NESTED_MIN, "x", Frame([], ["y", "y"])) == ["x", "y", "y", "EOF"];
  }

  lemma NestedParentOfX(p: string, k: nat, i: nat)
    requires NESTED_SEARCH.Slot(p, k, i) && NESTED_SEARCH.Child(p, k, i) == "x"
    ensures p == "p" && k == 1 && i == 0
  {
  }
}
