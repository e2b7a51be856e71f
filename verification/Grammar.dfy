/** The normalized grammar as data, its derivation trees, and the shortest sentence of every
    nonterminal (`min_sentences` and `expand` of src/conformance.rs). */
module Grammar {
  import opened Wrappers

  /** One symbol of an alternative: a terminal name or a nonterminal name. */
  datatype Sym = T(t: string) | N(n: string)

  /** Nonterminal to its alternatives. */
  type Rules = map<string, seq<seq<Sym>>>

  /** Nonterminal to one sentence, as terminal names. */
  type Sentences = map<string, seq<string>>

  // ----- derivations: what the grammar itself says -----

  datatype Tree = Leaf(t: string) | Node(name: string, alt: seq<Sym>, kids: seq<Tree>)

  /** `t` is a derivation tree of `sym`. */
  ghost predicate Derivation(rules: Rules, sym: Sym, t: Tree)
    decreases t
  {
    match sym
    case T(x) => t == Leaf(x)
    case N(n) =>
      t.Node? && t.name == n && n in rules && t.alt in rules[n] && Matches(rules, t.alt, t.kids)
  }

  /** `kids` derive `syms` one by one. */
  ghost predicate Matches(rules: Rules, syms: seq<Sym>, kids: seq<Tree>)
    decreases kids
  {
    if syms == [] then kids == []
    else kids != [] && Derivation(rules, syms[0], kids[0]) && Matches(rules, syms[1..], kids[1..])
  }

  ghost function Yield(t: Tree): seq<string>
    decreases t
  {
    match t
    case Leaf(x) => [x]
    case Node(_, _, kids) => YieldAll(kids)
  }

  ghost function YieldAll(kids: seq<Tree>): seq<string>
    decreases kids
  {
    if kids == [] then [] else Yield(kids[0]) + YieldAll(kids[1..])
  }

  ghost predicate Derives(rules: Rules, sym: Sym, s: seq<string>) {
    exists t :: Derivation(rules, sym, t) && Yield(t) == s
  }

  ghost predicate DerivesAll(rules: Rules, syms: seq<Sym>, s: seq<string>) {
    exists kids :: Matches(rules, syms, kids) && YieldAll(kids) == s
  }

  /** What a table of shortest sentences owes: an entry is derivable and no derivation is shorter,
      and a nonterminal without an entry derives nothing. */
  ghost predicate Shortest(rules: Rules, min: Sentences) {
    forall n ::
      if n in min then
        Derives(rules, N(n), min[n]) && forall s :: Derives(rules, N(n), s) ==> |min[n]| <= |s|
      else
        forall s :: !Derives(rules, N(n), s)
  }

  // ----- expand -----

  /** `syms` with every nonterminal replaced by its sentence; None while one has none yet. */
  function Expand(syms: seq<Sym>, min: Sentences): Option<seq<string>> {
    if syms == [] then Some([])
    else
      var rest := Expand(syms[1..], min);
      match syms[0]
      case T(t) => if rest.None? then None else Some([t] + rest.value)
      case N(n) => if n !in min || rest.None? then None else Some(min[n] + rest.value)
  }

  /** Expanding splits at any symbol. */
  lemma {:induction false} ExpandConcat(a: seq<Sym>, b: seq<Sym>, min: Sentences)
    ensures Expand(a + b, min).Some? <==> Expand(a, min).Some? && Expand(b, min).Some?
    ensures Expand(a + b, min).Some? ==> Expand(a + b, min).value == Expand(a, min).value + Expand(b, min).value
  {
    if a == [] {
      assert a + b == b;
    } else {
      assert (a + b)[1..] == a[1..] + b;
      ExpandConcat(a[1..], b, min);
    }
  }

  lemma ExpandOne(sym: Sym, min: Sentences)
    ensures sym.T? ==> Expand([sym], min) == Some([sym.t])
    ensures sym.N? ==> Expand([sym], min) == if sym.n in min then Some(min[sym.n]) else None
  {
    assert [sym][1..] == [];
    assert Expand([sym][1..], min) == Some([]);
    assert sym.T? ==> [sym.t] + [] == [sym.t];
    assert sym.N? && sym.n in min ==> min[sym.n] + [] == min[sym.n];
  }

  lemma ExpandTake(syms: seq<Sym>, i: nat, min: Sentences)
    requires i < |syms| && Expand(syms[..i], min).Some?
    ensures syms[i].T? ==> Expand(syms[..i + 1], min) == Some(Expand(syms[..i], min).value + [syms[i].t])
    ensures syms[i].N? && syms[i].n in min ==>
              Expand(syms[..i + 1], min) == Some(Expand(syms[..i], min).value + min[syms[i].n])
    ensures syms[i].N? && syms[i].n !in min ==> Expand(syms, min).None?
  {
    ExpandOne(syms[i], min);
    assert syms[..i] + [syms[i]] == syms[..i + 1];
    assert syms[..i + 1] + syms[i + 1..] == syms;
    ExpandConcat(syms[..i], [syms[i]], min);
    ExpandConcat(syms[..i + 1], syms[i + 1..], min);
  }

  method ExpandSymbols(syms: seq<Sym>, min: Sentences) returns (r: Option<seq<string>>)
    ensures r == Expand(syms, min)
  {
    var out: seq<string> := [];
    for i := 0 to |syms|
      invariant Expand(syms[..i], min) == Some(out)
    {
      ExpandTake(syms, i, min);
      match syms[i]
      case T(t) => out := out + [t];
      case N(n) =>
        if n !in min { return None; }
        out := out + min[n];
    }
    assert syms[..|syms|] == syms;
    r := Some(out);
  }

  // ----- min_sentences -----

  /** Every entry is derivable. */
  ghost predicate Sound(rules: Rules, min: Sentences) {
    forall n :: n in min ==> n in rules && Derives(rules, N(n), min[n])
  }

  /** No alternative of `n` among the first `k` improves the entry of `n`. */
  ghost predicate Settled(rules: Rules, min: Sentences, n: string, k: nat)
    requires n in rules && k <= |rules[n]|
  {
    forall j :: 0 <= j < k && Expand(rules[n][j], min).Some? ==>
                  n in min && |min[n]| <= |Expand(rules[n][j], min).value|
  }

  ghost predicate Closed(rules: Rules, min: Sentences) {
    forall n :: n in rules ==> Settled(rules, min, n, |rules[n]|)
  }

  ghost predicate AllSettled(rules: Rules, min: Sentences, names: seq<string>, count: nat)
    requires count <= |names| && forall k :: 0 <= k < |names| ==> names[k] in rules
  {
    forall k :: 0 <= k < count ==> Settled(rules, min, names[k], |rules[names[k]]|)
  }

  lemma OneMoreAlternative(rules: Rules, min: Sentences, n: string, k: nat)
    requires n in rules && k < |rules[n]| && Settled(rules, min, n, k)
    requires Expand(rules[n][k], min).Some? ==> n in min && |min[n]| <= |Expand(rules[n][k], min).value|
    ensures Settled(rules, min, n, k + 1)
  {
  }

  lemma OneMoreSettled(rules: Rules, min: Sentences, names: seq<string>, i: nat)
    requires i < |names| && forall k :: 0 <= k < |names| ==> names[k] in rules
    requires AllSettled(rules, min, names, i) && Settled(rules, min, names[i], |rules[names[i]]|)
    ensures AllSettled(rules, min, names, i + 1)
  {
  }

  lemma AllSettledIsClosed(rules: Rules, min: Sentences, names: seq<string>)
    requires forall k :: 0 <= k < |names| ==> names[k] in rules
    requires forall n :: n in rules ==> n in names
    requires AllSettled(rules, min, names, |names|)
    ensures Closed(rules, min)
  {
    forall n | n in rules
      ensures Settled(rules, min, n, |rules[n]|)
    {
      var k :| 0 <= k < |names| && names[k] == n;
      assert Settled(rules, min, names[k], |rules[names[k]]|);
    }
  }

  lemma {:induction false} ExpandIsDerived(rules: Rules, min: Sentences, syms: seq<Sym>)
    requires Sound(rules, min) && Expand(syms, min).Some?
    ensures DerivesAll(rules, syms, Expand(syms, min).value)
  {
    if syms == [] {
      assert Matches(rules, syms, []) && YieldAll([]) == [];
    } else {
      ExpandIsDerived(rules, min, syms[1..]);
      var rest :| Matches(rules, syms[1..], rest) && YieldAll(rest) == Expand(syms[1..], min).value;
      var first: Tree;
      match syms[0] {
        case T(x) => first := Leaf(x);
        case N(n) => first :| Derivation(rules, N(n), first) && Yield(first) == min[n];
      }
      var kids := [first] + rest;
      assert kids[0] == first && kids[1..] == rest;
      assert Matches(rules, syms, kids);
      assert YieldAll(kids) == Expand(syms, min).value;
    }
  }

  lemma NodeDerives(rules: Rules, n: string, alt: seq<Sym>, s: seq<string>)
    requires n in rules && alt in rules[n] && DerivesAll(rules, alt, s)
    ensures Derives(rules, N(n), s)
  {
    var kids :| Matches(rules, alt, kids) && YieldAll(kids) == s;
    assert Derivation(rules, N(n), Node(n, alt, kids));
  }

  /** The fixpoint bounds every derivation tree from below. */
  lemma {:induction false} ClosedBoundsTree(rules: Rules, min: Sentences, sym: Sym, t: Tree)
    requires Closed(rules, min) && Derivation(rules, sym, t)
    ensures sym.N? ==> sym.n in min && |min[sym.n]| <= |Yield(t)|
    decreases t
  {
    if sym.N? {
      ClosedBoundsKids(rules, min, t.alt, t.kids);
      var k :| 0 <= k < |rules[sym.n]| && rules[sym.n][k] == t.alt;
      assert Settled(rules, min, sym.n, |rules[sym.n]|);
    }
  }

  lemma {:induction false} ClosedBoundsKids(rules: Rules, min: Sentences, syms: seq<Sym>, kids: seq<Tree>)
    requires Closed(rules, min) && Matches(rules, syms, kids)
    ensures Expand(syms, min).Some? && |Expand(syms, min).value| <= |YieldAll(kids)|
    decreases kids
  {
    if syms != [] {
      ClosedBoundsTree(rules, min, syms[0], kids[0]);
      ClosedBoundsKids(rules, min, syms[1..], kids[1..]);
    }
  }

  lemma FixpointIsShortest(rules: Rules, min: Sentences)
    requires Sound(rules, min) && Closed(rules, min)
    ensures Shortest(rules, min)
  {
    forall n, s | Derives(rules, N(n), s)
      ensures n in min && |min[n]| <= |s|
    {
      var t :| Derivation(rules, N(n), t) && Yield(t) == s;
      ClosedBoundsTree(rules, min, N(n), t);
    }
  }

  // The termination measure: entries still missing, then the total length of those present.

  ghost function Missing(rules: Rules, min: Sentences): nat {
    |rules.Keys - min.Keys|
  }

  ghost function TotalLength(names: seq<string>, min: Sentences): nat {
    if names == [] then 0
    else (if names[0] in min then |min[names[0]]| else 0) + TotalLength(names[1..], min)
  }

  ghost predicate Improves(rules: Rules, names: seq<string>, min: Sentences, before: Sentences) {
    || Missing(rules, min) < Missing(rules, before)
    || (Missing(rules, min) == Missing(rules, before) && TotalLength(names, min) < TotalLength(names, before))
  }

  lemma {:induction false} ShorterEntry(names: seq<string>, min: Sentences, n: string, s: seq<string>)
    requires n in min && |s| < |min[n]|
    ensures TotalLength(names, min[n := s]) <= TotalLength(names, min)
    ensures n in names ==> TotalLength(names, min[n := s]) < TotalLength(names, min)
  {
    if names != [] {
      ShorterEntry(names[1..], min, n, s);
    }
  }

  lemma UpdateImproves(rules: Rules, names: seq<string>, before: Sentences, min: Sentences, n: string, s: seq<string>)
    requires n in rules && n in names
    requires n in min ==> |s| < |min[n]|
    requires min == before || Improves(rules, names, min, before)
    ensures Improves(rules, names, min[n := s], before)
  {
    if n in min {
      assert min[n := s].Keys == min.Keys;
      ShorterEntry(names, min, n, s);
    } else {
      assert rules.Keys - min[n := s].Keys == rules.Keys - min.Keys - {n};
    }
  }

  lemma UpdateIsSound(rules: Rules, min: Sentences, n: string, alt: seq<Sym>)
    requires Sound(rules, min) && n in rules && alt in rules[n] && Expand(alt, min).Some?
    ensures Sound(rules, min[n := Expand(alt, min).value])
  {
    ExpandIsDerived(rules, min, alt);
    NodeDerives(rules, n, alt, Expand(alt, min).value);
  }

  /** Where a pass stands: the table improved on `before`, or it is still `before`. */
  ghost predicate PassState(rules: Rules, names: seq<string>, before: Sentences, min: Sentences, changed: bool) {
    && Sound(rules, min)
    && if changed then Improves(rules, names, min, before) else min == before
  }

  lemma UpdateGoesOn(rules: Rules, names: seq<string>, before: Sentences, min: Sentences,
                     n: string, alt: seq<Sym>, changed: bool)
    requires PassState(rules, names, before, min, changed)
    requires n in rules && n in names && alt in rules[n] && Expand(alt, min).Some?
    requires n !in min || |Expand(alt, min).value| < |min[n]|
    ensures PassState(rules, names, before, min[n := Expand(alt, min).value], true)
  {
    UpdateIsSound(rules, min, n, alt);
    UpdateImproves(rules, names, before, min, n, Expand(alt, min).value);
  }

  method Listing(s: set<string>) returns (names: seq<string>)
    ensures forall n :: n in names <==> n in s
  {
    names := [];
    var todo := s;
    while todo != {}
      invariant todo <= s
      invariant forall n :: n in names <==> n in s - todo
      decreases todo
    {
      var n :| n in todo;
      names, todo := names + [n], todo - {n};
    }
  }

  /** The shortest sentence each nonterminal derives: passes over the rules until one changes
      nothing. The rules are visited in an arbitrary order. */
  method MinSentences(rules: Rules) returns (min: Sentences)
    ensures Sound(rules, min) && Closed(rules, min)
    ensures Shortest(rules, min)
  {
    min := map[];
    var names := Listing(rules.Keys);
    var changed := true;
    while changed
      invariant Sound(rules, min)
      invariant !changed ==> Closed(rules, min)
      decreases Missing(rules, min), TotalLength(names, min), changed
    {
      min, changed := Pass(rules, names, min);
      if !changed { AllSettledIsClosed(rules, min, names); }
    }
    FixpointIsShortest(rules, min);
  }

  method Pass(rules: Rules, names: seq<string>, before: Sentences) returns (min: Sentences, changed: bool)
    requires Sound(rules, before)
    requires forall k :: 0 <= k < |names| ==> names[k] in rules
    ensures PassState(rules, names, before, min, changed)
    ensures !changed ==> AllSettled(rules, min, names, |names|)
  {
    min, changed := before, false;
    for i := 0 to |names|
      invariant PassState(rules, names, before, min, changed)
      invariant !changed ==> AllSettled(rules, min, names, i)
    {
      var next, nowChanged := ImproveEntry(rules, names, before, min, names[i], changed);
      if !nowChanged { OneMoreSettled(rules, next, names, i); }
      min, changed := next, nowChanged;
    }
  }

  /** One nonterminal of a pass: each of its alternatives in turn. */
  method ImproveEntry(rules: Rules, ghost names: seq<string>, ghost before: Sentences,
                      start: Sentences, name: string, wasChanged: bool)
    returns (min: Sentences, changed: bool)
    requires name in rules && name in names
    requires PassState(rules, names, before, start, wasChanged)
    ensures PassState(rules, names, before, min, changed)
    ensures wasChanged ==> changed
    ensures !changed ==> min == start && Settled(rules, min, name, |rules[name]|)
  {
    min, changed := start, wasChanged;
    var alts := rules[name];
    for j := 0 to |alts|
      invariant PassState(rules, names, before, min, changed)
      invariant wasChanged ==> changed
      invariant !changed ==> min == start && Settled(rules, min, name, j)
    {
      var sentence := ExpandSymbols(alts[j], min);
      if sentence.Some? && (name !in min || |sentence.value| < |min[name]|) {
        UpdateGoesOn(rules, names, before, min, name, alts[j], changed);
        min, changed := min[name := sentence.value], true;
      } else if !changed {
        OneMoreAlternative(rules, min, name, j);
      }
    }
  }
}
