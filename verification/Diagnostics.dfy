/** What each open buffer reports and what the client must show for it: the state behind the lock of
    src/bin/chezzi-lsp.rs and its decisions. */
module Diagnostics {
  import opened Wrappers
  import opened Order
  import opened Sequences

  type Url = string

  datatype Severity = Error | Warning

  /** One published diagnostic: its range, severity and message. */
  datatype Diagnostic = Diagnostic(line: nat, col: nat, endLine: nat, endCol: nat, severity: Severity, message: string)

  /** A finding of the checker, with the file it belongs to when that is not the checked buffer. */
  datatype Finding = Finding(file: Option<string>, diagnostic: Diagnostic)

  /** What one check of a buffer reports, by the uri it reports on. */
  type Targets = map<Url, seq<Diagnostic>>

  /** What every open buffer last reported. */
  type Sources = map<Url, Targets>

  // ----- one check, grouped by target -----

  function TargetOf(toUrl: string -> Option<Url>, uri: Url, f: Finding): Url {
    if f.file.Some? && toUrl(f.file.value).Some? then toUrl(f.file.value).value else uri
  }

  /** The findings on `t`, in the order they were found. */
  function FindingsOn(toUrl: string -> Option<Url>, uri: Url, findings: seq<Finding>, t: Url): seq<Diagnostic> {
    if findings == [] then []
    else
      var front, last := findings[..|findings| - 1], findings[|findings| - 1];
      FindingsOn(toUrl, uri, front, t) + if TargetOf(toUrl, uri, last) == t then [last.diagnostic] else []
  }

  /** A finding lands on its own file's uri, and on the checked buffer's when it has no file or the file
      has no uri. */
  lemma FindingLands(toUrl: string -> Option<Url>, uri: Url, f: Finding, t: Url)
    ensures FindingsOn(toUrl, uri, [f], t) == [f.diagnostic] || FindingsOn(toUrl, uri, [f], t) == []
    ensures f.file.None? ==> (FindingsOn(toUrl, uri, [f], t) != [] <==> t == uri)
    ensures f.file.Some? && toUrl(f.file.value).None? ==> (FindingsOn(toUrl, uri, [f], t) != [] <==> t == uri)
    ensures f.file.Some? && toUrl(f.file.value).Some? ==>
              (FindingsOn(toUrl, uri, [f], t) != [] <==> Some(t) == toUrl(f.file.value))
  {
    assert [f][..0] == [];
  }

  /** The findings on a target keep their order. Together with `FindingLands` this fixes them. */
  lemma {:induction false} FindingsConcat(toUrl: string -> Option<Url>, uri: Url, a: seq<Finding>, b: seq<Finding>, t: Url)
    ensures FindingsOn(toUrl, uri, a + b, t) == FindingsOn(toUrl, uri, a, t) + FindingsOn(toUrl, uri, b, t)
    decreases |b|
  {
    if b == [] {
      assert a + b == a;
    } else {
      var front := b[..|b| - 1];
      assert (a + b)[..|a + b| - 1] == a + front;
      FindingsConcat(toUrl, uri, a, front, t);
    }
  }

  /** The entries are the findings by target. */
  ghost predicate Groups(toUrl: string -> Option<Url>, uri: Url, findings: seq<Finding>, targets: Targets) {
    && (forall t :: t in targets ==> targets[t] == FindingsOn(toUrl, uri, findings, t))
    && (forall t :: t !in targets ==> FindingsOn(toUrl, uri, findings, t) == [])
  }

  lemma OneMoreFinding(toUrl: string -> Option<Url>, uri: Url, findings: seq<Finding>, f: Finding, targets: Targets)
    requires Groups(toUrl, uri, findings, targets)
    ensures var t := TargetOf(toUrl, uri, f);
      Groups(toUrl, uri, findings + [f], targets[t := (if t in targets then targets[t] else []) + [f.diagnostic]])
  {
    assert (findings + [f])[..|findings|] == findings;
  }

  /** The checked buffer always has an entry, and every finding lands on exactly one target. */
  method GroupByTarget(toUrl: string -> Option<Url>, uri: Url, findings: seq<Finding>) returns (targets: Targets)
    ensures uri in targets
    ensures Groups(toUrl, uri, findings, targets)
  {
    targets := map[uri := []];
    for i := 0 to |findings|
      invariant uri in targets
      invariant Groups(toUrl, uri, findings[..i], targets)
    {
      OneMoreFinding(toUrl, uri, findings[..i], findings[i], targets);
      assert findings[..i + 1] == findings[..i] + [findings[i]];
      var t := TargetOf(toUrl, uri, findings[i]);
      targets := targets[t := (if t in targets then targets[t] else []) + [findings[i].diagnostic]];
    }
    assert findings[..|findings|] == findings;
  }

  // ----- the union a target must show -----

  function Contribution(sources: Sources, s: Url, t: Url): seq<Diagnostic>
    requires s in sources
  {
    if t in sources[s] then sources[s][t] else []
  }

  /** What the sources in `keys` report on `t`, in source order. */
  ghost function Merge(sources: Sources, keys: set<Url>, t: Url): seq<Diagnostic>
    requires keys <= sources.Keys
    decreases keys
  {
    if keys == {} then []
    else Contribution(sources, First(keys), t) + Merge(sources, keys - {First(keys)}, t)
  }

  ghost function Union(sources: Sources, t: Url): seq<Diagnostic> {
    Merge(sources, sources.Keys, t)
  }

  /** A source that says nothing about `t` does not matter. */
  lemma {:induction false} SilentSource(sources: Sources, keys: set<Url>, u: Url, t: Url)
    requires keys <= sources.Keys && u in keys && Contribution(sources, u, t) == []
    ensures Merge(sources, keys, t) == Merge(sources, keys - {u}, t)
    decreases keys
  {
    var m := First(keys);
    if m != u {
      assert m in keys - {u};
      FirstIsUnique(m, First(keys - {u}), keys - {u});
      SilentSource(sources, keys - {m}, u, t);
      assert keys - {m} - {u} == keys - {u} - {m};
    }
  }

  lemma {:induction false} MergeAgrees(a: Sources, b: Sources, keys: set<Url>, t: Url)
    requires keys <= a.Keys && keys <= b.Keys
    requires forall s :: s in keys ==> a[s] == b[s]
    ensures Merge(a, keys, t) == Merge(b, keys, t)
    decreases keys
  {
    if keys != {} { MergeAgrees(a, b, keys - {First(keys)}, t); }
  }

  /** The first of two sets of keys, one before the other, is the first of the former. */
  lemma FirstOfBoth(a: set<Url>, b: set<Url>)
    requires a != {} && forall s, u :: s in a && u in b ==> Less(s, u)
    ensures First(a + b) == First(a)
  {
    var m := First(a);
    assert IsFirst(m, a + b);
    FirstIsUnique(m, First(a + b), a + b);
  }

  lemma {:induction false} MergeSplits(sources: Sources, a: set<Url>, b: set<Url>, t: Url)
    requires a + b <= sources.Keys && forall s, u :: s in a && u in b ==> Less(s, u)
    ensures Merge(sources, a + b, t) == Merge(sources, a, t) + Merge(sources, b, t)
    decreases a
  {
    if a == {} {
      assert a + b == b;
    } else {
      var m := First(a);
      FirstOfBoth(a, b);
      if m in b { Asymmetric(m, m); }
      assert a + b - {m} == a - {m} + b;
      MergeSplits(sources, a - {m}, b, t);
      Assoc(Contribution(sources, m, t), Merge(sources, a - {m}, t), Merge(sources, b, t));
    }
  }

  /** What two groups of sources report, one group before the other in order, is what the first reports
      followed by what the second reports. */
  lemma UnionOfBoth(a: Sources, b: Sources, t: Url)
    requires forall s, u :: s in a && u in b ==> Less(s, u)
    ensures Union(a + b, t) == Union(a, t) + Union(b, t)
  {
    forall s | s in a && s in b ensures false {
      Asymmetric(s, s);
    }
    assert (a + b).Keys == a.Keys + b.Keys;
    MergeSplits(a + b, a.Keys, b.Keys, t);
    MergeAgrees(a + b, a, a.Keys, t);
    MergeAgrees(a + b, b, b.Keys, t);
  }

  /** One source alone shows its own array, or nothing. Together with `UnionOfBoth` this fixes every union. */
  lemma UnionOfOne(u: Url, targets: Targets, t: Url)
    ensures Union(map[u := targets], t) == if t in targets then targets[t] else []
    ensures Union(map[], t) == []
  {
    var sources := map[u := targets];
    assert sources.Keys == {u};
    assert First({u}) == u;
    assert {u} - {u} == {};
    assert Merge(sources, {u}, t) == Contribution(sources, u, t) + [];
  }

  ghost predicate ReportsOn(sources: Sources, u: Url, t: Url) {
    u in sources && t in sources[u]
  }

  /** A target that `u` reports on neither before nor after a change of `u` keeps its union. */
  lemma UnaffectedUnion(a: Sources, b: Sources, u: Url, t: Url)
    requires a.Keys - {u} == b.Keys - {u}
    requires forall s :: s in a && s != u ==> s in b && a[s] == b[s]
    requires !ReportsOn(a, u, t) && !ReportsOn(b, u, t)
    ensures Union(a, t) == Union(b, t)
  {
    var rest := a.Keys - {u};
    if u in a { SilentSource(a, a.Keys, u, t); } else { assert a.Keys == rest; }
    if u in b { SilentSource(b, b.Keys, u, t); } else { assert b.Keys == rest; }
    MergeAgrees(a, b, rest, t);
  }

  /** One notification: a uri's whole array. */
  datatype Send = Send(target: Url, diagnostics: seq<Diagnostic>)

  /** One send per target, each carrying the target's union. */
  ghost predicate AreUnions(sends: seq<Send>, sources: Sources, targets: set<Url>) {
    && (forall i :: 0 <= i < |sends| ==> sends[i].target in targets)
    && (forall t :: t in targets ==> exists i :: 0 <= i < |sends| && sends[i].target == t)
    && (forall i, j :: 0 <= i < j < |sends| ==> sends[i].target != sends[j].target)
    && (forall i :: 0 <= i < |sends| ==> sends[i].diagnostics == Union(sources, sends[i].target))
  }

  /** The union over every source, for each of `targets`, in an arbitrary order of targets. */
  method UnionTargets(sources: Sources, targets: set<Url>) returns (sends: seq<Send>)
    ensures AreUnions(sends, sources, targets)
  {
    var ordered := SortSet(sources.Keys);
    sends := [];
    var todo := targets;
    while todo != {}
      invariant todo <= targets && AreUnions(sends, sources, targets - todo)
      decreases todo
    {
      var t :| t in todo;
      var merged := MergeSources(sources, ordered, t);
      OneMoreUnion(sends, sources, targets - todo, t);
      assert targets - (todo - {t}) == targets - todo + {t};
      sends, todo := sends + [Send(t, merged)], todo - {t};
    }
    assert targets - todo == targets;
  }

  lemma OneMoreUnion(sends: seq<Send>, sources: Sources, targets: set<Url>, t: Url)
    requires AreUnions(sends, sources, targets) && t !in targets
    ensures AreUnions(sends + [Send(t, Union(sources, t))], sources, targets + {t})
  {
    var more := sends + [Send(t, Union(sources, t))];
    assert more[|sends|].target == t;
    forall x | x in targets ensures exists i :: 0 <= i < |more| && more[i].target == x {
      var i :| 0 <= i < |sends| && sends[i].target == x;
      assert more[i].target == x;
    }
  }

  method MergeSources(sources: Sources, ordered: seq<Url>, t: Url) returns (merged: seq<Diagnostic>)
    requires ordered == Sorted(sources.Keys)
    ensures merged == Union(sources, t)
  {
    merged := [];
    ghost var left := sources.Keys;
    for i := 0 to |ordered|
      invariant left <= sources.Keys && ordered[i..] == Sorted(left)
      invariant Union(sources, t) == merged + Merge(sources, left, t)
    {
      assert left != {} && ordered[i] == First(left);
      assert ordered[i + 1..] == ordered[i..][1..];
      if t in sources[ordered[i]] { merged := merged + sources[ordered[i]][t]; }
      left := left - {ordered[i]};
    }
    assert left != {} ==> |Sorted(left)| > 0;
  }

  // ----- the decisions taken under the lock -----

  function OldTargets(sources: Sources, u: Url): Targets {
    if u in sources then sources[u] else map[]
  }

  class Published {
    var open: set<Url>
    var bySource: Sources

    constructor ()
      ensures open == {} && bySource == map[]
    {
      open, bySource := {}, map[];
    }

    /** Commit `targets` as what `uri` reports and return the unions to send, or decline without any
        change when `uri` is not open. */
    method DecidePublish(uri: Url, targets: Targets) returns (r: Option<seq<Send>>)
      modifies this`bySource
      ensures r.None? <==> uri !in open
      ensures r.None? ==> bySource == old(bySource)
      ensures r.Some? ==> bySource == old(bySource)[uri := targets]
      ensures r.Some? ==> AreUnions(r.value, bySource, OldTargets(old(bySource), uri).Keys + targets.Keys)
    {
      if uri !in open { return None; }
      var affected := OldTargets(bySource, uri).Keys + targets.Keys;
      bySource := bySource[uri := targets];
      var sends := UnionTargets(bySource, affected);
      r := Some(sends);
    }

    /** Forget `uri` and return the unions to send for what it used to report on. */
    method DecideClose(uri: Url) returns (sends: seq<Send>)
      modifies this
      ensures open == old(open) - {uri}
      ensures bySource == old(bySource) - {uri}
      ensures AreUnions(sends, bySource, OldTargets(old(bySource), uri).Keys)
    {
      open := open - {uri};
      var affected := OldTargets(bySource, uri).Keys;
      bySource := bySource - {uri};
      sends := UnionTargets(bySource, affected);
    }
  }
}
