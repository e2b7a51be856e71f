/** Every interleaving of the language server's handlers (src/bin/chezzi-lsp.rs). Opens, changes,
    saves and closes run concurrently; a check runs unlocked; a decision and its sends hold one lock;
    a send replaces one uri's whole array at the client. */
module LspProtocol {
  import opened Wrappers
  import opened Diagnostics

  /** A handler in flight. A publish is started by an open, a change or a save, whose text it checks;
      texts are numbered in the order received. */
  datatype Task =
    | Opening(uri: Url, version: nat)                       // has not yet marked its buffer open
    | Checking(uri: Url, version: nat)                      // type-checks, unlocked
    | Checked(uri: Url, version: nat, targets: Targets)     // waits for the lock
    | Closing(uri: Url)                                     // waits for the lock

  /** The lock, with the unions its holder has still to send. */
  datatype Lock = Free | Held(pending: map<Url, seq<Diagnostic>>)

  datatype State = State(
    open: set<Url>,
    bySource: Sources,
    lock: Lock,
    tasks: multiset<Task>,
    received: nat,
    client: map<Url, seq<Diagnostic>>)

  datatype Event =
    | Receive(task: Task)
    | MarkOpen(uri: Url, version: nat)
    | Check(uri: Url, version: nat, targets: Targets)
    | Publish(uri: Url, version: nat, targets: Targets)
    | Close(uri: Url)
    | Deliver(target: Url)
    | Release

  /** The array the client shows for `t`. */
  ghost function Shown(s: State, t: Url): seq<Diagnostic> {
    if t in s.client then s.client[t] else []
  }

  ghost predicate Init(s: State) {
    s == State({}, map[], Free, multiset{}, 0, map[])
  }

  ghost function Unions(sources: Sources, targets: set<Url>): map<Url, seq<Diagnostic>> {
    map t | t in targets :: Union(sources, t)
  }

  ghost predicate Step(s: State, ev: Event, s': State) {
    match ev
    case Receive(task) =>
      && !task.Checked? && (task.Closing? || task.version == s.received)
      && s' == s.(tasks := s.tasks + multiset{task}, received := s.received + 1)
    case MarkOpen(uri, version) =>
      && s.lock.Free? && Opening(uri, version) in s.tasks
      && s' == s.(open := s.open + {uri},
                  tasks := s.tasks - multiset{Opening(uri, version)} + multiset{Checking(uri, version)})
    case Check(uri, version, targets) =>
      && Checking(uri, version) in s.tasks && uri in targets
      && s' == s.(tasks := s.tasks - multiset{Checking(uri, version)} + multiset{Checked(uri, version, targets)})
    case Publish(uri, version, targets) =>
      && s.lock.Free? && Checked(uri, version, targets) in s.tasks
      && var rest := s.tasks - multiset{Checked(uri, version, targets)};
         if uri !in s.open then s' == s.(tasks := rest)
         else
           var after := s.bySource[uri := targets];
           var affected := OldTargets(s.bySource, uri).Keys + targets.Keys;
           s' == s.(bySource := after, lock := Held(Unions(after, affected)), tasks := rest)
    case Close(uri) =>
      && s.lock.Free? && Closing(uri) in s.tasks
      && var after := s.bySource - {uri};
         var affected := OldTargets(s.bySource, uri).Keys;
         s' == s.(open := s.open - {uri}, bySource := after, lock := Held(Unions(after, affected)),
                  tasks := s.tasks - multiset{Closing(uri)})
    case Deliver(t) =>
      && s.lock.Held? && t in s.lock.pending
      && s' == s.(client := s.client[t := s.lock.pending[t]], lock := Held(s.lock.pending - {t}))
    case Release =>
      s.lock == Held(map[]) && s' == s.(lock := Free)
  }

  ghost predicate Path(states: seq<State>, events: seq<Event>) {
    && |states| == |events| + 1
    && forall i :: 0 <= i < |events| ==> Step(states[i], events[i], states[i + 1])
  }

  ghost predicate Run(states: seq<State>, events: seq<Event>) {
    Path(states, events) && Init(states[0])
  }

  // ----- the decisions of the server are the decisions of the protocol -----

  /** The client's arrays after the sends, one after the other. */
  ghost function Applied(client: map<Url, seq<Diagnostic>>, sends: seq<Send>): map<Url, seq<Diagnostic>> {
    if sends == [] then client
    else
      var front, last := sends[..|sends| - 1], sends[|sends| - 1];
      Applied(client, front)[last.target := last.diagnostics]
  }

  lemma {:induction false} AppliedKeys(client: map<Url, seq<Diagnostic>>, sends: seq<Send>, t: Url)
    ensures t in Applied(client, sends) <==> t in client || exists i :: 0 <= i < |sends| && sends[i].target == t
    ensures (forall i :: 0 <= i < |sends| ==> sends[i].target != t) && t in client ==> Applied(client, sends)[t] == client[t]
  {
    if sends != [] {
      var front := sends[..|sends| - 1];
      AppliedKeys(client, front, t);
      assert forall i :: 0 <= i < |front| ==> sends[i] == front[i];
    }
  }

  lemma {:induction false} AppliedUnions(client: map<Url, seq<Diagnostic>>, sends: seq<Send>, sources: Sources, t: Url)
    requires forall i :: 0 <= i < |sends| ==> sends[i].diagnostics == Union(sources, sends[i].target)
    requires exists i :: 0 <= i < |sends| && sends[i].target == t
    ensures t in Applied(client, sends) && Applied(client, sends)[t] == Union(sources, t)
  {
    var front, last := sends[..|sends| - 1], sends[|sends| - 1];
    if last.target != t {
      var i :| 0 <= i < |sends| && sends[i].target == t;
      assert front[i].target == t;
      AppliedUnions(client, front, sources, t);
    }
  }

  /** The sends a decision returns are exactly the pending sends of the protocol's step. */
  lemma SendsArePending(sends: seq<Send>, sources: Sources, targets: set<Url>)
    requires AreUnions(sends, sources, targets)
    ensures Applied(map[], sends) == Unions(sources, targets)
    ensures |sends| == |targets|
  {
    var queued := Applied(map[], sends);
    forall t ensures t in queued <==> t in targets {
      QueuedIffTarget(sends, sources, targets, t);
    }
    forall t | t in targets ensures queued[t] == Union(sources, t) {
      AppliedUnions(map[], sends, sources, t);
    }
    CountSends(sends, targets);
  }

  lemma QueuedIffTarget(sends: seq<Send>, sources: Sources, targets: set<Url>, t: Url)
    requires AreUnions(sends, sources, targets)
    ensures t in Applied(map[], sends) <==> t in targets
  {
    AppliedKeys(map[], sends, t);
  }

  lemma {:induction false} CountSends(sends: seq<Send>, targets: set<Url>)
    requires forall i :: 0 <= i < |sends| ==> sends[i].target in targets
    requires forall t :: t in targets ==> exists i :: 0 <= i < |sends| && sends[i].target == t
    requires forall i, j :: 0 <= i < j < |sends| ==> sends[i].target != sends[j].target
    ensures |sends| == |targets|
  {
    if sends == [] {
      assert targets == {};
    } else {
      var front, last := sends[..|sends| - 1], sends[|sends| - 1];
      forall t | t in targets - {last.target} ensures exists i :: 0 <= i < |front| && front[i].target == t {
        var i :| 0 <= i < |sends| && sends[i].target == t;
        assert front[i].target == t;
      }
      CountSends(front, targets - {last.target});
    }
  }

  // ----- what every step keeps -----

  /** Targets whose send the lock's holder has still to make. */
  ghost function Pending(s: State): map<Url, seq<Diagnostic>> {
    if s.lock.Held? then s.lock.pending else map[]
  }

  /** Outside the pending sends the client shows every union; a pending send carries one. */
  ghost predicate Coherent(s: State) {
    && (forall t :: t !in Pending(s) ==> Shown(s, t) == Union(s.bySource, t))
    && (forall t :: t in Pending(s) ==> Pending(s)[t] == Union(s.bySource, t))
  }

  ghost predicate Inv(s: State) {
    s.bySource.Keys <= s.open && Coherent(s)
  }

  /** A decision that changes what `uri` reports and queues the unions of all it reported on before
      or reports on now leaves every other union as the client shows it. */
  lemma DecisionIsCoherent(s: State, uri: Url, after: Sources, affected: set<Url>, s': State)
    requires Coherent(s) && s.lock.Free?
    requires s'.bySource == after && s'.lock == Held(Unions(after, affected)) && s'.client == s.client
    requires after.Keys - {uri} == s.bySource.Keys - {uri}
    requires forall u :: u in s.bySource && u != uri ==> u in after && s.bySource[u] == after[u]
    requires forall t :: ReportsOn(s.bySource, uri, t) || ReportsOn(after, uri, t) ==> t in affected
    ensures Coherent(s')
  {
    forall t | t !in s'.lock.pending ensures Shown(s', t) == Union(after, t) {
      UnaffectedUnion(s.bySource, after, uri, t);
    }
  }

  lemma StepKeepsInv(s: State, ev: Event, s': State)
    requires Inv(s) && Step(s, ev, s')
    ensures Inv(s')
  {
    match ev
    case Publish(uri, _, targets) =>
      if uri in s.open {
        DecisionIsCoherent(s, uri, s'.bySource, OldTargets(s.bySource, uri).Keys + targets.Keys, s');
      }
    case Close(uri) => DecisionIsCoherent(s, uri, s'.bySource, OldTargets(s.bySource, uri).Keys, s');
    case _ =>
  }

  lemma {:induction false} RunKeepsInv(states: seq<State>, events: seq<Event>, i: nat)
    requires Run(states, events) && i < |states|
    ensures Inv(states[i])
  {
    if i > 0 {
      RunKeepsInv(states, events, i - 1);
      StepKeepsInv(states[i - 1], events[i - 1], states[i]);
    }
  }

  /** Whenever the lock is free the client shows, for every uri, the union over the open buffers;
      while it is held only the targets still to be sent may differ. */
  lemma ClientShowsUnions(states: seq<State>, events: seq<Event>, i: nat, t: Url)
    requires Run(states, events) && i < |states|
    requires states[i].lock.Free? || t !in states[i].lock.pending
    ensures Shown(states[i], t) == Union(states[i].bySource, t)
  {
    RunKeepsInv(states, events, i);
  }

  /** With every buffer closed and the lock free, the client shows nothing anywhere. */
  lemma AllClosedIsClear(states: seq<State>, events: seq<Event>, i: nat, t: Url)
    requires Run(states, events) && i < |states|
    requires states[i].open == {} && states[i].lock.Free?
    ensures Shown(states[i], t) == []
  {
    RunKeepsInv(states, events, i);
  }

  // ----- the state as a function of the history -----

  /** The buffer was marked open and not closed since. */
  ghost predicate IsOpen(events: seq<Event>, u: Url) {
    events != [] &&
    var front, last := events[..|events| - 1], events[|events| - 1];
    if last.MarkOpen? && last.uri == u then true else last != Close(u) && IsOpen(front, u)
  }

  datatype Report = Report(version: nat, targets: Targets)

  /** What the last publish of `u` that found it open reported, unless it was closed since. */
  ghost function LastReport(events: seq<Event>, u: Url): Option<Report> {
    if events == [] then None
    else
      var front, last := events[..|events| - 1], events[|events| - 1];
      if last == Close(u) then None
      else if last.Publish? && last.uri == u && IsOpen(front, u) then Some(Report(last.version, last.targets))
      else LastReport(front, u)
  }

  /** The history so far says which buffers are open and what each reports. */
  ghost predicate Recorded(events: seq<Event>, s: State, u: Url) {
    && (u in s.open <==> IsOpen(events, u))
    && (u in s.bySource <==> LastReport(events, u).Some?)
    && (u in s.bySource ==> s.bySource[u] == LastReport(events, u).value.targets)
  }

  lemma StepIsRecorded(events: seq<Event>, s: State, ev: Event, s': State, u: Url)
    requires Recorded(events, s, u) && Step(s, ev, s')
    ensures Recorded(events + [ev], s', u)
  {
    assert (events + [ev])[..|events|] == events;
  }

  /** After any run the sources are exactly the last reports: a publish that lost a race against a
      close leaves no trace, and nothing a buffer reported before its close comes back. */
  lemma {:induction false} SourcesAreLastReports(states: seq<State>, events: seq<Event>, i: nat, u: Url)
    requires Run(states, events) && i < |states|
    ensures Recorded(events[..i], states[i], u)
  {
    if i > 0 {
      var front, ev := events[..i - 1], events[i - 1];
      SourcesAreLastReports(states, events, i - 1, u);
      StepIsRecorded(front, states[i - 1], ev, states[i], u);
      assert front + [ev] == events[..i];
    }
  }

  /** Closed at `i` and not opened up to `j`: whatever checks were in flight, the buffer is no
      source anywhere in between. */
  lemma {:induction false} ClosedStaysSilent(states: seq<State>, events: seq<Event>, u: Url, i: nat, j: nat)
    requires Run(states, events) && i <= j < |states|
    requires u !in states[i].open && forall k :: i <= k < j ==> !(events[k].MarkOpen? && events[k].uri == u)
    ensures u !in states[j].open && u !in states[j].bySource
  {
    RunKeepsInv(states, events, j);
    if i < j {
      ClosedStaysSilent(states, events, u, i, j - 1);
      assert Step(states[j - 1], events[j - 1], states[j]);
    }
  }

  // ----- the lock is always given back -----

  lemma OneStepEarlier(s: State, ev: Event, states: seq<State>, events: seq<Event>)
    requires Path(states, events) && Step(s, ev, states[0])
    ensures Path([s] + states, [ev] + events)
  {
    forall i | 0 <= i < |events| + 1
      ensures Step(([s] + states)[i], ([ev] + events)[i], ([s] + states)[i + 1])
    {
      if i > 0 { assert Step(states[i - 1], events[i - 1], states[i]); }
    }
  }

  /** `end` is `s` with the lock free and the client showing every union. */
  ghost predicate Drained(s: State, end: State) {
    && end.lock.Free? && end.open == s.open && end.bySource == s.bySource && end.tasks == s.tasks
    && forall t :: Shown(end, t) == Union(s.bySource, t)
  }

  /** One pending send, made. */
  lemma SendOne(s: State) returns (ev: Event, next: State)
    requires Inv(s) && s.lock.Held? && s.lock.pending != map[]
    ensures Step(s, ev, next) && Inv(next) && next.lock.Held? && |next.lock.pending| == |s.lock.pending| - 1
    ensures next.open == s.open && next.bySource == s.bySource && next.tasks == s.tasks
  {
    var t :| t in s.lock.pending;
    ev, next := Deliver(t), s.(client := s.client[t := s.lock.pending[t]], lock := Held(s.lock.pending - {t}));
    StepKeepsInv(s, ev, next);
    assert next.lock.pending.Keys == s.lock.pending.Keys - {t};
  }

  /** The last step of the holder: all is sent. */
  lemma ReleaseLock(s: State) returns (states: seq<State>, events: seq<Event>)
    requires Inv(s) && s.lock == Held(map[])
    ensures |states| == 2 && |events| == 1 && states[0] == s && Path(states, events) && Drained(s, states[1])
  {
    var end := s.(lock := Free);
    states, events := [s, end], [Release];
    forall t ensures Shown(end, t) == Union(s.bySource, t) {
      assert t !in Pending(s);
    }
  }

  /** The holder's sends, in any order, end with the lock free, the decision kept and the client
      showing every union. */
  lemma {:induction false} Drain(s: State) returns (states: seq<State>, events: seq<Event>)
    requires Inv(s) && s.lock.Held?
    ensures |events| == |s.lock.pending| + 1 && |states| == |events| + 1 && states[0] == s
    ensures Path(states, events) && Drained(s, states[|events|])
    decreases |s.lock.pending|
  {
    if s.lock.pending == map[] {
      states, events := ReleaseLock(s);
    } else {
      var ev, next := SendOne(s);
      var rest, restEvents := Drain(next);
      states, events := [s] + rest, [ev] + restEvents;
      OneStepEarlier(s, ev, rest, restEvents);
    }
  }
}
