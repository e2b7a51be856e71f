/** Whose report stays at the client when several checks of one buffer are in flight
    (src/bin/chezzi-lsp.rs): that of the check that reached the lock last, which need not be the newest
    text's. */
module LspVersions {
  import opened Wrappers
  import opened Diagnostics
  import opened LspProtocol

  // ----- what the history says -----

  /** The number of the newest text received for `u`. */
  ghost function LastText(events: seq<Event>, u: Url): Option<nat> {
    if events == [] then None
    else
      var front, last := events[..|events| - 1], events[|events| - 1];
      if last.Receive? && !last.task.Closing? && last.task.uri == u then Some(last.task.version) else LastText(front, u)
  }

  /** The text of the check of `u` that reached the lock last, open or not. */
  ghost function LastPublish(events: seq<Event>, u: Url): Option<nat> {
    if events == [] then None
    else
      var front, last := events[..|events| - 1], events[|events| - 1];
      if last.Publish? && last.uri == u then Some(last.version) else LastPublish(front, u)
  }

  ghost predicate Publishes(ev: Event, u: Url, version: nat) {
    ev.Publish? && ev.uri == u && ev.version == version
  }

  ghost predicate WasPublished(events: seq<Event>, u: Url, version: nat) {
    exists i :: 0 <= i < |events| && Publishes(events[i], u, version)
  }

  /** Checks of `u` reach the lock in the order their texts came. */
  ghost predicate InOrder(events: seq<Event>, u: Url) {
    forall i, j :: 0 <= i < j < |events| && events[i].Publish? && events[j].Publish? && events[i].uri == u && events[j].uri == u ==>
      events[i].version <= events[j].version
  }

  // ----- what is in flight -----

  ghost predicate Handles(task: Task, u: Url) {
    !task.Closing? && task.uri == u
  }

  /** A handler of `u` has yet to publish. */
  ghost predicate InFlight(s: State, u: Url, version: nat) {
    exists task :: task in s.tasks && Handles(task, u) && task.version == version
  }

  /** A handler of `u` that has marked it open, or found it so, has yet to publish. */
  ghost predicate Ahead(s: State, u: Url) {
    exists task :: task in s.tasks && Handles(task, u) && !task.Opening?
  }

  ghost predicate Quiet(s: State, u: Url) {
    forall task :: task in s.tasks ==> !Handles(task, u)
  }

  // ----- what every step keeps -----

  /** An open buffer with no check ahead shows the report of the last check to reach the lock. */
  ghost predicate ShowsLast(events: seq<Event>, s: State, u: Url) {
    u in s.open && !Ahead(s, u) ==>
      LastReport(events, u).Some? && LastPublish(events, u) == Some(LastReport(events, u).value.version)
  }

  /** The newest text is being handled or was published. */
  ghost predicate NewestIsKnown(events: seq<Event>, s: State, u: Url) {
    var v := LastText(events, u);
    v.Some? ==> v.value < s.received && (InFlight(s, u, v.value) || WasPublished(events, u, v.value))
  }

  /** No text is newer than the newest. */
  ghost predicate NoneIsNewer(events: seq<Event>, s: State, u: Url) {
    var v := LastText(events, u);
    && (forall task :: task in s.tasks && Handles(task, u) ==> v.Some? && task.version <= v.value)
    && (LastPublish(events, u).Some? ==> v.Some? && LastPublish(events, u).value <= v.value)
    && (u in s.open ==> v.Some?)
  }

  lemma OneMoreEvent(events: seq<Event>, ev: Event, u: Url)
    ensures var more := events + [ev];
      && LastText(more, u) == (if ev.Receive? && Handles(ev.task, u) then Some(ev.task.version) else LastText(events, u))
      && LastPublish(more, u) == (if ev.Publish? && ev.uri == u then Some(ev.version) else LastPublish(events, u))
      && LastReport(more, u) == (if ev == Close(u) then None
                                 else if ev.Publish? && ev.uri == u && IsOpen(events, u) then Some(Report(ev.version, ev.targets))
                                 else LastReport(events, u))
  {
    assert (events + [ev])[..|events|] == events;
  }

  lemma AheadUntilPublished(s: State, ev: Event, s': State, u: Url)
    requires Step(s, ev, s') && Ahead(s, u)
    ensures Ahead(s', u) || (ev.Publish? && ev.uri == u)
  {
    var task :| task in s.tasks && Handles(task, u) && !task.Opening?;
    if task in s'.tasks {
      assert Handles(task, u) && !task.Opening?;
    } else if ev.Check? {
      var next := Checked(ev.uri, ev.version, ev.targets);
      assert next in s'.tasks && Handles(next, u) && !next.Opening?;
    }
  }

  lemma OpenedIsAhead(s: State, ev: Event, s': State, u: Url)
    requires Step(s, ev, s')
    ensures u in s'.open ==> ev != Close(u) && (u in s.open || Ahead(s', u))
  {
    if ev.MarkOpen? && ev.uri == u {
      var next := Checking(u, ev.version);
      assert next in s'.tasks && Handles(next, u) && !next.Opening?;
    }
  }

  lemma ShowsLastAfter(events: seq<Event>, s: State, ev: Event, s': State, u: Url)
    requires Recorded(events, s, u) && ShowsLast(events, s, u)
    requires u in s'.open ==> ev != Close(u) && (u in s.open || Ahead(s', u))
    requires Ahead(s, u) ==> Ahead(s', u) || (ev.Publish? && ev.uri == u)
    ensures ShowsLast(events + [ev], s', u)
  {
    OneMoreEvent(events, ev, u);
  }

  lemma StepShowsLast(events: seq<Event>, s: State, ev: Event, s': State, u: Url)
    requires Recorded(events, s, u) && ShowsLast(events, s, u) && Step(s, ev, s')
    ensures ShowsLast(events + [ev], s', u)
  {
    if Ahead(s, u) { AheadUntilPublished(s, ev, s', u); }
    OpenedIsAhead(s, ev, s', u);
    ShowsLastAfter(events, s, ev, s', u);
  }

  lemma ReceivedIsHandled(s: State, ev: Event, s': State, u: Url)
    requires Step(s, ev, s')
    ensures s.received <= s'.received
    ensures ev.Receive? && Handles(ev.task, u) ==> ev.task.version < s'.received && InFlight(s', u, ev.task.version)
  {
    if ev.Receive? { assert ev.task in s'.tasks; }
  }

  lemma PublishedStays(events: seq<Event>, ev: Event, u: Url, version: nat)
    requires WasPublished(events, u, version) || Publishes(ev, u, version)
    ensures WasPublished(events + [ev], u, version)
  {
    if WasPublished(events, u, version) {
      var i :| 0 <= i < |events| && Publishes(events[i], u, version);
      assert Publishes((events + [ev])[i], u, version);
    } else {
      assert Publishes((events + [ev])[|events|], u, version);
    }
  }

  lemma StepKnowsNewest(events: seq<Event>, s: State, ev: Event, s': State, u: Url)
    requires NewestIsKnown(events, s, u) && Step(s, ev, s')
    ensures NewestIsKnown(events + [ev], s', u)
  {
    ReceivedIsHandled(s, ev, s', u);
    var v := LastText(events, u);
    if v.Some? && !WasPublished(events, u, v.value) {
      var task :| task in s.tasks && Handles(task, u) && task.version == v.value;
      StillHandled(s, ev, s', task);
    }
    NewestAfter(events, s, ev, s', u);
  }

  lemma NewestAfter(events: seq<Event>, s: State, ev: Event, s': State, u: Url)
    requires NewestIsKnown(events, s, u) && s.received <= s'.received
    requires ev.Receive? && Handles(ev.task, u) ==> ev.task.version < s'.received && InFlight(s', u, ev.task.version)
    requires var v := LastText(events, u);
      v.Some? ==> WasPublished(events, u, v.value) || InFlight(s', u, v.value) || Publishes(ev, u, v.value)
    ensures NewestIsKnown(events + [ev], s', u)
  {
    OneMoreEvent(events, ev, u);
    var v := LastText(events, u);
    if v.Some? && (WasPublished(events, u, v.value) || Publishes(ev, u, v.value)) { PublishedStays(events, ev, u, v.value); }
  }

  /** A handler goes on, one stage further, until it publishes. */
  lemma StillHandled(s: State, ev: Event, s': State, task: Task)
    requires Step(s, ev, s') && task in s.tasks && !task.Closing?
    ensures InFlight(s', task.uri, task.version) || Publishes(ev, task.uri, task.version)
  {
    if task in s'.tasks {
      assert Handles(task, task.uri);
    } else if ev.MarkOpen? {
      assert Checking(ev.uri, ev.version) in s'.tasks && Handles(Checking(ev.uri, ev.version), task.uri);
    } else if ev.Check? {
      var next := Checked(ev.uri, ev.version, ev.targets);
      assert next in s'.tasks && Handles(next, task.uri);
    }
  }

  /** Every handler of `u` after a step was there before, or has just been received. */
  lemma HandledBefore(s: State, ev: Event, s': State, u: Url, task: Task)
    requires Step(s, ev, s') && task in s'.tasks && Handles(task, u)
    ensures InFlight(s, u, task.version) || ev == Receive(task)
  {
    if task in s.tasks {
      assert Handles(task, u);
    } else if ev.MarkOpen? {
      assert Handles(Opening(u, ev.version), u);
    } else if ev.Check? {
      assert Handles(Checking(u, ev.version), u);
    }
  }

  lemma PublishedWasHandled(s: State, ev: Event, s': State, u: Url)
    requires Step(s, ev, s')
    ensures ev.Publish? && ev.uri == u ==> InFlight(s, u, ev.version)
    ensures ev.Receive? && Handles(ev.task, u) ==> ev.task.version == s.received
    ensures u in s'.open ==> u in s.open || exists version :: InFlight(s, u, version)
  {
    if ev.Publish? && ev.uri == u { assert Handles(Checked(u, ev.version, ev.targets), u); }
    if ev.MarkOpen? && ev.uri == u {
      assert Handles(Opening(u, ev.version), u);
      assert InFlight(s, u, ev.version);
    }
  }

  lemma StepMakesNoneNewer(events: seq<Event>, s: State, ev: Event, s': State, u: Url)
    requires NoneIsNewer(events, s, u) && NewestIsKnown(events, s, u) && Step(s, ev, s')
    ensures NoneIsNewer(events + [ev], s', u)
  {
    forall task | task in s'.tasks && Handles(task, u) ensures InFlight(s, u, task.version) || ev == Receive(task) {
      HandledBefore(s, ev, s', u, task);
    }
    PublishedWasHandled(s, ev, s', u);
    NoneNewerAfter(events, s, ev, s', u);
  }

  lemma NoneNewerAfter(events: seq<Event>, s: State, ev: Event, s': State, u: Url)
    requires NoneIsNewer(events, s, u) && NewestIsKnown(events, s, u)
    requires forall task :: task in s'.tasks && Handles(task, u) ==> InFlight(s, u, task.version) || ev == Receive(task)
    requires ev.Publish? && ev.uri == u ==> InFlight(s, u, ev.version)
    requires ev.Receive? && Handles(ev.task, u) ==> ev.task.version == s.received
    requires u in s'.open ==> u in s.open || exists version :: InFlight(s, u, version)
    ensures NoneIsNewer(events + [ev], s', u)
  {
    OneMoreEvent(events, ev, u);
  }

  ghost predicate Tracked(events: seq<Event>, s: State, u: Url) {
    ShowsLast(events, s, u) && NewestIsKnown(events, s, u) && NoneIsNewer(events, s, u)
  }

  lemma StepKeepsTrack(events: seq<Event>, s: State, ev: Event, s': State, u: Url)
    requires Recorded(events, s, u) && Tracked(events, s, u) && Step(s, ev, s')
    ensures Tracked(events + [ev], s', u)
  {
    StepShowsLast(events, s, ev, s', u);
    StepKnowsNewest(events, s, ev, s', u);
    StepMakesNoneNewer(events, s, ev, s', u);
  }

  lemma InitIsTracked(s: State, u: Url)
    requires Init(s)
    ensures Tracked([], s, u)
  {
  }

  lemma {:induction false} RunKeepsTrack(states: seq<State>, events: seq<Event>, i: nat, u: Url)
    requires Run(states, events) && i < |states|
    ensures Tracked(events[..i], states[i], u)
  {
    if i == 0 {
      InitIsTracked(states[0], u);
      assert events[..0] == [];
    } else {
      var front, ev := events[..i - 1], events[i - 1];
      assert front + [ev] == events[..i];
      RunKeepsTrack(states, events, i - 1, u);
      TrackOne(states, events, i - 1, u);
    }
  }

  lemma TrackOne(states: seq<State>, events: seq<Event>, i: nat, u: Url)
    requires Run(states, events) && i < |events| && Tracked(events[..i], states[i], u)
    ensures Tracked(events[..i] + [events[i]], states[i + 1], u)
  {
    SourcesAreLastReports(states, events, i, u);
    StepKeepsTrack(events[..i], states[i], events[i], states[i + 1], u);
  }

  // ----- which report stays -----

  lemma {:induction false} LastPublishIsLast(events: seq<Event>, u: Url, version: nat)
    requires InOrder(events, u) && WasPublished(events, u, version)
    ensures LastPublish(events, u).Some? && LastPublish(events, u).value >= version
  {
    var front, last := events[..|events| - 1], events[|events| - 1];
    var i :| 0 <= i < |events| && Publishes(events[i], u, version);
    if !(last.Publish? && last.uri == u) {
      assert Publishes(front[i], u, version);
      assert InOrder(front, u);
      LastPublishIsLast(front, u, version);
    }
  }

  /** Once its handlers have published, what counts for an open buffer is the report of the check that
      reached the lock last; so it is the newest text's report exactly when that check was the newest
      text's. */
  lemma LastToPublishStays(states: seq<State>, events: seq<Event>, i: nat, u: Url)
    requires Run(states, events) && i < |states| && u in states[i].open && !Ahead(states[i], u)
    ensures u in states[i].bySource && LastReport(events[..i], u).Some? && LastText(events[..i], u).Some?
    ensures states[i].bySource[u] == LastReport(events[..i], u).value.targets
    ensures LastReport(events[..i], u).value.version == LastText(events[..i], u).value <==>
            LastPublish(events[..i], u) == LastText(events[..i], u)
  {
    RunKeepsTrack(states, events, i, u);
    SourcesAreLastReports(states, events, i, u);
  }

  /** If checks of the buffer reach the lock in the order their texts came, the last update wins. */
  lemma NewestWinsInOrder(states: seq<State>, events: seq<Event>, i: nat, u: Url)
    requires Run(states, events) && i < |states| && u in states[i].open && Quiet(states[i], u)
    requires InOrder(events[..i], u)
    ensures u in states[i].bySource && LastReport(events[..i], u).Some?
    ensures LastText(events[..i], u) == Some(LastReport(events[..i], u).value.version)
    ensures states[i].bySource[u] == LastReport(events[..i], u).value.targets
  {
    LastToPublishStays(states, events, i, u);
    RunKeepsTrack(states, events, i, u);
    LastPublishIsLast(events[..i], u, LastText(events[..i], u).value);
  }

  // ----- the older report that stays -----

  lemma OneStepLater(states: seq<State>, events: seq<Event>, ev: Event, s': State)
    requires Run(states, events) && Step(states[|events|], ev, s')
    ensures Run(states + [s'], events + [ev])
  {
    var more, evs := states + [s'], events + [ev];
    forall i | 0 <= i < |evs| ensures Step(more[i], evs[i], more[i + 1]) {
      if i < |events| { assert Step(states[i], events[i], states[i + 1]); }
    }
  }

  /** The report of a check that found the buffer open, published and sent. */
  lemma PublishAndSend(states: seq<State>, events: seq<Event>, u: Url, version: nat, d: seq<Diagnostic>, rest: multiset<Task>)
    returns (states': seq<State>, events': seq<Event>)
    requires Run(states, events)
    requires var s := states[|events|];
      && s.open == {u} && s.bySource.Keys <= {u} && s.lock.Free?
      && (u in s.bySource ==> s.bySource[u].Keys == {u})
      && s.tasks == rest + multiset{Checked(u, version, map[u := d])}
    ensures Run(states', events') && events' == events + [Publish(u, version, map[u := d]), Deliver(u), Release]
    ensures var s := states[|events|];
      states'[|events'|] == s.(bySource := map[u := map[u := d]], tasks := rest, client := s.client[u := d])
  {
    var s, targets := states[|events|], map[u := d];
    var after := map[u := targets];
    assert s.bySource[u := targets] == after;
    assert OldTargets(s.bySource, u).Keys + targets.Keys == {u};
    var pending := Unions(after, {u});
    UnionOfOne(u, targets, u);
    assert s.tasks - multiset{Checked(u, version, targets)} == rest;
    var s1 := s.(bySource := after, lock := Held(pending), tasks := rest);
    OneStepLater(states, events, Publish(u, version, targets), s1);
    var states1, events1 := states + [s1], events + [Publish(u, version, targets)];
    assert pending - {u} == map[];
    var s2 := s1.(client := s.client[u := d], lock := Held(map[]));
    OneStepLater(states1, events1, Deliver(u), s2);
    var states2, events2 := states1 + [s2], events1 + [Deliver(u)];
    var s3 := s2.(lock := Free);
    OneStepLater(states2, events2, Release, s3);
    states', events' := states2 + [s3], events2 + [Release];
  }

  /** Two texts received and both checked, the first one's check still to publish. */
  lemma TwoChecked(u: Url, d0: seq<Diagnostic>, d1: seq<Diagnostic>) returns (states: seq<State>, events: seq<Event>)
    ensures Run(states, events)
    ensures events == [Receive(Opening(u, 0)), MarkOpen(u, 0), Receive(Checking(u, 1)),
                       Check(u, 0, map[u := d0]), Check(u, 1, map[u := d1])]
    ensures states[|events|] == State({u}, map[], Free,
              multiset{Checked(u, 0, map[u := d0])} + multiset{Checked(u, 1, map[u := d1])}, 2, map[])
  {
    var first, second := Checked(u, 0, map[u := d0]), Checked(u, 1, map[u := d1]);
    var s0 := State({}, map[], Free, multiset{}, 0, map[]);
    states, events := [s0], [];
    assert Run(states, events);
    var s1 := s0.(tasks := multiset{Opening(u, 0)}, received := 1);
    assert s0.tasks + multiset{Opening(u, 0)} == s1.tasks;
    OneStepLater(states, events, Receive(Opening(u, 0)), s1);
    states, events := states + [s1], events + [Receive(Opening(u, 0))];
    var s2 := s1.(open := {u}, tasks := multiset{Checking(u, 0)});
    assert s1.tasks - multiset{Opening(u, 0)} + multiset{Checking(u, 0)} == s2.tasks;
    OneStepLater(states, events, MarkOpen(u, 0), s2);
    states, events := states + [s2], events + [MarkOpen(u, 0)];
    var s3 := s2.(tasks := multiset{Checking(u, 0)} + multiset{Checking(u, 1)}, received := 2);
    OneStepLater(states, events, Receive(Checking(u, 1)), s3);
    states, events := states + [s3], events + [Receive(Checking(u, 1))];
    var s4 := s3.(tasks := multiset{Checking(u, 1)} + multiset{first});
    assert s3.tasks - multiset{Checking(u, 0)} + multiset{first} == s4.tasks;
    OneStepLater(states, events, Check(u, 0, map[u := d0]), s4);
    states, events := states + [s4], events + [Check(u, 0, map[u := d0])];
    var s5 := s4.(tasks := multiset{first} + multiset{second});
    assert s4.tasks - multiset{Checking(u, 1)} + multiset{second} == s5.tasks;
    OneStepLater(states, events, Check(u, 1, map[u := d1]), s5);
    states, events := states + [s5], events + [Check(u, 1, map[u := d1])];
  }

  /** Two checks of one buffer may reach the lock in the order opposite to their texts; then the older
      report stays, with every handler done and every send made. */
  lemma OlderReportMayStay(u: Url, d0: seq<Diagnostic>, d1: seq<Diagnostic>) returns (states: seq<State>, events: seq<Event>)
    ensures Run(states, events)
    ensures LastText(events, u) == Some(1) && Check(u, 1, map[u := d1]) in events
    ensures var end := states[|events|]; end.lock.Free? && end.tasks == multiset{} && end.open == {u} && Shown(end, u) == d0
  {
    var first := Checked(u, 0, map[u := d0]);
    var states1, events1 := TwoChecked(u, d0, d1);
    assert Check(u, 1, map[u := d1]) == events1[4];
    var states2, events2 := PublishAndSend(states1, events1, u, 1, d1, multiset{first});
    assert multiset{first} == multiset{} + multiset{first};
    states, events := PublishAndSend(states2, events2, u, 0, d0, multiset{});
    assert events[4] == Check(u, 1, map[u := d1]);
    NewestIsSecond(events1, u);
    NoTextIn(events1, [Publish(u, 1, map[u := d1]), Deliver(u), Release], u);
    NoTextIn(events2, [Publish(u, 0, map[u := d0]), Deliver(u), Release], u);
  }

  lemma NewestIsSecond(events: seq<Event>, u: Url)
    requires |events| == 5 && events[2] == Receive(Checking(u, 1)) && events[3].Check? && events[4].Check?
    ensures LastText(events, u) == Some(1)
  {
    NoTextIn(events[..3], [events[3], events[4]], u);
    assert events[..3] + [events[3], events[4]] == events;
  }

  lemma {:induction false} NoTextIn(events: seq<Event>, more: seq<Event>, u: Url)
    requires forall i :: 0 <= i < |more| ==> !more[i].Receive?
    ensures LastText(events + more, u) == LastText(events, u)
  {
    if more == [] {
      assert events + more == events;
    } else {
      var front := more[..|more| - 1];
      assert (events + more)[..|events + more| - 1] == events + front;
      NoTextIn(events, front, u);
    }
  }
}
