/** The schedule fuzzer's worker pool (`main` of src/bin/schedfuzz.rs): workers pull jobs from a
    shared cursor, share lazily measured baselines, and stop at a harness error. Every measurement
    and every verdict is arbitrary. */
module SchedFuzz {
  import opened Wrappers

  /** One run to make: the target's index, the seed and the worker count. */
  datatype Job = Job(target: nat, seed: nat, threads: nat)

  // ----- the job list -----

  function SeedJobs(t: nat, seed: nat, threads: seq<nat>): seq<Job> {
    if threads == [] then []
    else SeedJobs(t, seed, threads[..|threads| - 1]) + [Job(t, seed, threads[|threads| - 1])]
  }

  function TargetJobs(t: nat, lo: nat, hi: nat, threads: seq<nat>): seq<Job> {
    if hi <= lo then [] else TargetJobs(t, lo, hi - 1, threads) + SeedJobs(t, hi - 1, threads)
  }

  /** The sweep: by target, then by seed, then by thread count. */
  function AllJobs(targets: nat, lo: nat, hi: nat, threads: seq<nat>): seq<Job> {
    if targets == 0 then [] else AllJobs(targets - 1, lo, hi, threads) + TargetJobs(targets - 1, lo, hi, threads)
  }

  method BuildJobs(targets: nat, lo: nat, hi: nat, threads: seq<nat>) returns (jobs: seq<Job>)
    ensures jobs == AllJobs(targets, lo, hi, threads)
  {
    jobs := [];
    for t := 0 to targets
      invariant jobs == AllJobs(t, lo, hi, threads)
    {
      var more := JobsOfTarget(t, lo, hi, threads);
      jobs := jobs + more;
    }
  }

  method JobsOfSeed(t: nat, seed: nat, threads: seq<nat>) returns (jobs: seq<Job>)
    ensures jobs == SeedJobs(t, seed, threads)
  {
    jobs := [];
    for k := 0 to |threads|
      invariant jobs == SeedJobs(t, seed, threads[..k])
    {
      assert threads[..k + 1][..k] == threads[..k];
      jobs := jobs + [Job(t, seed, threads[k])];
    }
    assert threads[..|threads|] == threads;
  }

  method JobsOfTarget(t: nat, lo: nat, hi: nat, threads: seq<nat>) returns (jobs: seq<Job>)
    ensures jobs == TargetJobs(t, lo, hi, threads)
  {
    jobs := [];
    var seed := lo;
    while seed < hi
      invariant lo <= seed && (seed <= hi || seed == lo)
      invariant jobs == TargetJobs(t, lo, seed, threads)
    {
      var more := JobsOfSeed(t, seed, threads);
      jobs := jobs + more;
      seed := seed + 1;
    }
  }

  /** How often `x` is listed. */
  ghost function Count<T>(xs: seq<T>, x: T): nat {
    if xs == [] then 0 else Count(xs[..|xs| - 1], x) + if xs[|xs| - 1] == x then 1 else 0
  }

  lemma {:induction false} CountConcat<T>(a: seq<T>, b: seq<T>, x: T)
    ensures Count(a + b, x) == Count(a, x) + Count(b, x)
  {
    if b == [] {
      assert a + b == a;
    } else {
      var front := b[..|b| - 1];
      assert (a + b)[..|a + b| - 1] == a + front;
      CountConcat(a, front, x);
    }
  }

  lemma CountOfOne<T>(x: T)
    ensures Count([x], x) == 1
  {
    assert [x][..0] == [];
  }

  lemma {:induction false} CountedIsIn<T>(xs: seq<T>, x: T)
    ensures Count(xs, x) > 0 <==> x in xs
  {
    if xs != [] {
      var front := xs[..|xs| - 1];
      CountedIsIn(front, x);
      assert xs == front + [xs[|xs| - 1]];
    }
  }

  lemma {:induction false} SeedCount(t: nat, seed: nat, threads: seq<nat>, j: Job)
    ensures Count(SeedJobs(t, seed, threads), j) == if j.target == t && j.seed == seed then Count(threads, j.threads) else 0
  {
    if threads != [] {
      var front, last := threads[..|threads| - 1], Job(t, seed, threads[|threads| - 1]);
      SeedCount(t, seed, front, j);
      assert (SeedJobs(t, seed, front) + [last])[..|SeedJobs(t, seed, front)|] == SeedJobs(t, seed, front);
    }
  }

  lemma {:induction false} TargetCount(t: nat, lo: nat, hi: nat, threads: seq<nat>, j: Job)
    ensures Count(TargetJobs(t, lo, hi, threads), j) ==
            if j.target == t && lo <= j.seed < hi then Count(threads, j.threads) else 0
  {
    if hi > lo {
      CountConcat(TargetJobs(t, lo, hi - 1, threads), SeedJobs(t, hi - 1, threads), j);
      TargetCount(t, lo, hi - 1, threads, j);
      SeedCount(t, hi - 1, threads, j);
    }
  }

  /** Every target, seed and thread count together, as often as the thread count is given, and
      nothing else. */
  lemma {:induction false} SweepCount(targets: nat, lo: nat, hi: nat, threads: seq<nat>, j: Job)
    ensures Count(AllJobs(targets, lo, hi, threads), j) ==
            if j.target < targets && lo <= j.seed < hi then Count(threads, j.threads) else 0
  {
    if targets > 0 {
      CountConcat(AllJobs(targets - 1, lo, hi, threads), TargetJobs(targets - 1, lo, hi, threads), j);
      SweepCount(targets - 1, lo, hi, threads, j);
      TargetCount(targets - 1, lo, hi, threads, j);
    }
  }

  /** The sweep goes by target, then by seed, then through the thread counts as given. */
  ghost predicate Earlier(a: Job, b: Job) {
    a.target < b.target || (a.target == b.target && a.seed < b.seed)
  }

  ghost predicate InSweepOrder(jobs: seq<Job>) {
    forall i, k :: 0 <= i < k < |jobs| ==> !Earlier(jobs[k], jobs[i])
  }

  lemma {:induction false} SeedJobsAre(t: nat, seed: nat, threads: seq<nat>)
    ensures |SeedJobs(t, seed, threads)| == |threads|
    ensures forall k :: 0 <= k < |threads| ==> SeedJobs(t, seed, threads)[k] == Job(t, seed, threads[k])
  {
    if threads != [] { SeedJobsAre(t, seed, threads[..|threads| - 1]); }
  }

  lemma {:induction false} TargetInOrder(t: nat, lo: nat, hi: nat, threads: seq<nat>)
    ensures InSweepOrder(TargetJobs(t, lo, hi, threads))
    ensures forall i :: 0 <= i < |TargetJobs(t, lo, hi, threads)| ==>
              TargetJobs(t, lo, hi, threads)[i].target == t && TargetJobs(t, lo, hi, threads)[i].seed < hi
  {
    if hi > lo {
      TargetInOrder(t, lo, hi - 1, threads);
      SeedJobsAre(t, hi - 1, threads);
    }
  }

  lemma {:induction false} SweepInOrder(targets: nat, lo: nat, hi: nat, threads: seq<nat>)
    ensures InSweepOrder(AllJobs(targets, lo, hi, threads))
    ensures forall i :: 0 <= i < |AllJobs(targets, lo, hi, threads)| ==> AllJobs(targets, lo, hi, threads)[i].target < targets
  {
    if targets > 0 {
      SweepInOrder(targets - 1, lo, hi, threads);
      TargetInOrder(targets - 1, lo, hi, threads);
    }
  }

  // ----- the workers -----

  type Key = (nat, nat)

  datatype Baseline = Stable | Unstable | Broken

  datatype Verdict = Clean | Finding | HarnessError

  /** What became of a job. */
  datatype Outcome = Judged(v: Verdict) | Skipped(b: Baseline)

  /** Where a worker stands in its loop. */
  datatype Pc =
    | Checking                     // about to look at the abort flag
    | Taking                       // about to take a job
    | Fetching(job: nat)           // holds a job, needs its baseline
    | Marking(job: nat)            // has an unstable baseline, about to say so
    | Running(job: nat)            // has a stable baseline, runs and judges
    | Counting(job: nat)           // judged a finding, about to count it
    | Reporting(job: nat)          // found the harness broken, about to say so
    | Done

  datatype State = State(
    workers: seq<Pc>,
    cursor: nat,
    cache: map<Key, Baseline>,
    findings: nat,
    unstable: set<Key>,
    broken: bool,
    // what happened, for the record
    taken: seq<nat>,
    measured: seq<Key>,
    verdicts: map<nat, Verdict>,
    outcomes: map<nat, Outcome>)

  function KeyOf(j: Job): Key {
    (j.target, j.threads)
  }

  ghost predicate Init(s: State, workers: nat) {
    s == State(seq(workers, _ => Checking), 0, map[], 0, {}, false, [], [], map[], map[])
  }

  /** Worker `w` can move. */
  ghost predicate Enabled(jobs: seq<Job>, s: State, w: nat) {
    w < |s.workers| && !s.workers[w].Done? && (s.workers[w].Fetching? || s.workers[w].Marking? ==> s.workers[w].job < |jobs|)
  }

  /** Worker `w` takes the next job in this step. */
  ghost predicate Takes(jobs: seq<Job>, s: State, w: nat)
    requires Enabled(jobs, s, w)
  {
    s.workers[w].Taking? && s.cursor < |jobs|
  }

  /** The baseline worker `w` fetches: the cached one, else the measurement `b`. */
  ghost function Fetched(jobs: seq<Job>, s: State, w: nat, b: Baseline): Baseline
    requires Enabled(jobs, s, w) && s.workers[w].Fetching?
  {
    var key := KeyOf(jobs[s.workers[w].job]);
    if key in s.cache then s.cache[key] else b
  }

  ghost predicate Measures(jobs: seq<Job>, s: State, w: nat)
    requires Enabled(jobs, s, w)
  {
    s.workers[w].Fetching? && KeyOf(jobs[s.workers[w].job]) !in s.cache
  }

  /** The outcome the step gives the worker's job, if it gives one. */
  ghost function NewOutcome(jobs: seq<Job>, s: State, w: nat, b: Baseline, v: Verdict): Option<Outcome>
    requires Enabled(jobs, s, w)
  {
    match s.workers[w]
    case Fetching(_) => if Fetched(jobs, s, w, b).Broken? then Some(Skipped(Broken)) else None
    case Marking(_) => Some(Skipped(Unstable))
    case Running(_) => if v.Finding? then None else Some(Judged(v))
    case Counting(_) => Some(Judged(Finding))
    case _ => None
  }

  ghost predicate IsFailure(o: Outcome) {
    o == Judged(HarnessError) || o == Skipped(Broken)
  }

  ghost function NextPc(jobs: seq<Job>, s: State, w: nat, b: Baseline, v: Verdict): Pc
    requires Enabled(jobs, s, w)
  {
    var pc := s.workers[w];
    if pc.Checking? then if s.broken then Done else Taking
    else if pc.Taking? then if s.cursor < |jobs| then Fetching(s.cursor) else Done
    else if pc.Reporting? then Done
    else
      var o := NewOutcome(jobs, s, w, b, v);
      if o.Some? then if IsFailure(o.value) then Reporting(pc.job) else Checking
      else if pc.Running? then Counting(pc.job)
      else if pc.Fetching? && Fetched(jobs, s, w, b).Unstable? then Marking(pc.job)
      else Running(pc.job)
  }

  /** One atomic step of worker `w`; `b` and `v` are what a measurement or a run gives, when the step
      makes one. */
  ghost function Next(jobs: seq<Job>, s: State, w: nat, b: Baseline, v: Verdict): State
    requires Enabled(jobs, s, w)
  {
    var o := NewOutcome(jobs, s, w, b, v);
    State(
      s.workers[w := NextPc(jobs, s, w, b, v)],
      if Takes(jobs, s, w) then s.cursor + 1 else s.cursor,
      if Measures(jobs, s, w) then s.cache[KeyOf(jobs[s.workers[w].job]) := b] else s.cache,
      if o == Some(Judged(Finding)) then s.findings + 1 else s.findings,
      if o == Some(Skipped(Unstable)) then s.unstable + {KeyOf(jobs[s.workers[w].job])} else s.unstable,
      s.broken || s.workers[w].Reporting?,
      if Takes(jobs, s, w) then s.taken + [s.cursor] else s.taken,
      if Measures(jobs, s, w) then s.measured + [KeyOf(jobs[s.workers[w].job])] else s.measured,
      if s.workers[w].Running? then s.verdicts[s.workers[w].job := v] else s.verdicts,
      if o.Some? then s.outcomes[s.workers[w].job := o.value] else s.outcomes)
  }

  ghost predicate Step(jobs: seq<Job>, s: State, w: nat, b: Baseline, v: Verdict, s': State) {
    Enabled(jobs, s, w) && s' == Next(jobs, s, w, b, v)
  }

  ghost predicate Steps(jobs: seq<Job>, s: State, s': State) {
    exists w, b, v :: Step(jobs, s, w, b, v, s')
  }

  /** A schedule from the start. */
  ghost predicate Run(jobs: seq<Job>, workers: nat, states: seq<State>) {
    && states != [] && Init(states[0], workers)
    && forall i :: 0 <= i < |states| - 1 ==> Steps(jobs, states[i], states[i + 1])
  }

  /** All workers have left their loops, so `main` goes on to the exit code. */
  ghost predicate Joined(s: State) {
    forall w :: 0 <= w < |s.workers| ==> s.workers[w].Done?
  }

  function ExitCode(findings: nat, broken: bool): nat {
    if findings > 0 then 1 else if broken then 2 else 0
  }

  // ----- what every step keeps -----

  /** The job a worker has taken and not finished. */
  ghost predicate Holds(pc: Pc, i: nat) {
    Busy(pc) && pc.job == i
  }

  ghost predicate Distinct<T>(xs: seq<T>) {
    forall i, j :: 0 <= i < j < |xs| ==> xs[i] != xs[j]
  }

  /** Jobs are taken in order, each once; each baseline is measured once. */
  ghost predicate Ledger(jobs: seq<Job>, s: State) {
    && s.cursor <= |jobs| && |s.taken| == s.cursor && (forall k :: 0 <= k < s.cursor ==> s.taken[k] == k)
    && Distinct(s.measured) && (forall k :: k in s.measured <==> k in s.cache)
  }

  ghost predicate Busy(pc: Pc) {
    pc.Fetching? || pc.Marking? || pc.Running? || pc.Counting?
  }

  /** A job in hand was taken and has no outcome yet. */
  ghost predicate HeldAreOpen(s: State) {
    && (forall w :: 0 <= w < |s.workers| && Busy(s.workers[w]) ==>
          s.workers[w].job < s.cursor && s.workers[w].job !in s.outcomes)
    && (forall i :: i in s.outcomes ==> i < s.cursor)
  }

  /** No two workers hold one job. */
  ghost predicate HeldOnce(s: State) {
    forall w, u :: 0 <= w < |s.workers| && 0 <= u < |s.workers| && w != u && Busy(s.workers[w]) && Busy(s.workers[u]) ==>
      s.workers[w].job != s.workers[u].job
  }

  /** A taken job is in a worker's hands or has its outcome. */
  ghost predicate TakenIsKnown(s: State) {
    forall i :: 0 <= i < s.cursor && i !in s.outcomes ==> exists w :: 0 <= w < |s.workers| && Holds(s.workers[w], i)
  }

  ghost function FindingJobs(outcomes: map<nat, Outcome>): set<nat> {
    set i | i in outcomes && outcomes[i] == Judged(Finding)
  }

  /** A harness failure is flagged or about to be; a worker stops only at the flag or the end. */
  ghost predicate Flagged(jobs: seq<Job>, s: State) {
    && (forall i :: i in s.outcomes && IsFailure(s.outcomes[i]) ==>
          s.broken || exists w :: 0 <= w < |s.workers| && s.workers[w].Reporting?)
    && (forall w :: 0 <= w < |s.workers| && s.workers[w].Done? ==> s.broken || s.cursor == |jobs|)
  }

  /** A skipped job's baseline is the cached one, and so is one about to be skipped. */
  ghost predicate SkipsAreUnstable(jobs: seq<Job>, s: State) {
    MarksAreUnstable(jobs, s) &&
    forall i :: i in s.outcomes && s.outcomes[i].Skipped? ==>
      && i < |jobs| && !s.outcomes[i].b.Stable? && KeyOf(jobs[i]) in s.cache && s.cache[KeyOf(jobs[i])] == s.outcomes[i].b
      && (s.outcomes[i].b.Unstable? ==> KeyOf(jobs[i]) in s.unstable)
  }

  ghost predicate MarksAreUnstable(jobs: seq<Job>, s: State) {
    forall w :: 0 <= w < |s.workers| && s.workers[w].Marking? ==>
      && s.workers[w].job < |jobs| && KeyOf(jobs[s.workers[w].job]) in s.cache
      && s.cache[KeyOf(jobs[s.workers[w].job])].Unstable?
  }

  /** The baseline a job was to be compared with, once measured. */
  ghost predicate Cached(jobs: seq<Job>, s: State, i: nat, b: Baseline) {
    i < |jobs| && KeyOf(jobs[i]) in s.cache && s.cache[KeyOf(jobs[i])] == b
  }

  /** Where a job in hand stands: only one with a stable baseline is run, and only a finding is counted. */
  ghost predicate HandsAreTrue(jobs: seq<Job>, s: State) {
    forall w :: 0 <= w < |s.workers| && Busy(s.workers[w]) ==>
      var pc := s.workers[w];
      && (pc.Counting? ==> pc.job in s.verdicts && s.verdicts[pc.job].Finding?)
      && (!pc.Counting? ==> pc.job !in s.verdicts)
      && (pc.Running? || pc.Counting? ==> Cached(jobs, s, pc.job, Stable))
  }

  /** A job is judged as its run was, against a stable baseline, or it was not run. */
  ghost predicate OutcomesAreTrue(jobs: seq<Job>, s: State) {
    && (forall i :: i in s.outcomes ==>
          if s.outcomes[i].Judged? then i in s.verdicts && s.verdicts[i] == s.outcomes[i].v && Cached(jobs, s, i, Stable)
          else i !in s.verdicts)
    && (forall i :: i in s.verdicts ==> i < s.cursor && (i !in s.outcomes ==> s.verdicts[i].Finding?))
  }

  /** The flag is set only for a failure. */
  ghost predicate FlagIsTrue(s: State) {
    && (forall w :: 0 <= w < |s.workers| && s.workers[w].Reporting? ==>
          s.workers[w].job in s.outcomes && IsFailure(s.outcomes[s.workers[w].job]))
    && (s.broken ==> exists i :: i in s.outcomes && IsFailure(s.outcomes[i]))
  }

  ghost predicate Inv(jobs: seq<Job>, s: State) {
    && HandsAreTrue(jobs, s) && OutcomesAreTrue(jobs, s) && FlagIsTrue(s)
    && Ledger(jobs, s) && HeldAreOpen(s) && HeldOnce(s) && TakenIsKnown(s) && Flagged(jobs, s) && SkipsAreUnstable(jobs, s)
    && s.findings == |FindingJobs(s.outcomes)|
  }

  lemma LedgerStep(jobs: seq<Job>, s: State, w: nat, b: Baseline, v: Verdict, s': State)
    requires Ledger(jobs, s) && Step(jobs, s, w, b, v, s')
    ensures Ledger(jobs, s')
  {
  }

  lemma HeldStep(jobs: seq<Job>, s: State, w: nat, b: Baseline, v: Verdict, s': State)
    requires HeldAreOpen(s) && HeldOnce(s) && s.cursor <= |jobs| && Step(jobs, s, w, b, v, s')
    ensures HeldAreOpen(s') && HeldOnce(s')
  {
  }

  lemma TakenStep(jobs: seq<Job>, s: State, w: nat, b: Baseline, v: Verdict, s': State)
    requires TakenIsKnown(s) && s.cursor <= |jobs| && Step(jobs, s, w, b, v, s')
    ensures TakenIsKnown(s')
  {
    forall i | 0 <= i < s'.cursor && i !in s'.outcomes
      ensures exists u :: 0 <= u < |s'.workers| && Holds(s'.workers[u], i)
    {
      if i == s.cursor {
        assert Holds(s'.workers[w], i);
      } else {
        assert i !in s.outcomes;
        var u :| 0 <= u < |s.workers| && Holds(s.workers[u], i);
        assert Holds(s'.workers[u], i);
      }
    }
  }

  lemma FlaggedStep(jobs: seq<Job>, s: State, w: nat, b: Baseline, v: Verdict, s': State)
    requires Flagged(jobs, s) && s.cursor <= |jobs| && Step(jobs, s, w, b, v, s')
    ensures Flagged(jobs, s')
  {
    forall i | i in s'.outcomes && IsFailure(s'.outcomes[i])
      ensures s'.broken || exists u :: 0 <= u < |s'.workers| && s'.workers[u].Reporting?
    {
      if i in s.outcomes && s.outcomes[i] == s'.outcomes[i] {
        if !s.broken && !s.workers[w].Reporting? {
          var u :| 0 <= u < |s.workers| && s.workers[u].Reporting?;
          assert s'.workers[u].Reporting?;
        }
      } else {
        assert s'.workers[w].Reporting?;
      }
    }
  }

  lemma SkipsStep(jobs: seq<Job>, s: State, w: nat, b: Baseline, v: Verdict, s': State)
    requires SkipsAreUnstable(jobs, s) && Step(jobs, s, w, b, v, s')
    ensures SkipsAreUnstable(jobs, s')
  {
  }

  lemma HandsStep(jobs: seq<Job>, s: State, w: nat, b: Baseline, v: Verdict, s': State)
    requires HeldAreOpen(s) && HeldOnce(s) && HandsAreTrue(jobs, s) && OutcomesAreTrue(jobs, s)
    requires Step(jobs, s, w, b, v, s')
    ensures HandsAreTrue(jobs, s')
  {
  }

  lemma OutcomesStep(jobs: seq<Job>, s: State, w: nat, b: Baseline, v: Verdict, s': State)
    requires HeldAreOpen(s) && HandsAreTrue(jobs, s) && OutcomesAreTrue(jobs, s) && Step(jobs, s, w, b, v, s')
    ensures OutcomesAreTrue(jobs, s')
  {
  }

  lemma FlagStep(jobs: seq<Job>, s: State, w: nat, b: Baseline, v: Verdict, s': State)
    requires HeldAreOpen(s) && FlagIsTrue(s) && Step(jobs, s, w, b, v, s')
    ensures FlagIsTrue(s')
  {
    if s.broken {
      var i :| i in s.outcomes && IsFailure(s.outcomes[i]);
      assert i in s'.outcomes && s'.outcomes[i] == s.outcomes[i];
    } else if s'.broken {
      assert s.workers[w].job in s'.outcomes && IsFailure(s'.outcomes[s.workers[w].job]);
    }
  }

  lemma FindingsStep(jobs: seq<Job>, s: State, w: nat, b: Baseline, v: Verdict, s': State)
    requires HeldAreOpen(s) && s.findings == |FindingJobs(s.outcomes)| && Step(jobs, s, w, b, v, s')
    ensures s'.findings == |FindingJobs(s'.outcomes)|
  {
    var o := NewOutcome(jobs, s, w, b, v);
    if o.Some? { OneMoreOutcome(s.outcomes, s.workers[w].job, o.value); }
  }

  lemma OneMoreOutcome(outcomes: map<nat, Outcome>, job: nat, o: Outcome)
    requires job !in outcomes
    ensures |FindingJobs(outcomes[job := o])| == |FindingJobs(outcomes)| + if o == Judged(Finding) then 1 else 0
  {
    var before, after := FindingJobs(outcomes), FindingJobs(outcomes[job := o]);
    if o == Judged(Finding) {
      assert after == before + {job};
    } else {
      assert after == before;
    }
  }

  lemma StepKeepsInv(jobs: seq<Job>, s: State, w: nat, b: Baseline, v: Verdict, s': State)
    requires Inv(jobs, s) && Step(jobs, s, w, b, v, s')
    ensures Inv(jobs, s')
  {
    LedgerStep(jobs, s, w, b, v, s');
    HeldStep(jobs, s, w, b, v, s');
    TakenStep(jobs, s, w, b, v, s');
    FlaggedStep(jobs, s, w, b, v, s');
    SkipsStep(jobs, s, w, b, v, s');
    HandsStep(jobs, s, w, b, v, s');
    OutcomesStep(jobs, s, w, b, v, s');
    FlagStep(jobs, s, w, b, v, s');
    FindingsStep(jobs, s, w, b, v, s');
  }

  lemma {:induction false} RunKeepsInv(jobs: seq<Job>, workers: nat, states: seq<State>, i: nat)
    requires Run(jobs, workers, states) && i < |states|
    ensures Inv(jobs, states[i]) && |states[i].workers| == workers
  {
    if i == 0 {
      assert FindingJobs(states[0].outcomes) == {};
    } else {
      RunKeepsInv(jobs, workers, states, i - 1);
      assert Steps(jobs, states[i - 1], states[i - 1 + 1]);
      var w, b, v :| Step(jobs, states[i - 1], w, b, v, states[i]);
      StepKeepsInv(jobs, states[i - 1], w, b, v, states[i]);
    }
  }

  // ----- what a schedule promises -----

  /** No job is taken twice and no baseline measured twice, and the findings reported are exactly the
      jobs judged so. */
  lemma NothingTwice(jobs: seq<Job>, workers: nat, states: seq<State>, i: nat)
    requires Run(jobs, workers, states) && i < |states|
    ensures Distinct(states[i].taken) && Distinct(states[i].measured)
    ensures states[i].findings == |FindingJobs(states[i].outcomes)|
  {
    RunKeepsInv(jobs, workers, states, i);
  }

  /** Nothing is left in a worker's hands once all are done. */
  lemma JoinedIsSettled(jobs: seq<Job>, s: State, i: nat)
    requires Inv(jobs, s) && Joined(s) && i < s.cursor
    ensures i in s.outcomes
  {
  }

  /** Exit code 0: every job of the list was run against a stable baseline and its run judged clean, or its
      baseline was found unstable and reported so. */
  lemma CleanExitIsClean(jobs: seq<Job>, workers: nat, states: seq<State>, end: nat, i: nat)
    requires Run(jobs, workers, states) && end < |states| && workers > 0
    requires Joined(states[end]) && ExitCode(states[end].findings, states[end].broken) == 0
    requires i < |jobs|
    ensures var s := states[end];
            || (Cached(jobs, s, i, Stable) && i in s.verdicts && s.verdicts[i] == Clean)
            || (Cached(jobs, s, i, Unstable) && KeyOf(jobs[i]) in s.unstable && i !in s.verdicts)
  {
    var s := states[end];
    RunKeepsInv(jobs, workers, states, end);
    assert s.workers[0].Done?;
    assert s.cursor == |jobs|;
    JoinedIsSettled(jobs, s, i);
    assert FindingJobs(s.outcomes) == {};
    assert i !in FindingJobs(s.outcomes);
    assert !IsFailure(s.outcomes[i]);
    if s.outcomes[i].Skipped? { assert s.outcomes[i].b.Unstable?; } else { assert s.outcomes[i].v.Clean?; }
  }

  /** So with the job list of a sweep, no combination of target, seed and thread count was missed. */
  lemma CleanExitCoversSweep(jobs: seq<Job>, workers: nat, states: seq<State>, end: nat,
                             targets: nat, lo: nat, hi: nat, threads: seq<nat>, j: Job)
    requires jobs == AllJobs(targets, lo, hi, threads)
    requires Run(jobs, workers, states) && end < |states| && workers > 0
    requires Joined(states[end]) && ExitCode(states[end].findings, states[end].broken) == 0
    requires j.target < targets && lo <= j.seed < hi && j.threads in threads
    ensures var s := states[end];
            exists i :: 0 <= i < |jobs| && jobs[i] == j
                        && ((Cached(jobs, s, i, Stable) && i in s.verdicts && s.verdicts[i] == Clean)
                            || (Cached(jobs, s, i, Unstable) && KeyOf(j) in s.unstable))
  {
    SweepCount(targets, lo, hi, threads, j);
    CountedIsIn(threads, j.threads);
    CountedIsIn(jobs, j);
    var i :| 0 <= i < |jobs| && jobs[i] == j;
    CleanExitIsClean(jobs, workers, states, end, i);
  }

  /** Exit code 1 exactly when some run was judged a finding, whether or not the harness also broke. */
  lemma FindingExitIsReal(jobs: seq<Job>, workers: nat, states: seq<State>, end: nat)
    requires Run(jobs, workers, states) && end < |states| && Joined(states[end])
    ensures ExitCode(states[end].findings, states[end].broken) == 1 <==>
            exists i :: i in states[end].verdicts && states[end].verdicts[i] == Finding
  {
    var s := states[end];
    RunKeepsInv(jobs, workers, states, end);
    if i :| i in s.verdicts && s.verdicts[i] == Finding {
      JoinedIsSettled(jobs, s, i);
      assert i in FindingJobs(s.outcomes);
    }
    if s.findings > 0 {
      var i :| i in FindingJobs(s.outcomes);
    }
  }

  /** The harness broke on a job taken: at its run, or at its baseline. */
  ghost predicate Failed(jobs: seq<Job>, s: State, i: nat) {
    i < s.cursor && ((i in s.verdicts && s.verdicts[i] == HarnessError) || Cached(jobs, s, i, Broken))
  }

  lemma BrokenIffFailed(jobs: seq<Job>, s: State)
    requires Inv(jobs, s) && Joined(s)
    ensures s.broken <==> exists i: nat :: Failed(jobs, s, i)
  {
    if s.broken {
      var i :| i in s.outcomes && IsFailure(s.outcomes[i]);
      assert Failed(jobs, s, i);
    }
    if i: nat :| Failed(jobs, s, i) {
      JoinedIsSettled(jobs, s, i);
      assert IsFailure(s.outcomes[i]);
    }
  }

  /** Exit code 2 exactly when nothing was found and the harness broke. */
  lemma BrokenExitIsReal(jobs: seq<Job>, workers: nat, states: seq<State>, end: nat)
    requires Run(jobs, workers, states) && end < |states| && Joined(states[end])
    ensures var s := states[end];
            ExitCode(s.findings, s.broken) == 2 <==>
            (forall i :: i in s.verdicts ==> s.verdicts[i] != Finding) && exists i: nat :: Failed(jobs, s, i)
  {
    RunKeepsInv(jobs, workers, states, end);
    FindingExitIsReal(jobs, workers, states, end);
    BrokenIffFailed(jobs, states[end]);
  }

  // ----- the flag stops the taking of jobs -----

  ghost function Takers(workers: seq<Pc>): nat {
    if workers == [] then 0 else Takers(workers[1..]) + if workers[0].Taking? then 1 else 0
  }

  lemma {:induction false} TakersUpdate(workers: seq<Pc>, w: nat, pc: Pc)
    requires w < |workers|
    ensures Takers(workers[w := pc]) ==
            Takers(workers) - (if workers[w].Taking? then 1 else 0) + (if pc.Taking? then 1 else 0)
    ensures Takers(workers) <= |workers|
  {
    if w == 0 {
      assert workers[w := pc][1..] == workers[1..];
      if |workers| > 1 { TakersUpdate(workers[1..], 0, pc); }
    } else {
      assert workers[w := pc][1..] == workers[1..][w - 1 := pc];
      TakersUpdate(workers[1..], w - 1, pc);
    }
  }

  lemma StepStopsTaking(jobs: seq<Job>, s: State, w: nat, b: Baseline, v: Verdict, s': State)
    requires Step(jobs, s, w, b, v, s') && s.broken
    ensures s'.broken && s'.cursor + Takers(s'.workers) <= s.cursor + Takers(s.workers)
  {
    TakersUpdate(s.workers, w, s'.workers[w]);
    assert s'.workers == s.workers[w := s'.workers[w]];
  }

  /** Once the harness is flagged broken it stays so, and only workers already past the check still take a
      job, each one at most. */
  lemma {:induction false} BrokenStopsTaking(jobs: seq<Job>, workers: nat, states: seq<State>, i: nat, j: nat)
    requires Run(jobs, workers, states) && i <= j < |states| && states[i].broken
    ensures states[j].broken && states[j].cursor + Takers(states[j].workers) <= states[i].cursor + Takers(states[i].workers)
    ensures states[j].cursor <= states[i].cursor + workers
  {
    RunKeepsInv(jobs, workers, states, i);
    if workers > 0 { TakersUpdate(states[i].workers, 0, Done); }
    if i < j {
      BrokenStopsTaking(jobs, workers, states, i, j - 1);
      assert Steps(jobs, states[j - 1], states[j - 1 + 1]);
      var w, b, v :| Step(jobs, states[j - 1], w, b, v, states[j]);
      StepStopsTaking(jobs, states[j - 1], w, b, v, states[j]);
    }
  }

  // ----- every schedule ends -----

  ghost function Rank(pc: Pc): nat {
    match pc
    case Done => 0
    case Taking => 1
    case Reporting(_) => 1
    case Checking => 2
    case Marking(_) => 3
    case Counting(_) => 3
    case Running(_) => 4
    case Fetching(_) => 5
  }

  ghost function TotalRank(workers: seq<Pc>): nat {
    if workers == [] then 0 else Rank(workers[0]) + TotalRank(workers[1..])
  }

  /** Work left: five units a job, and where each worker stands. */
  ghost function Fuel(jobs: seq<Job>, s: State): int {
    5 * (|jobs| - s.cursor) + TotalRank(s.workers)
  }

  lemma {:induction false} TotalRankUpdate(workers: seq<Pc>, w: nat, pc: Pc)
    requires w < |workers|
    ensures TotalRank(workers[w := pc]) == TotalRank(workers) - Rank(workers[w]) + Rank(pc)
  {
    if w == 0 {
      assert workers[w := pc][1..] == workers[1..];
    } else {
      assert workers[w := pc][1..] == workers[1..][w - 1 := pc];
      TotalRankUpdate(workers[1..], w - 1, pc);
    }
  }

  /** Every step uses up work, so no schedule is longer than the work there is at the start. */
  lemma StepUsesFuel(jobs: seq<Job>, s: State, w: nat, b: Baseline, v: Verdict, s': State)
    requires Step(jobs, s, w, b, v, s')
    ensures Fuel(jobs, s') < Fuel(jobs, s)
  {
    TotalRankUpdate(s.workers, w, s'.workers[w]);
    assert s'.workers == s.workers[w := s'.workers[w]];
  }

  lemma {:induction false} RunIsBounded(jobs: seq<Job>, workers: nat, states: seq<State>, i: nat)
    requires Run(jobs, workers, states) && i < |states|
    ensures Fuel(jobs, states[i]) + i <= 5 * |jobs| + 2 * workers
    ensures i <= 5 * |jobs| + 2 * workers
  {
    RunKeepsInv(jobs, workers, states, i);
    if i == 0 {
      StartRank(workers);
    } else {
      RunIsBounded(jobs, workers, states, i - 1);
      assert Steps(jobs, states[i - 1], states[i - 1 + 1]);
      var w, b, v :| Step(jobs, states[i - 1], w, b, v, states[i]);
      StepUsesFuel(jobs, states[i - 1], w, b, v, states[i]);
    }
  }

  lemma {:induction false} StartRank(workers: nat)
    ensures TotalRank(seq(workers, _ => Checking)) == 2 * workers
  {
    if workers > 0 {
      StartRank(workers - 1);
      assert seq(workers, _ => Checking)[1..] == seq(workers - 1, _ => Checking);
    }
  }

  /** No schedule gets stuck before every worker is done, whatever is measured next. */
  lemma NeverStuck(jobs: seq<Job>, workers: nat, states: seq<State>, i: nat, b: Baseline, v: Verdict)
    requires Run(jobs, workers, states) && i < |states| && !Joined(states[i])
    ensures exists w, s' :: Step(jobs, states[i], w, b, v, s')
  {
    RunKeepsInv(jobs, workers, states, i);
    var s := states[i];
    var w :| 0 <= w < |s.workers| && !s.workers[w].Done?;
    assert Step(jobs, s, w, b, v, Next(jobs, s, w, b, v));
  }
}
