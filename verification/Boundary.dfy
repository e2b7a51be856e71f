/** What may cross a `spawn:`, `defer:`, `recover:` block or a generator body
    (src/checker/boundary.rs): the checker's stack of blocks against the lexical path itself. */
module Boundary {
  import opened Wrappers

  datatype Block = Spawn | Defer | Recover | Generator

  datatype Construct = Break | Continue | Return | Try | DeferStmt | SpawnStmt | Parallel | Wait

  /** Why a block stops a construct. */
  datatype Reason =
    | OutsideLoop            // the block's code does not belong to the loop
    | NoCaller               // there is nobody to return or propagate to
    | ProducesValue          // leaving would skip the block's value
    | WrongOperand           // the block is the target, of another shape of result
    | SuspendedDefers        // a suspended generator keeps no frame defers
    | SuspendedTasks         // a suspended generator keeps no task state

  /** One cell of the table: the block is the construct's target, or rejects it. */
  datatype Rule = Target(reason: Reason) | Rejected(reason: Reason)

  /** The cell of `c` in the row of `b`, if it has one; otherwise `c` crosses the block. */
  function RuleOf(b: Block, c: Construct): Option<Rule> {
    match b
    case Spawn =>
      (match c
       case Break => Some(Rejected(OutsideLoop))
       case Continue => Some(Rejected(OutsideLoop))
       case Return => Some(Rejected(NoCaller))
       case Try => Some(Rejected(NoCaller))
       case _ => None)
    case Defer =>
      (match c
       case Break => Some(Rejected(OutsideLoop))
       case Continue => Some(Rejected(OutsideLoop))
       case Return => Some(Rejected(NoCaller))
       case Try => Some(Rejected(NoCaller))
       case _ => None)
    case Recover =>
      (match c
       case Break => Some(Rejected(ProducesValue))
       case Continue => Some(Rejected(ProducesValue))
       case Return => Some(Rejected(ProducesValue))
       case Try => Some(Target(WrongOperand))
       case _ => None)
    case Generator =>
      (match c
       case DeferStmt => Some(Rejected(SuspendedDefers))
       case SpawnStmt => Some(Rejected(SuspendedTasks))
       case Parallel => Some(Rejected(SuspendedTasks))
       case Wait => Some(Rejected(SuspendedTasks))
       case _ => None)
  }

  /** Nothing stops the construct, or a block is where it goes, or a block forbids it. */
  datatype Verdict = Free | Aimed(block: Block, reason: Reason) | Refused(block: Block, c: Construct, reason: Reason)

  function VerdictOf(b: Block, c: Construct, r: Rule): Verdict {
    match r case Target(reason) => Aimed(b, reason) case Rejected(reason) => Refused(b, c, reason)
  }

  predicate IsLoopExit(c: Construct) {
    c == Break || c == Continue
  }

  // ----- the reference: the lexical path -----

  /** One enclosing scope within a function frame. */
  datatype Scope = Loop | In(block: Block)

  predicate HasLoop(path: seq<Scope>) {
    Loop in path
  }

  /** Outward from the construct (the last scope is the innermost): a `break` or `continue` ends at
      the first loop, and any construct ends at the first block with a rule for it. */
  function WalkOut(path: seq<Scope>, c: Construct): Verdict {
    if path == [] then Free
    else
      var inner, outer := path[|path| - 1], path[..|path| - 1];
      match inner
      case Loop => if IsLoopExit(c) then Free else WalkOut(outer, c)
      case In(b) => if RuleOf(b, c).Some? then VerdictOf(b, c, RuleOf(b, c).value) else WalkOut(outer, c)
  }

  /** A loop exit outside every loop has nothing to reach, so no block stands in its way. */
  function Lexical(path: seq<Scope>, c: Construct): Verdict {
    if IsLoopExit(c) && !HasLoop(path) then Free else WalkOut(path, c)
  }

  // ----- the checker's stack -----

  /** A block entered, with the loop depth at entry. */
  datatype Entry = Entry(block: Block, depth: nat)

  function LoopDepth(path: seq<Scope>): nat {
    if path == [] then 0 else LoopDepth(path[..|path| - 1]) + if path[|path| - 1].Loop? then 1 else 0
  }

  /** The stack the checker holds at the end of a path. */
  function StackOf(path: seq<Scope>): seq<Entry> {
    if path == [] then []
    else
      var inner, outer := path[|path| - 1], path[..|path| - 1];
      StackOf(outer) + if inner.Loop? then [] else [Entry(inner.block, LoopDepth(outer))]
  }

  /** The blocks from the innermost on, stopping at a block outside the loop at `depth`. */
  function Scan(blocks: seq<Entry>, depth: nat, c: Construct): Verdict {
    if blocks == [] then Free
    else
      var e := blocks[|blocks| - 1];
      if IsLoopExit(c) && e.depth != depth then Free
      else if RuleOf(e.block, c).Some? then VerdictOf(e.block, c, RuleOf(e.block, c).value)
      else Scan(blocks[..|blocks| - 1], depth, c)
  }

  class Checker {
    var blocks: seq<Entry>
    var loopDepth: nat

    constructor ()
      ensures blocks == [] && loopDepth == 0
    {
      blocks, loopDepth := [], 0;
    }

    /** The state is that of a lexical path. */
    ghost predicate At(path: seq<Scope>)
      reads this
    {
      blocks == StackOf(path) && loopDepth == LoopDepth(path)
    }

    method Enter(ghost path: seq<Scope>, s: Scope)
      requires At(path)
      modifies this
      ensures At(path + [s])
    {
      assert (path + [s])[..|path|] == path;
      match s
      case Loop => loopDepth := loopDepth + 1;
      case In(b) => blocks := blocks + [Entry(b, loopDepth)];
    }

    method Leave(ghost path: seq<Scope>, s: Scope)
      requires At(path + [s])
      modifies this
      ensures At(path)
    {
      assert (path + [s])[..|path|] == path;
      match s
      case Loop => loopDepth := loopDepth - 1;
      case In(b) => blocks := blocks[..|blocks| - 1];
    }

    /** The verdict on `c` here is the one the lexical path gives. */
    method BlockVerdict(ghost path: seq<Scope>, c: Construct) returns (v: Verdict)
      requires At(path)
      ensures v == Lexical(path, c)
    {
      StackIsPath(path, c);
      if IsLoopExit(c) && loopDepth == 0 { return Free; }
      var i := |blocks|;
      assert blocks[..i] == blocks;
      while i > 0
        invariant 0 <= i <= |blocks|
        invariant Scan(blocks, loopDepth, c) == Scan(blocks[..i], loopDepth, c)
      {
        assert blocks[..i][..i - 1] == blocks[..i - 1];
        i := i - 1;
        var e := blocks[i];
        if IsLoopExit(c) && e.depth != loopDepth { return Free; }
        var rule := RuleOf(e.block, c);
        if rule.Some? { return VerdictOf(e.block, c, rule.value); }
      }
      v := Free;
    }
  }

  // ----- what the table and the walk come to -----

  /** A generator body has a rule for what starts deferred or concurrent work, and the other blocks for what
      leaves them; every rule rejects but one. */
  lemma TableIs(b: Block, c: Construct)
    ensures RuleOf(b, c).Some? <==> ((b == Generator) <==> (c in {DeferStmt, SpawnStmt, Parallel, Wait}))
    ensures RuleOf(b, c).Some? ==> (RuleOf(b, c).value.Target? <==> b == Recover && c == Try)
    ensures b in {Spawn, Defer} && c in {Break, Continue} ==> RuleOf(b, c) == Some(Rejected(OutsideLoop))
    ensures b in {Spawn, Defer} && c in {Return, Try} ==> RuleOf(b, c) == Some(Rejected(NoCaller))
    ensures b == Recover && c in {Break, Continue, Return} ==> RuleOf(b, c) == Some(Rejected(ProducesValue))
    ensures b == Generator && c == DeferStmt ==> RuleOf(b, c) == Some(Rejected(SuspendedDefers))
  {
  }

  /** A scope with nothing to say about `c` can be left out of the path. */
  lemma Transparent(path: seq<Scope>, s: Scope, c: Construct)
    ensures s.In? && RuleOf(s.block, c).None? ==> WalkOut(path + [s], c) == WalkOut(path, c)
    ensures s.Loop? && c !in {Break, Continue} ==> WalkOut(path + [s], c) == WalkOut(path, c)
  {
    assert (path + [s])[..|path|] == path;
  }

  /** A loop exit is free where its loop is the innermost scope, and stopped by a block inside the loop that
      has a rule for it; outside every loop it is free. */
  lemma LoopExits(path: seq<Scope>, b: Block, c: Construct)
    requires c in {Break, Continue}
    ensures Lexical(path + [Loop], c) == Free
    ensures Loop in path && b != Generator ==>
              Lexical(path + [In(b)], c) == Refused(b, c, if b == Recover then ProducesValue else OutsideLoop)
    ensures Loop !in path ==> Lexical(path, c) == Free
  {
    assert (path + [Loop])[..|path|] == path && (path + [In(b)])[..|path|] == path;
  }

  /** `?` is caught by the recover block it stands in, and `return` is not let out. */
  lemma RecoverCatches(path: seq<Scope>)
    ensures Lexical(path + [In(Recover)], Try) == Aimed(Recover, WrongOperand)
    ensures Lexical(path + [In(Recover)], Return) == Refused(Recover, Return, ProducesValue)
    ensures Lexical([], Try) == Free && Lexical([], Return) == Free
  {
    assert (path + [In(Recover)])[..|path|] == path;
  }

  // ----- they agree -----

  lemma {:induction false} NoLoopMeansDepthZero(path: seq<Scope>)
    ensures HasLoop(path) <==> LoopDepth(path) > 0
  {
    if path != [] {
      var outer := path[..|path| - 1];
      NoLoopMeansDepthZero(outer);
      assert path == outer + [path[|path| - 1]];
    }
  }

  /** Every block on the stack was entered at a depth no greater than the current one. */
  lemma {:induction false} DepthsAreBelow(path: seq<Scope>)
    ensures forall i :: 0 <= i < |StackOf(path)| ==> StackOf(path)[i].depth <= LoopDepth(path)
  {
    if path != [] { DepthsAreBelow(path[..|path| - 1]); }
  }

  lemma OneScopeIn(path: seq<Scope>)
    requires path != []
    ensures var inner, outer := path[|path| - 1], path[..|path| - 1];
            if inner.Loop? then StackOf(path) == StackOf(outer) && LoopDepth(path) == LoopDepth(outer) + 1
            else StackOf(path) == StackOf(outer) + [Entry(inner.block, LoopDepth(outer))] && LoopDepth(path) == LoopDepth(outer)
  {
  }

  lemma ScanPastLoop(outer: seq<Scope>, c: Construct)
    ensures Scan(StackOf(outer), LoopDepth(outer) + 1, c) ==
            if IsLoopExit(c) then Free else Scan(StackOf(outer), LoopDepth(outer), c)
  {
    if IsLoopExit(c) {
      DepthsAreBelow(outer);
    } else {
      DepthIsIrrelevant(StackOf(outer), LoopDepth(outer) + 1, LoopDepth(outer), c);
    }
  }

  lemma ScanPastBlock(blocks: seq<Entry>, e: Entry, c: Construct)
    ensures Scan(blocks + [e], e.depth, c) ==
            if RuleOf(e.block, c).Some? then VerdictOf(e.block, c, RuleOf(e.block, c).value) else Scan(blocks, e.depth, c)
  {
    assert (blocks + [e])[..|blocks|] == blocks;
  }

  /** Scanning the stack walks the path: a block entered before the nearest loop has a smaller depth,
      so a loop exit stops at it exactly when the walk stopped at that loop. */
  lemma {:induction false} ScanIsWalk(path: seq<Scope>, c: Construct)
    ensures Scan(StackOf(path), LoopDepth(path), c) == WalkOut(path, c)
  {
    if path != [] {
      var inner, outer := path[|path| - 1], path[..|path| - 1];
      ScanIsWalk(outer, c);
      OneScopeIn(path);
      if inner.Loop? {
        ScanPastLoop(outer, c);
      } else {
        ScanPastBlock(StackOf(outer), Entry(inner.block, LoopDepth(outer)), c);
      }
    }
  }

  lemma {:induction false} DepthIsIrrelevant(blocks: seq<Entry>, a: nat, b: nat, c: Construct)
    requires !IsLoopExit(c)
    ensures Scan(blocks, a, c) == Scan(blocks, b, c)
  {
    if blocks != [] { DepthIsIrrelevant(blocks[..|blocks| - 1], a, b, c); }
  }

  /** For every nesting of loops and blocks, the stack gives the lexical verdict. */
  lemma StackIsPath(path: seq<Scope>, c: Construct)
    ensures Lexical(path, c) ==
            if IsLoopExit(c) && LoopDepth(path) == 0 then Free else Scan(StackOf(path), LoopDepth(path), c)
  {
    NoLoopMeansDepthZero(path);
    ScanIsWalk(path, c);
  }
}
