/** The constant evaluator (`eval_noting` of src/ast/consteval.rs), against a strict left-to-right
    evaluator in which every other node kind is an opaque leaf. */
module ConstFold {
  import opened Wrappers
  import opened IntOps
  import opened Sequences

  type Span = nat

  /** A float, opaque: only its operations below are used. */
  datatype Float = Float(bits: nat)

  /** The float operations the fold uses. */
  datatype FloatOps = FloatOps(neg: Float -> Float, isZero: Float -> bool, arith: (BinaryOp, Float, Float) -> Float)

  /** One float binary op; a zero divisor is not folded. */
  function FloatBinop(ops: FloatOps, op: BinaryOp, a: Float, b: Float): Option<Float> {
    match op
    case Add => Some(ops.arith(op, a, b))
    case Sub => Some(ops.arith(op, a, b))
    case Mul => Some(ops.arith(op, a, b))
    case Div => if ops.isZero(b) then None else Some(ops.arith(op, a, b))
    case Mod => if ops.isZero(b) then None else Some(ops.arith(op, a, b))
    case _ => None
  }

  /** An expression; `Leaf` stands for every node kind the scan does not enter. */
  datatype Expr =
    | IntLit(n: int)
    | FloatLit(f: Float)
    | Negate(span: Span, e: Expr)
    | Binary(span: Span, op: BinaryOp, l: Expr, r: Expr)
    | Leaf(id: nat)

  datatype Const = Int(n: int) | Flt(f: Float)

  datatype Fold = Value(c: Const) | Fault(span: Span, fault: IntFault) | NotConst

  datatype Note = Note(span: Span, op: BinaryOp, fault: IntFault)

  function FoldNeg(ops: FloatOps, span: Span, x: Fold): Fold {
    match x
    case Value(Int(v)) =>
      (match IntNeg(v)
       case Ok(n) => Value(Int(n))
       case Err(f) => Fault(span, f))
    case Value(Flt(f)) => Value(Flt(ops.neg(f)))
    case _ => x
  }

  function FoldBinary(ops: FloatOps, span: Span, op: BinaryOp, l: Fold, r: Fold): Fold {
    if l.Fault? then l
    else if r.Fault? then r
    else if l.Value? && r.Value? && l.c.Int? && r.c.Int? then
      match IntBinop(op, l.c.n, r.c.n)
      case Some(Ok(v)) => Value(Int(v))
      case Some(Err(f)) => Fault(span, f)
      case None => NotConst
    else if l.Value? && r.Value? && l.c.Flt? && r.c.Flt? then
      match FloatBinop(ops, op, l.c.f, r.c.f)
      case Some(v) => Value(Flt(v))
      case None => NotConst
    else NotConst
  }

  function FoldOf(ops: FloatOps, e: Expr): Fold {
    match e
    case IntLit(n) => Value(Int(n))
    case FloatLit(f) => Value(Flt(f))
    case Negate(span, x) => FoldNeg(ops, span, FoldOf(ops, x))
    case Binary(span, op, l, r) => FoldBinary(ops, span, op, FoldOf(ops, l), FoldOf(ops, r))
    case Leaf(_) => NotConst
  }

  /** The note of a node whose left operand is not constant and whose right operand is at fault. */
  function NoteOf(span: Span, op: BinaryOp, l: Fold, r: Fold): seq<Note> {
    if l.NotConst? && r.Value? && r.c.Int? && OperandFault(op, r.c.n).Some?
    then [Note(span, op, OperandFault(op, r.c.n).value)]
    else []
  }

  function Notes(ops: FloatOps, e: Expr): seq<Note> {
    match e
    case Negate(_, x) => Notes(ops, x)
    case Binary(span, op, l, r) =>
      Notes(ops, l) + Notes(ops, r) + NoteOf(span, op, FoldOf(ops, l), FoldOf(ops, r))
    case _ => []
  }

  function Size(e: Expr): nat {
    match e
    case Negate(_, x) => 1 + Size(x)
    case Binary(_, _, l, r) => 1 + Size(l) + Size(r)
    case _ => 1
  }

  /** The state a scan updates: the nodes entered and the notes made. */
  class Scan {
    var visits: nat
    var notes: seq<Note>

    constructor ()
      ensures visits == 0 && notes == []
    {
      visits, notes := 0, [];
    }

    /** Enters every node once, and folds it. */
    method EvalNoting(ops: FloatOps, e: Expr) returns (r: Fold)
      modifies this
      ensures r == FoldOf(ops, e)
      ensures visits == old(visits) + Size(e)
      ensures notes == old(notes) + Notes(ops, e)
      decreases e
    {
      visits := visits + 1;
      match e
      case IntLit(n) => r := Value(Int(n));
      case FloatLit(f) => r := Value(Flt(f));
      case Negate(span, x) =>
        r := EvalNoting(ops, x);
        r := FoldNeg(ops, span, r);
      case Binary(span, op, lhs, rhs) =>
        var l := EvalNoting(ops, lhs);
        r := EvalNoting(ops, rhs);
        Assoc4(old(notes), Notes(ops, lhs), Notes(ops, rhs), NoteOf(span, op, l, r));
        notes := notes + NoteOf(span, op, l, r);
        r := FoldBinary(ops, span, op, l, r);
      case Leaf(_) => r := NotConst;
    }
  }

  // ----- the reference: strict, left to right -----

  datatype Val = IntVal(n: int) | FloatVal(f: Float) | Other(tag: nat)

  /** A value, an int fault at a node, or any other way a leaf or an operator may not return. */
  datatype Outcome = Gives(v: Val) | Faults(span: Span, fault: IntFault) | Throws(code: nat)

  /** All the scan does not know: what the leaves do, and every operator on other operands. `skips`
      says whether `and`/`or` stop after the left operand, and with what. */
  datatype Runtime = Runtime(
    leaf: nat -> Outcome,
    neg: Val -> Outcome,
    skips: (BinaryOp, Val) -> Option<Outcome>,
    binop: (BinaryOp, Val, Val) -> Outcome)

  predicate IsLogic(op: BinaryOp) {
    op == And || op == Or
  }

  ghost function EvalNeg(ops: FloatOps, rt: Runtime, span: Span, v: Val): Outcome {
    match v
    case IntVal(n) => if Fits(-n) then Gives(IntVal(-n)) else Faults(span, Overflow(Neg))
    case FloatVal(f) => Gives(FloatVal(ops.neg(f)))
    case Other(_) => rt.neg(v)
  }

  ghost function EvalBinary(ops: FloatOps, rt: Runtime, span: Span, op: BinaryOp, l: Val, r: Val): Outcome {
    if l.IntVal? && r.IntVal? && IntBinop(op, l.n, r.n).Some? then
      match IntBinop(op, l.n, r.n).value
      case Ok(v) => Gives(IntVal(v))
      case Err(f) => Faults(span, f)
    else if l.FloatVal? && r.FloatVal? && FloatBinop(ops, op, l.f, r.f).Some? then
      Gives(FloatVal(FloatBinop(ops, op, l.f, r.f).value))
    else rt.binop(op, l, r)
  }

  ghost function Eval(ops: FloatOps, rt: Runtime, e: Expr): Outcome {
    match e
    case IntLit(n) => Gives(IntVal(n))
    case FloatLit(f) => Gives(FloatVal(f))
    case Leaf(id) => rt.leaf(id)
    case Negate(span, x) =>
      var v := Eval(ops, rt, x);
      if v.Gives? then EvalNeg(ops, rt, span, v.v) else v
    case Binary(span, op, l, r) =>
      var a := Eval(ops, rt, l);
      if !a.Gives? then a
      else if IsLogic(op) && rt.skips(op, a.v).Some? then rt.skips(op, a.v).value
      else
        var b := Eval(ops, rt, r);
        if b.Gives? then EvalBinary(ops, rt, span, op, a.v, b.v) else b
  }

  function ValOf(c: Const): Val {
    match c
    case Int(n) => IntVal(n)
    case Flt(f) => FloatVal(f)
  }

  // ----- soundness -----

  /** On constants, folding and evaluating a node agree. */
  lemma NegAgrees(ops: FloatOps, rt: Runtime, span: Span, c: Const)
    ensures var f := FoldNeg(ops, span, Value(c));
            && (f.Value? ==> EvalNeg(ops, rt, span, ValOf(c)) == Gives(ValOf(f.c)))
            && (f.Fault? ==> EvalNeg(ops, rt, span, ValOf(c)) == Faults(f.span, f.fault))
            && !f.NotConst? && (f.Fault? ==> f.span == span)
  {
  }

  lemma BinaryAgrees(ops: FloatOps, rt: Runtime, span: Span, op: BinaryOp, a: Const, b: Const)
    ensures var f := FoldBinary(ops, span, op, Value(a), Value(b));
            && (f.Value? ==> EvalBinary(ops, rt, span, op, ValOf(a), ValOf(b)) == Gives(ValOf(f.c)))
            && (f.Fault? ==> EvalBinary(ops, rt, span, op, ValOf(a), ValOf(b)) == Faults(f.span, f.fault))
            && (f.NotConst? ==> EvalBinary(ops, rt, span, op, ValOf(a), ValOf(b)) == rt.binop(op, ValOf(a), ValOf(b)))
            && (IsLogic(op) ==> f.NotConst?)
  {
  }

  /** A folded value is the value, whatever the leaves and the other operators do. */
  lemma {:induction false} FoldedValueIsTheValue(ops: FloatOps, rt: Runtime, e: Expr)
    requires FoldOf(ops, e).Value?
    ensures Eval(ops, rt, e) == Gives(ValOf(FoldOf(ops, e).c))
  {
    match e
    case Negate(span, x) =>
      FoldedValueIsTheValue(ops, rt, x);
      NegAgrees(ops, rt, span, FoldOf(ops, x).c);
    case Binary(span, op, l, r) =>
      FoldedValueIsTheValue(ops, rt, l);
      FoldedValueIsTheValue(ops, rt, r);
      BinaryAgrees(ops, rt, span, op, FoldOf(ops, l).c, FoldOf(ops, r).c);
    case _ =>
  }

  /** `e` with every right operand that `and`/`or` may skip made opaque. */
  function Strip(e: Expr): Expr {
    match e
    case Negate(span, x) => Negate(span, Strip(x))
    case Binary(span, op, l, r) => Binary(span, op, Strip(l), if IsLogic(op) then Leaf(0) else Strip(r))
    case _ => e
  }

  lemma {:induction false} StrippedFoldIsSound(ops: FloatOps, rt: Runtime, e: Expr)
    ensures FoldOf(ops, Strip(e)).Value? ==> Eval(ops, rt, e) == Gives(ValOf(FoldOf(ops, Strip(e)).c))
    ensures FoldOf(ops, Strip(e)).Fault? ==> !Eval(ops, rt, e).Gives?
  {
    match e
    case Negate(_, x) => StrippedFoldIsSound(ops, rt, x);
    case Binary(span, op, l, r) =>
      StrippedFoldIsSound(ops, rt, l);
      if IsLogic(op) {
        assert FoldOf(ops, Strip(e)) == FoldBinary(ops, span, op, FoldOf(ops, Strip(l)), NotConst);
      } else {
        StrippedFoldIsSound(ops, rt, r);
        assert FoldOf(ops, Strip(e)) == FoldBinary(ops, span, op, FoldOf(ops, Strip(l)), FoldOf(ops, Strip(r)));
      }
    case _ =>
  }

  /** Leaves that return, operators that return, `and`/`or` that stop at once. */
  ghost function Benign(): Runtime {
    Runtime(_ => Gives(Other(0)), _ => Gives(Other(0)), (_, _) => Some(Gives(Other(0))), (_, _, _) => Gives(Other(0)))
  }

  lemma {:induction false} BenignReturns(ops: FloatOps, e: Expr)
    requires !FoldOf(ops, Strip(e)).Fault?
    ensures Eval(ops, Benign(), e) ==
            Gives(if FoldOf(ops, Strip(e)).Value? then ValOf(FoldOf(ops, Strip(e)).c) else Other(0))
  {
    match e
    case Negate(span, x) =>
      BenignReturns(ops, x);
      if FoldOf(ops, Strip(x)).Value? { NegAgrees(ops, Benign(), span, FoldOf(ops, Strip(x)).c); }
    case Binary(span, op, l, r) =>
      BenignReturns(ops, l);
      if !IsLogic(op) {
        BenignReturns(ops, r);
        BenignBinary(ops, span, op, FoldOf(ops, Strip(l)), FoldOf(ops, Strip(r)));
      }
    case _ =>
  }

  ghost function BenignVal(f: Fold): Val {
    if f.Value? then ValOf(f.c) else Other(0)
  }

  lemma BenignBinary(ops: FloatOps, span: Span, op: BinaryOp, l: Fold, r: Fold)
    requires !l.Fault? && !r.Fault? && !FoldBinary(ops, span, op, l, r).Fault?
    ensures EvalBinary(ops, Benign(), span, op, BenignVal(l), BenignVal(r)) ==
            Gives(BenignVal(FoldBinary(ops, span, op, l, r)))
  {
    if l.Value? && r.Value? { BinaryAgrees(ops, Benign(), span, op, l.c, r.c); }
  }

  /** The tree gives no value under any runtime exactly when it still folds to a fault with the
      skippable right operands of `and`/`or` made opaque. */
  lemma NeverReturnsIffStrippedFault(ops: FloatOps, e: Expr)
    ensures FoldOf(ops, Strip(e)).Fault? <==> forall rt :: !Eval(ops, rt, e).Gives?
  {
    if FoldOf(ops, Strip(e)).Fault? {
      forall rt ensures !Eval(ops, rt, e).Gives? { StrippedFoldIsSound(ops, rt, e); }
    } else {
      BenignReturns(ops, e);
    }
  }

  ghost predicate NoLogic(e: Expr) {
    match e
    case Negate(_, x) => NoLogic(x)
    case Binary(_, op, l, r) => !IsLogic(op) && NoLogic(l) && NoLogic(r)
    case _ => true
  }

  lemma {:induction false} NoLogicIsStripped(e: Expr)
    requires NoLogic(e)
    ensures Strip(e) == e
  {
    match e
    case Negate(_, x) => NoLogicIsStripped(x);
    case Binary(_, _, l, r) => NoLogicIsStripped(l); NoLogicIsStripped(r);
    case _ =>
  }

  /** Without `and`/`or`, a fold to a fault says exactly that nothing makes the tree return. */
  lemma FaultMeansNoValue(ops: FloatOps, e: Expr)
    requires NoLogic(e)
    ensures FoldOf(ops, e).Fault? <==> forall rt :: !Eval(ops, rt, e).Gives?
  {
    NoLogicIsStripped(e);
    NeverReturnsIffStrippedFault(ops, e);
  }

  /** With `and`/`or` it does not: `x and 1 / 0` folds to a fault, and returns where `x` is false. */
  lemma FaultUnderLogicMayReturn(ops: FloatOps)
    ensures var e := Binary(0, And, Leaf(0), Binary(1, Div, IntLit(1), IntLit(0)));
            FoldOf(ops, e) == Fault(1, DivByZero) && exists rt :: Eval(ops, rt, e).Gives?
  {
    var e := Binary(0, And, Leaf(0), Binary(1, Div, IntLit(1), IntLit(0)));
    assert FoldOf(ops, e.r) == Fault(1, DivByZero);
    assert Eval(ops, Benign(), e).Gives?;
  }

  /** A tree of int arithmetic on int literals. */
  ghost predicate IntArithmetic(e: Expr) {
    match e
    case IntLit(_) => true
    case Negate(_, x) => IntArithmetic(x)
    case Binary(_, op, l, r) => IsArithmetic(op) && IntArithmetic(l) && IntArithmetic(r)
    case _ => false
  }

  ghost function OutcomeOf(f: Fold): Outcome {
    match f
    case Value(c) => Gives(ValOf(c))
    case Fault(span, fault) => Faults(span, fault)
    case NotConst => Throws(0)
  }

  /** On such a tree the fold is the evaluation: the value, or the first fault met and its node. */
  lemma {:induction false} IntFoldIsEvaluation(ops: FloatOps, rt: Runtime, e: Expr)
    requires IntArithmetic(e)
    ensures !FoldOf(ops, e).NotConst? && (FoldOf(ops, e).Value? ==> FoldOf(ops, e).c.Int?)
    ensures Eval(ops, rt, e) == OutcomeOf(FoldOf(ops, e))
  {
    match e
    case Negate(span, x) =>
      IntFoldIsEvaluation(ops, rt, x);
      if FoldOf(ops, x).Value? { NegAgrees(ops, rt, span, FoldOf(ops, x).c); }
    case Binary(span, op, l, r) =>
      IntFoldIsEvaluation(ops, rt, l);
      IntFoldIsEvaluation(ops, rt, r);
      if FoldOf(ops, l).Value? && FoldOf(ops, r).Value? {
        BinaryAgrees(ops, rt, span, op, FoldOf(ops, l).c, FoldOf(ops, r).c);
        IntBinaryFolds(ops, span, op, FoldOf(ops, l).c.n, FoldOf(ops, r).c.n);
      }
    case _ =>
  }

  lemma IntBinaryFolds(ops: FloatOps, span: Span, op: BinaryOp, a: int, b: int)
    requires IsArithmetic(op)
    ensures var f := FoldBinary(ops, span, op, Value(Int(a)), Value(Int(b)));
            !f.NotConst? && (f.Value? ==> f.c.Int?)
  {
  }

  // ----- what folds -----

  /** Which float operations fold, and to what. */
  lemma FloatsThatFold(ops: FloatOps, op: BinaryOp, a: Float, b: Float)
    ensures FloatBinop(ops, op, a, b).Some? <==> op in {Add, Sub, Mul} || (op in {Div, Mod} && !ops.isZero(b))
    ensures FloatBinop(ops, op, a, b).Some? ==> FloatBinop(ops, op, a, b).value == ops.arith(op, a, b)
  {
  }

  /** A runtime in which everything the scan does not know fails. */
  ghost function Hostile(): Runtime {
    Runtime(_ => Throws(0), _ => Throws(0), (_, _) => Some(Throws(0)), (_, _, _) => Throws(0))
  }

  lemma {:induction false} FoldsUnlessItFails(ops: FloatOps, e: Expr)
    ensures Eval(ops, Hostile(), e).Gives? <==> FoldOf(ops, e).Value?
  {
    match e
    case Negate(_, x) =>
      FoldsUnlessItFails(ops, x);
      if FoldOf(ops, x).Value? { FoldedValueIsTheValue(ops, Hostile(), x); }
    case Binary(_, _, l, r) =>
      FoldsUnlessItFails(ops, l);
      FoldsUnlessItFails(ops, r);
      if FoldOf(ops, l).Value? { FoldedValueIsTheValue(ops, Hostile(), l); }
      if FoldOf(ops, r).Value? { FoldedValueIsTheValue(ops, Hostile(), r); }
    case _ =>
  }

  /** The scan misses nothing: an expression folds to a constant exactly when it gives that constant
      whatever the leaves and the other operators do. */
  lemma FoldsIffConstant(ops: FloatOps, e: Expr, c: Const)
    ensures FoldOf(ops, e) == Value(c) <==> forall rt :: Eval(ops, rt, e) == Gives(ValOf(c))
  {
    if FoldOf(ops, e) == Value(c) {
      forall rt ensures Eval(ops, rt, e) == Gives(ValOf(c)) {
        FoldedValueIsTheValue(ops, rt, e);
      }
    } else {
      FoldsUnlessItFails(ops, e);
      if FoldOf(ops, e).Value? { FoldedValueIsTheValue(ops, Hostile(), e); }
      assert Eval(ops, Hostile(), e) != Gives(ValOf(c));
    }
  }

  /** Unary minus of an int literal is the number that cancels it; only the least has none. */
  lemma NegatedLiteral(ops: FloatOps, span: Span, n: int, v: int)
    requires Fits(n)
    ensures FoldOf(ops, Negate(span, IntLit(n))) == Value(Int(v)) <==> v + n == 0 && Fits(v)
    ensures FoldOf(ops, Negate(span, IntLit(n))) == Fault(span, Overflow(Neg)) <==> n == -0x8000_0000_0000_0000
  {
    NegIsExact(n, v);
  }

  // ----- where a fault is -----

  ghost predicate Subtree(e: Expr, node: Expr) {
    || e == node
    || (e.Negate? && Subtree(e.e, node))
    || (e.Binary? && (Subtree(e.l, node) || Subtree(e.r, node)))
  }

  /** The nodes of a tree, one by one. */
  ghost function Nodes(e: Expr): seq<Expr> {
    [e] + (if e.Negate? then Nodes(e.e) else if e.Binary? then Nodes(e.l) + Nodes(e.r) else [])
  }

  /** The visits of a scan are the nodes of the tree, each once. */
  lemma {:induction false} SizeCountsNodes(e: Expr, node: Expr)
    ensures Size(e) == |Nodes(e)| && (node in Nodes(e) <==> Subtree(e, node))
  {
    match e
    case Negate(_, x) => SizeCountsNodes(x, node);
    case Binary(_, _, l, r) =>
      SizeCountsNodes(l, node);
      SizeCountsNodes(r, node);
    case _ =>
  }

  ghost predicate FoldsToInt(ops: FloatOps, e: Expr) {
    FoldOf(ops, e).Value? && FoldOf(ops, e).c.Int?
  }

  /** The operands of `node` fold to ints, so no fault lies below it, and its own arithmetic faults on them. */
  ghost predicate IsFaulty(ops: FloatOps, node: Expr, span: Span, fault: IntFault) {
    match node
    case Negate(s, x) => s == span && FoldsToInt(ops, x) && IntNeg(FoldOf(ops, x).c.n) == Err(fault)
    case Binary(s, op, l, r) =>
      && s == span && FoldsToInt(ops, l) && FoldsToInt(ops, r)
      && IntBinop(op, FoldOf(ops, l).c.n, FoldOf(ops, r).c.n) == Some(Err(fault))
    case _ => false
  }

  /** Such a node faults whenever it is evaluated, there and with that fault. */
  lemma FaultyNodeFaults(ops: FloatOps, rt: Runtime, node: Expr, span: Span, fault: IntFault)
    requires IsFaulty(ops, node, span, fault)
    ensures Eval(ops, rt, node) == Faults(span, fault)
  {
    match node
    case Negate(_, x) => FoldedValueIsTheValue(ops, rt, x);
    case Binary(_, _, l, r) =>
      FoldedValueIsTheValue(ops, rt, l);
      FoldedValueIsTheValue(ops, rt, r);
  }

  /** What a fault names: an innermost node of the tree whose int arithmetic always faults, and its fault. */
  lemma {:induction false} FaultNamesItsNode(ops: FloatOps, e: Expr)
    requires FoldOf(ops, e).Fault?
    ensures exists node :: Subtree(e, node) && IsFaulty(ops, node, FoldOf(ops, e).span, FoldOf(ops, e).fault)
  {
    if IsFaulty(ops, e, FoldOf(ops, e).span, FoldOf(ops, e).fault) {
      assert Subtree(e, e);
    } else {
      var part := if e.Negate? then e.e else if FoldOf(ops, e.l).Fault? then e.l else e.r;
      FaultNamesItsNode(ops, part);
      var node :| Subtree(part, node) && IsFaulty(ops, node, FoldOf(ops, e).span, FoldOf(ops, e).fault);
      assert Subtree(e, node);
    }
  }

  /** And the fold is a fault exactly when the tree has such a node. */
  lemma {:induction false} FaultyNodeIsFound(ops: FloatOps, e: Expr, node: Expr, span: Span, fault: IntFault)
    requires Subtree(e, node) && IsFaulty(ops, node, span, fault)
    ensures FoldOf(ops, e).Fault?
  {
    if e != node {
      var part := if e.Negate? then e.e else if Subtree(e.l, node) then e.l else e.r;
      FaultyNodeIsFound(ops, part, node, span, fault);
    }
  }

  // ----- notes -----

  /** `node` has a left operand that is not constant, and faults for every int there. */
  ghost predicate FaultsForEveryInt(ops: FloatOps, node: Expr, note: Note) {
    && node.Binary? && node.span == note.span && node.op == note.op && FoldOf(ops, node.l).NotConst?
    && FoldOf(ops, node.r).Value? && FoldOf(ops, node.r).c.Int?
    && forall a :: Fits(a) ==> IntBinop(note.op, a, FoldOf(ops, node.r).c.n) == Some(Err(note.fault))
  }

  ghost predicate LiteralsFit(e: Expr) {
    match e
    case IntLit(n) => Fits(n)
    case Negate(_, x) => LiteralsFit(x)
    case Binary(_, _, l, r) => LiteralsFit(l) && LiteralsFit(r)
    case _ => true
  }

  lemma {:induction false} FoldFits(ops: FloatOps, e: Expr)
    requires LiteralsFit(e) && FoldOf(ops, e).Value? && FoldOf(ops, e).c.Int?
    ensures Fits(FoldOf(ops, e).c.n)
  {
    match e
    case Negate(_, x) => FoldFits(ops, x);
    case Binary(_, op, l, r) =>
      FoldFits(ops, l);
      FoldFits(ops, r);
      BinopIsExact(op, FoldOf(ops, l).c.n, FoldOf(ops, r).c.n, FoldOf(ops, e).c.n);
    case _ =>
  }

  /** The scan notes exactly the nodes that fault for every int left operand. */
  lemma {:induction false} NotesAreExact(ops: FloatOps, e: Expr, note: Note)
    requires LiteralsFit(e)
    ensures note in Notes(ops, e) <==> exists node :: Subtree(e, node) && FaultsForEveryInt(ops, node, note)
  {
    match e
    case Negate(_, x) => NotesAreExact(ops, x, note);
    case Binary(span, op, l, r) =>
      NotesAreExact(ops, l, note);
      NotesAreExact(ops, r, note);
      OwnNoteIsExact(ops, e, note);
    case _ =>
  }

  /** Notes come in the order of evaluation: left operand, right operand, then the node itself. */
  lemma NotesInOrder(ops: FloatOps, x: nat, y: nat)
    ensures var left, right := Binary(1, Div, Leaf(x), IntLit(0)), Binary(2, Mod, Leaf(y), IntLit(0));
            && Notes(ops, Binary(0, Add, left, right)) == [Note(1, Div, DivByZero), Note(2, Mod, ModByZero)]
            && Notes(ops, Binary(0, Shl, left, IntLit(64))) == [Note(1, Div, DivByZero), Note(0, Shl, ShiftRange(64))]
            && Notes(ops, Negate(0, left)) == [Note(1, Div, DivByZero)]
  {
    var left, right := Binary(1, Div, Leaf(x), IntLit(0)), Binary(2, Mod, Leaf(y), IntLit(0));
    assert Notes(ops, left) == [Note(1, Div, DivByZero)];
    assert Notes(ops, right) == [Note(2, Mod, ModByZero)];
  }

  lemma OwnNoteIsExact(ops: FloatOps, e: Expr, note: Note)
    requires LiteralsFit(e) && e.Binary?
    ensures note in NoteOf(e.span, e.op, FoldOf(ops, e.l), FoldOf(ops, e.r)) <==> FaultsForEveryInt(ops, e, note)
  {
    if FoldOf(ops, e.r).Value? && FoldOf(ops, e.r).c.Int? {
      FoldFits(ops, e.r);
      OperandFaultIsExact(e.op, FoldOf(ops, e.r).c.n);
      assert Fits(0);
    }
  }

  /** A noted node faults at run time, there and with that fault, for every int its left operand
      gives. */
  lemma NotedNodeFaults(ops: FloatOps, rt: Runtime, node: Expr, note: Note)
    requires FaultsForEveryInt(ops, node, note)
    requires Eval(ops, rt, node.l).Gives? && Eval(ops, rt, node.l).v.IntVal? && Fits(Eval(ops, rt, node.l).v.n)
    ensures Eval(ops, rt, node) == Faults(note.span, note.fault)
  {
    FoldedValueIsTheValue(ops, rt, node.r);
  }
}
