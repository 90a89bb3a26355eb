/** Code for boolean expressions with short-circuit operators, as absolute jumps,
    and what running it does. */
module BooleanCode {
  import opened Options
  import opened Machine

  // Leaf is any expression whose code is not modelled; it may have side effects.
  datatype Exp =
    | Leaf(id: nat)
    | Const(b: bool)
    | Or(left: Exp, right: Exp)
    | And(left: Exp, right: Exp)
    | Cond(test: Exp, onTrue: Exp, onFalse: Exp)

  /* What the expressions mean: a value, and the leaves evaluated on the way. */

  function Meaning(e: Exp, o: Oracle, trace: seq<nat>): (bool, seq<nat>) {
    match e
    case Leaf(id) => (o(trace, id) == Bool(true), trace + [id])
    case Const(b) => (b, trace)
    case Or(l, r) => var (v, t) := Meaning(l, o, trace); if v then (true, t) else Meaning(r, o, t)
    case And(l, r) => var (v, t) := Meaning(l, o, trace); if v then Meaning(r, o, t) else (false, t)
    case Cond(c, x, y) => var (v, t) := Meaning(c, o, trace); if v then Meaning(x, o, t) else Meaning(y, o, t)
  }

  ghost predicate BooleanLeaves(o: Oracle) {
    forall t, id :: o(t, id).Bool?
  }

  function JumpIf(cond: bool, target: nat): Instr {
    if cond then CJmp(target) else NJmp(target)
  }

  // The operators are conditionals: a || b is a ? true : b, and a && b is
  // a ? b : false.
  function AsCond(e: Exp): (c: Exp)
    requires e.Or? || e.And?
    ensures Weight(c) < Weight(e)
    ensures c.Cond? && c.test == e.left
  {
    if e.Or? then Cond(e.left, Const(true), e.right) else Cond(e.left, e.right, Const(false))
  }

  function Weight(e: Exp): nat {
    match e
    case Leaf(_) => 1
    case Const(_) => 1
    case Or(l, r) => Weight(l) + Weight(r) + 3
    case And(l, r) => Weight(l) + Weight(r) + 3
    case Cond(c, x, y) => Weight(c) + Weight(x) + Weight(y) + 1
  }

  lemma AsCondMeans(e: Exp, o: Oracle, trace: seq<nat>)
    requires e.Or? || e.And?
    ensures Meaning(AsCond(e), o, trace) == Meaning(e, o, trace)
  {
  }

  /* The length of the code. */

  function ValueSize(e: Exp): nat
    decreases Weight(e)
  {
    match e
    case Leaf(_) => 1
    case Const(_) => 1
    case Cond(c, x, y) => ValueSize(c) + 1 + ValueSize(y) + 1 + ValueSize(x)
    case _ => ValueSize(AsCond(e))
  }

  function JumpSize(e: Exp): nat {
    match e
    case Or(l, r) => JumpSize(l) + JumpSize(r)
    case And(l, r) => JumpSize(l) + JumpSize(r)
    case _ => ValueSize(e) + 1
  }

  // test, then to x if true, else y and over x: code c at a, y and x after it.
  function Branch(c: seq<Instr>, y: seq<Instr>, x: seq<Instr>, a: nat): seq<Instr> {
    c + [CJmp(a + |c| + 1 + |y| + 1)] + y + [Jmp(a + |c| + 1 + |y| + 1 + |x|)] + x
  }

  /** The code, at address a, that leaves the value of e on the stack. */
  function ValueCode(e: Exp, a: nat): (code: seq<Instr>)
    ensures |code| == ValueSize(e)
    decreases Weight(e)
  {
    match e
    case Leaf(id) => [Eval(id)]
    case Const(b) => [ConstPush(Bool(b))]
    case Cond(c, x, y) =>
      Branch(ValueCode(c, a), ValueCode(y, a + ValueSize(c) + 1), ValueCode(x, a + ValueSize(c) + 1 + ValueSize(y) + 1), a)
    case _ => ValueCode(AsCond(e), a)
  }

  lemma CondCodeIs(c: Exp, x: Exp, y: Exp, a: nat)
    ensures ValueCode(Cond(c, x, y), a) ==
            Branch(ValueCode(c, a), ValueCode(y, a + ValueSize(c) + 1), ValueCode(x, a + ValueSize(c) + 1 + ValueSize(y) + 1), a)
  {
    hide Branch, ValueSize, Weight;
  }

  lemma AsCondLess(e: Exp)
    requires e.Or? || e.And?
    ensures Weight(AsCond(e)) < Weight(e)
    ensures ValueSize(e) == ValueSize(AsCond(e)) && forall a :: ValueCode(e, a) == ValueCode(AsCond(e), a)
  {
  }

  /** The code, at address a, that goes to t if the value of e is cond. */
  function JumpCode(e: Exp, cond: bool, a: nat, t: nat): (code: seq<Instr>)
    ensures |code| == JumpSize(e)
  {
    match e
    case Or(l, r) =>
      if cond then JumpCode(l, true, a, t) + JumpCode(r, true, a + JumpSize(l), t)
      else JumpCode(l, true, a, a + JumpSize(e)) + JumpCode(r, false, a + JumpSize(l), t)
    case And(l, r) =>
      if cond then JumpCode(l, false, a, a + JumpSize(e)) + JumpCode(r, true, a + JumpSize(l), t)
      else JumpCode(l, false, a, t) + JumpCode(r, false, a + JumpSize(l), t)
    case _ => ValueCode(e, a) + [JumpIf(cond, t)]
  }

  /* Correctness. */

  predicate PlacedAt(p: seq<Instr>, a: nat, code: seq<Instr>) {
    a + |code| <= |p| && p[a..a + |code|] == code
  }

  lemma PlacedParts(p: seq<Instr>, a: nat, c: seq<Instr>, d: seq<Instr>)
    requires PlacedAt(p, a, c + d)
    ensures PlacedAt(p, a, c) && PlacedAt(p, a + |c|, d)
  {
    var whole := p[a..a + |c + d|];
    assert p[a..a + |c|] == whole[..|c|];
    assert p[a + |c|..a + |c| + |d|] == whole[|c|..];
  }

  // The state after a value has been computed by code that ends at b.
  function Pushed(s: State, b: nat, v: bool, trace: seq<nat>): State {
    State(b, s.stack + [Bool(v)], s.heap, s.active, trace)
  }

  function Jumped(s: State, b: nat, trace: seq<nat>): State {
    State(b, s.stack, s.heap, s.active, trace)
  }

  lemma StepJumpIf(p: seq<Instr>, o: Oracle, s: State, b: nat, cond: bool, t: nat, v: bool, trace: seq<nat>)
    requires PlacedAt(p, b, [JumpIf(cond, t)])
    ensures Reaches(p, o, Pushed(s, b, v, trace), Jumped(s, if v == cond then t else b + 1, trace))
  {
    var u := Pushed(s, b, v, trace);
    assert p[b] == p[b..b + 1][0];
    assert u.stack[..|s.stack|] == s.stack;
    ReachesStep(p, o, u);
  }

  lemma StepJmp(p: seq<Instr>, o: Oracle, s: State, t: nat)
    requires PlacedAt(p, s.pc, [Jmp(t)])
    ensures Reaches(p, o, s, s.(pc := t))
  {
    assert p[s.pc] == p[s.pc..s.pc + 1][0];
    ReachesStep(p, o, s);
  }

  lemma StepPush(p: seq<Instr>, o: Oracle, s: State, i: Instr, v: bool, trace: seq<nat>)
    requires PlacedAt(p, s.pc, [i])
    requires Do(i, o, s) == Some(Pushed(s, s.pc + 1, v, trace))
    ensures Reaches(p, o, s, Pushed(s, s.pc + 1, v, trace))
  {
    assert p[s.pc] == p[s.pc..s.pc + 1][0];
    ReachesStep(p, o, s);
  }

  // The five parts of a branch.
  lemma BranchParts(p: seq<Instr>, a: nat, c: seq<Instr>, y: seq<Instr>, x: seq<Instr>)
    requires PlacedAt(p, a, Branch(c, y, x, a))
    ensures var b := a + |c|;
            && PlacedAt(p, a, c) && PlacedAt(p, b, [JumpIf(true, b + 1 + |y| + 1)]) && PlacedAt(p, b + 1, y)
            && PlacedAt(p, b + 1 + |y|, [Jmp(b + 1 + |y| + 1 + |x|)]) && PlacedAt(p, b + 1 + |y| + 1, x)
  {
    var b := a + |c|;
    var j, k := [CJmp(b + 1 + |y| + 1)], [Jmp(b + 1 + |y| + 1 + |x|)];
    hide PlacedAt;
    PlacedParts(p, a, c + j + y + k, x);
    PlacedParts(p, a, c + j + y, k);
    PlacedParts(p, a, c + j, y);
    PlacedParts(p, a, c, j);
  }

  lemma BranchRuns(p: seq<Instr>, o: Oracle, s: State, c: seq<Instr>, y: seq<Instr>, x: seq<Instr>,
                   test: bool, tested: seq<nat>, v: bool, trace: seq<nat>)
    requires PlacedAt(p, s.pc, Branch(c, y, x, s.pc))
    requires Reaches(p, o, s, Pushed(s, s.pc + |c|, test, tested))
    requires test ==>
               var b := s.pc + |c| + 1 + |y| + 1; Reaches(p, o, Jumped(s, b, tested), Pushed(s, b + |x|, v, trace))
    requires !test ==>
               var b := s.pc + |c| + 1; Reaches(p, o, Jumped(s, b, tested), Pushed(s, b + |y|, v, trace))
    ensures Reaches(p, o, s, Pushed(s, s.pc + |c| + 1 + |y| + 1 + |x|, v, trace))
  {
    hide Branch, PlacedAt, Reaches;
    var b := s.pc + |c|;
    BranchParts(p, s.pc, c, y, x);
    StepJumpIf(p, o, s, b, true, b + 1 + |y| + 1, test, tested);
    ReachesTransitive(p, o, s, Pushed(s, b, test, tested), Jumped(s, if test then b + 1 + |y| + 1 else b + 1, tested));
    if test {
      ReachesTransitive(p, o, s, Jumped(s, b + 1 + |y| + 1, tested), Pushed(s, b + 1 + |y| + 1 + |x|, v, trace));
    } else {
      var u := Pushed(s, b + 1 + |y|, v, trace);
      ReachesTransitive(p, o, s, Jumped(s, b + 1, tested), u);
      StepJmp(p, o, u, b + 1 + |y| + 1 + |x|);
      ReachesTransitive(p, o, s, u, u.(pc := b + 1 + |y| + 1 + |x|));
    }
  }

  /** Running the value code evaluates the leaves that short-circuit evaluation
      does, in the same order, and pushes the same value. */
  lemma {:induction false} ValueCorrect(p: seq<Instr>, o: Oracle, e: Exp, s: State)
    requires PlacedAt(p, s.pc, ValueCode(e, s.pc)) && BooleanLeaves(o)
    ensures var (v, trace) := Meaning(e, o, s.trace);
            Reaches(p, o, s, Pushed(s, s.pc + ValueSize(e), v, trace))
    decreases Weight(e)
  {
    hide Branch, PlacedAt, Reaches, Weight;
    var a := s.pc;
    var (v, trace) := Meaning(e, o, s.trace);
    match e
    case Leaf(id) =>
      assert o(s.trace, id) == Bool(v);
      StepPush(p, o, s, Eval(id), v, trace);
    case Const(b) =>
      StepPush(p, o, s, ConstPush(Bool(b)), v, trace);
    case Cond(test, onTrue, onFalse) =>
      CondCorrect(p, o, test, onTrue, onFalse, s);
    case _ =>
      AsCondMeans(e, o, s.trace);
      ValueCorrect(p, o, AsCond(e), s);
  }

  lemma {:induction false} CondCorrect(p: seq<Instr>, o: Oracle, test: Exp, onTrue: Exp, onFalse: Exp, s: State)
    requires PlacedAt(p, s.pc, ValueCode(Cond(test, onTrue, onFalse), s.pc)) && BooleanLeaves(o)
    ensures var (v, trace) := Meaning(Cond(test, onTrue, onFalse), o, s.trace);
            Reaches(p, o, s, Pushed(s, s.pc + ValueSize(Cond(test, onTrue, onFalse)), v, trace))
    decreases Weight(Cond(test, onTrue, onFalse)), 0
  {
    hide Branch, PlacedAt, Reaches, Weight, BooleanLeaves;
    var a := s.pc;
    WeightOfParts(test, onTrue, onFalse);
    var (t, tested) := Meaning(test, o, s.trace);
    var (v, trace) := if t then Meaning(onTrue, o, tested) else Meaning(onFalse, o, tested);
    var c, y := ValueCode(test, a), ValueCode(onFalse, a + ValueSize(test) + 1);
    var x := ValueCode(onTrue, a + ValueSize(test) + 1 + ValueSize(onFalse) + 1);
    assert ValueCode(Cond(test, onTrue, onFalse), a) == Branch(c, y, x, a);
    assert ValueSize(Cond(test, onTrue, onFalse)) == |c| + 1 + |y| + 1 + |x|;
    assert Meaning(Cond(test, onTrue, onFalse), o, s.trace) == (v, trace);
    BranchParts(p, a, c, y, x);
    ValueCorrect(p, o, test, s);
    if t {
      ValueCorrect(p, o, onTrue, Jumped(s, a + |c| + 1 + |y| + 1, tested));
    } else {
      ValueCorrect(p, o, onFalse, Jumped(s, a + |c| + 1, tested));
    }
    hide ValueCode, ValueSize, Meaning;
    BranchRuns(p, o, s, c, y, x, t, tested, v, trace);
  }

  lemma WeightOfParts(c: Exp, x: Exp, y: Exp)
    ensures Weight(c) < Weight(Cond(c, x, y)) && Weight(x) < Weight(Cond(c, x, y)) && Weight(y) < Weight(Cond(c, x, y))
  {
  }

  // The left operand decides when its value is stop, and then the code goes
  // to t or falls through to the end.
  function Stop(e: Exp): bool { e.Or? }

  function StopTarget(e: Exp, cond: bool, a: nat, t: nat): nat {
    if cond == Stop(e) then t else a + JumpSize(e)
  }

  lemma JumpCodeParts(e: Exp, cond: bool, a: nat, t: nat)
    requires e.Or? || e.And?
    ensures JumpSize(e) == JumpSize(e.left) + JumpSize(e.right)
    ensures JumpCode(e, cond, a, t) ==
            JumpCode(e.left, Stop(e), a, StopTarget(e, cond, a, t)) + JumpCode(e.right, cond, a + JumpSize(e.left), t)
  {
    hide ValueCode, ValueSize;
  }

  lemma JumpParts(p: seq<Instr>, e: Exp, cond: bool, a: nat, t: nat)
    requires (e.Or? || e.And?) && PlacedAt(p, a, JumpCode(e, cond, a, t))
    ensures PlacedAt(p, a, JumpCode(e.left, Stop(e), a, StopTarget(e, cond, a, t)))
    ensures PlacedAt(p, a + JumpSize(e.left), JumpCode(e.right, cond, a + JumpSize(e.left), t))
    ensures JumpSize(e) == JumpSize(e.left) + JumpSize(e.right)
  {
    hide PlacedAt, JumpCode, JumpSize, Stop, StopTarget;
    JumpCodeParts(e, cond, a, t);
    PlacedParts(p, a, JumpCode(e.left, Stop(e), a, StopTarget(e, cond, a, t)), JumpCode(e.right, cond, a + JumpSize(e.left), t));
  }

  lemma StopMeans(e: Exp, o: Oracle, trace: seq<nat>)
    requires e.Or? || e.And?
    ensures var (v, t) := Meaning(e.left, o, trace);
            Meaning(e, o, trace) == if v == Stop(e) then (v, t) else Meaning(e.right, o, t)
  {
  }

  /** Running the jump code evaluates the same leaves in the same order, leaves
      nothing on the stack, and goes to t exactly if the value is cond. */
  lemma {:induction false} JumpCorrect(p: seq<Instr>, o: Oracle, e: Exp, cond: bool, t: nat, s: State)
    requires PlacedAt(p, s.pc, JumpCode(e, cond, s.pc, t)) && BooleanLeaves(o)
    ensures var (v, trace) := Meaning(e, o, s.trace);
            Reaches(p, o, s, Jumped(s, if v == cond then t else s.pc + JumpSize(e), trace))
  {
    hide PlacedAt, Reaches, BooleanLeaves, JumpCode, JumpSize, Meaning;
    var a := s.pc;
    var (v, trace) := Meaning(e, o, s.trace);
    if e.Or? || e.And? {
      JumpParts(p, e, cond, a, t);
      StopMeans(e, o, s.trace);
      var (vl, tl) := Meaning(e.left, o, s.trace);
      JumpCorrect(p, o, e.left, Stop(e), StopTarget(e, cond, a, t), s);
      if vl != Stop(e) {
        var m := Jumped(s, a + JumpSize(e.left), tl);
        JumpCorrect(p, o, e.right, cond, t, m);
        ReachesTransitive(p, o, s, m, Jumped(s, if v == cond then t else a + JumpSize(e), trace));
      }
    } else {
      PlainJumpCorrect(p, o, e, cond, t, s);
    }
  }

  lemma PlainJumpCorrect(p: seq<Instr>, o: Oracle, e: Exp, cond: bool, t: nat, s: State)
    requires !e.Or? && !e.And?
    requires PlacedAt(p, s.pc, JumpCode(e, cond, s.pc, t)) && BooleanLeaves(o)
    ensures var (v, trace) := Meaning(e, o, s.trace);
            Reaches(p, o, s, Jumped(s, if v == cond then t else s.pc + JumpSize(e), trace))
  {
    hide PlacedAt, Reaches, BooleanLeaves, Meaning, ValueCode;
    var b := s.pc + ValueSize(e);
    var (v, trace) := Meaning(e, o, s.trace);
    PlacedParts(p, s.pc, ValueCode(e, s.pc), [JumpIf(cond, t)]);
    ValueCorrect(p, o, e, s);
    StepJumpIf(p, o, s, b, cond, t, v, trace);
    ReachesTransitive(p, o, s, Pushed(s, b, v, trace), Jumped(s, if v == cond then t else b + 1, trace));
  }
}
