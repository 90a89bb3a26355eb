/** The if statement, from its translation to the running program: the use of
    conditional jumps with labels not yet defined. */
module IfStatements {
  import opened Options
  import opened Machine
  import opened BooleanCode
  import opened Coders

  /** The code, at address a, of an if statement: x if the test is true, else y.
      The code of the branches is given; it does not jump. */
  function IfCode(test: Exp, x: seq<Instr>, y: Option<seq<Instr>>, a: nat): seq<Instr> {
    var b := a + JumpSize(test) + |x|;
    match y
    case None => JumpCode(test, false, a, b) + x
    case Some(y) => JumpCode(test, false, a, b + 1) + (x + [Jmp(b + 1 + |y|)] + y)
  }

  // A branch that is already translated.
  method EncodeAll(c: Coder, code: seq<Instr>)
    requires c.Valid() && Straight(code)
    modifies c`program
    ensures c.Valid()
    ensures forall loc: nat -> nat :: Emitted(old(c.Now()), c.Now(), code, loc)
  {
    hide Emitted, CodeOk;
    ghost var s0 := c.Now();
    forall loc: nat -> nat
      ensures Emitted(s0, s0, [], loc)
    {
      EmittedStart(s0, loc);
    }
    var k := 0;
    while k < |code|
      invariant 0 <= k <= |code| && c.Valid() && c.labels == s0.labels && c.uses == s0.uses
      invariant forall loc: nat -> nat :: Emitted(s0, c.Now(), code[..k], loc)
    {
      ghost var s1 := c.Now();
      c.Encode(code[k]);
      ghost var s2 := c.Now();
      ghost var done := code[..k + 1];
      assert done == code[..k] + [code[k]];
      forall loc: nat -> nat
        ensures Emitted(s0, s2, done, loc)
      {
        EmittedThen(s0, s1, s2, code[..k], [code[k]], loc);
      }
      k := k + 1;
    }
    assert code[..k] == code;
  }

  lemma EmittedStart(s: Unit, loc: nat -> nat)
    ensures Emitted(s, s, [], loc)
  {
  }

  /** ifStm::trans */
  method TransIf(c: Coder, test: Exp, onTrue: seq<Instr>, onFalse: Option<seq<Instr>>)
    requires c.Valid() && Straight(onTrue) && (onFalse.Some? ==> Straight(onFalse.value))
    modifies c
    ensures c.Valid() && Untouched(old(c.labels), c.labels) && NewDefined(old(c.labels), c.labels)
    ensures forall loc: nat -> nat ::
              Emitted(old(c.Now()), c.Now(), IfCode(test, onTrue, onFalse, |old(c.program)|), loc)
  {
    hide Emitted, CodeOk, JumpCode, JumpSize, Patched, IfCode;
    ghost var s0 := c.Now();
    var elseLabel := c.FwdLabel();
    ghost var s1 := c.Now();
    var end := c.FwdLabel();
    ghost var s2 := c.Now();
    c.TransConditionalJump(test, false, elseLabel);
    ghost var s3 := c.Now();
    EncodeAll(c, onTrue);
    ghost var s4 := c.Now();
    if onFalse.Some? {
      // The jump around the else branch.
      c.UseLabel(OpJmp, end);
      ghost var s5 := c.Now();
      c.DefLabel(elseLabel);
      ghost var s6 := c.Now();
      EncodeAll(c, onFalse.value);
      ghost var s7 := c.Now();
      c.DefLabel(end);
      ghost var s8 := c.Now();
      forall loc: nat -> nat
        ensures Emitted(s0, s8, IfCode(test, onTrue, onFalse, |s0.program|), loc)
      {
        IfElseEmitted(test, onTrue, onFalse.value, s0, s1, s2, s3, s4, s5, s6, s7, s8, elseLabel, end, loc);
      }
    } else {
      c.DefLabel(elseLabel);
      ghost var s5 := c.Now();
      c.DefLabel(end);
      ghost var s6 := c.Now();
      forall loc: nat -> nat
        ensures Emitted(s0, s6, IfCode(test, onTrue, onFalse, |s0.program|), loc)
      {
        IfEmitted(test, onTrue, s0, s1, s2, s3, s4, s5, s6, elseLabel, loc);
      }
    }
  }

  lemma IfEmitted(test: Exp, x: seq<Instr>, s0: Unit, s1: Unit, s2: Unit, s3: Unit, s4: Unit, s5: Unit, s6: Unit,
                  elseLabel: nat, loc: nat -> nat)
    requires Emitted(s0, s1, [], loc) && Emitted(s1, s2, [], loc)
    requires Emitted(s2, s3, JumpCode(test, false, |s2.program|, loc(elseLabel)), loc) && Emitted(s3, s4, x, loc)
    requires Emitted(s4, s5, [], loc) && Emitted(s5, s6, [], loc)
    requires elseLabel < |s6.labels| && s6.labels[elseLabel].location == Some(|s4.program|)
    ensures Emitted(s0, s6, IfCode(test, x, None, |s0.program|), loc)
  {
    hide Emitted, JumpCode, JumpSize;
    var c := JumpCode(test, false, |s2.program|, loc(elseLabel));
    EmittedLength(s0, s1, [], loc);
    EmittedLength(s1, s2, [], loc);
    EmittedLength(s2, s3, c, loc);
    EmittedLength(s3, s4, x, loc);
    EmittedThen(s2, s3, s4, c, x, loc);
    EmittedNothing(s1, s2, s4, c + x, loc);
    EmittedNothing(s0, s1, s4, c + x, loc);
    EmittedNothing(s0, s4, s5, c + x, loc);
    EmittedNothing(s0, s5, s6, c + x, loc);
    EmittedAs(s0, s6, c + x, IfCode(test, x, None, |s0.program|), loc);
  }

  lemma IfElseEmitted(test: Exp, x: seq<Instr>, y: seq<Instr>, s0: Unit, s1: Unit, s2: Unit, s3: Unit, s4: Unit,
                      s5: Unit, s6: Unit, s7: Unit, s8: Unit, elseLabel: nat, end: nat, loc: nat -> nat)
    requires Emitted(s0, s1, [], loc) && Emitted(s1, s2, [], loc)
    requires Emitted(s2, s3, JumpCode(test, false, |s2.program|, loc(elseLabel)), loc) && Emitted(s3, s4, x, loc)
    requires Emitted(s4, s5, [Jmp(loc(end))], loc) && Emitted(s5, s6, [], loc)
    requires Emitted(s6, s7, y, loc) && Emitted(s7, s8, [], loc)
    requires elseLabel < |s8.labels| && s8.labels[elseLabel].location == Some(|s5.program|)
    requires end < |s8.labels| && s8.labels[end].location == Some(|s8.program|)
    ensures Emitted(s0, s8, IfCode(test, x, Some(y), |s0.program|), loc)
  {
    hide Emitted, JumpCode, JumpSize;
    var c := JumpCode(test, false, |s2.program|, loc(elseLabel));
    var d := x + [Jmp(loc(end))] + y;
    EmittedLength(s0, s1, [], loc);
    EmittedLength(s1, s2, [], loc);
    EmittedLength(s2, s3, c, loc);
    EmittedLength(s3, s4, x, loc);
    EmittedLength(s4, s5, [Jmp(loc(end))], loc);
    EmittedLength(s5, s6, [], loc);
    EmittedLength(s6, s7, y, loc);
    EmittedLength(s7, s8, [], loc);
    EmittedNothing(s5, s6, s7, y, loc);
    EmittedThree(s3, s4, s5, s7, x, [Jmp(loc(end))], y, loc);
    EmittedThen(s2, s3, s7, c, d, loc);
    EmittedNothing(s1, s2, s7, c + d, loc);
    EmittedNothing(s0, s1, s7, c + d, loc);
    EmittedNothing(s0, s7, s8, c + d, loc);
    EmittedAs(s0, s8, c + d, IfCode(test, x, Some(y), |s0.program|), loc);
  }

  /** Translating an if statement into an empty program: with all labels defined
      and every jump patched, the program is the code of the statement. */
  method CompileIf(test: Exp, onTrue: seq<Instr>, onFalse: Option<seq<Instr>>) returns (program: seq<Instr>)
    requires Straight(onTrue) && (onFalse.Some? ==> Straight(onFalse.value))
    ensures program == IfCode(test, onTrue, onFalse, 0)
  {
    hide Emitted, CodeOk, IfCode;
    var c := new Coder();
    ghost var s0 := c.Now();
    TransIf(c, test, onTrue, onFalse);
    ghost var u := c.Now();
    program := c.program;
    var code := IfCode(test, onTrue, onFalse, 0);
    EmittedStart(u, Places(u.labels));
    CodeInPlace(s0, u, u, code, []);
    WholeProgram(s0, u, code);
  }

  lemma WholeProgram(s: Unit, u: Unit, code: seq<Instr>)
    requires s.program == [] && |u.program| == |code| && PlacedAt(u.program, 0, code)
    ensures u.program == code
  {
  }

  // The code that is to be executed when the test has value v.
  function Chosen(v: bool, x: seq<Instr>, y: Option<seq<Instr>>): seq<Instr> {
    if v then x else if y.Some? then y.value else []
  }

  function ChosenAt(test: Exp, v: bool, x: seq<Instr>, a: nat, y: Option<seq<Instr>>): nat {
    if v then a + JumpSize(test) else a + JumpSize(test) + |x| + if y.Some? then 1 else 0
  }

  /** Running the code of an if statement: the test is evaluated as short-circuit
      evaluation does, then the chosen branch is executed and no other, and
      control goes on after the statement. */
  lemma IfCorrect(p: seq<Instr>, o: Oracle, test: Exp, x: seq<Instr>, y: Option<seq<Instr>>, s: State)
    requires PlacedAt(p, s.pc, IfCode(test, x, y, s.pc)) && BooleanLeaves(o)
    requires Straight(x) && (y.Some? ==> Straight(y.value))
    requires var (v, trace) := Meaning(test, o, s.trace);
             Exec(Chosen(v, x, y), o, Jumped(s, ChosenAt(test, v, x, s.pc, y), trace)).Some?
    ensures var (v, trace) := Meaning(test, o, s.trace);
            var r := Exec(Chosen(v, x, y), o, Jumped(s, ChosenAt(test, v, x, s.pc, y), trace)).value;
            Reaches(p, o, s, r.(pc := s.pc + |IfCode(test, x, y, s.pc)|))
  {
    hide Reaches, Exec, Meaning, JumpCode, JumpSize, PlacedAt, BooleanLeaves, Straight;
    var a := s.pc;
    var (v, trace) := Meaning(test, o, s.trace);
    var m := Jumped(s, ChosenAt(test, v, x, a, y), trace);
    var r := Exec(Chosen(v, x, y), o, m).value;
    var b := a + JumpSize(test) + |x|;
    if y.None? {
      PlacedParts(p, a, JumpCode(test, false, a, b), x);
      JumpCorrect(p, o, test, false, b, s);
      if v {
        BranchExecuted(p, o, x, m);
        ReachesTransitive(p, o, s, m, r);
      } else {
        NothingExecuted(o, m);
      }
    } else {
      PlacedParts(p, a, JumpCode(test, false, a, b + 1), x + [Jmp(b + 1 + |y.value|)] + y.value);
      PlacedParts(p, a + JumpSize(test), x + [Jmp(b + 1 + |y.value|)], y.value);
      PlacedParts(p, a + JumpSize(test), x, [Jmp(b + 1 + |y.value|)]);
      JumpCorrect(p, o, test, false, b + 1, s);
      BranchExecuted(p, o, Chosen(v, x, y), m);
      ReachesTransitive(p, o, s, m, r);
      if v {
        StepJmp(p, o, r, b + 1 + |y.value|);
        ReachesTransitive(p, o, s, r, r.(pc := b + 1 + |y.value|));
      }
    }
  }

  lemma BranchExecuted(p: seq<Instr>, o: Oracle, code: seq<Instr>, m: State)
    requires PlacedAt(p, m.pc, code) && Straight(code) && Exec(code, o, m).Some?
    ensures Reaches(p, o, m, Exec(code, o, m).value) && Exec(code, o, m).value.pc == m.pc + |code|
  {
    ExecRuns(p, o, m, code);
  }

  lemma NothingExecuted(o: Oracle, m: State)
    ensures Exec([], o, m) == Some(m)
  {
  }
}
