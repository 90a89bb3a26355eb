/** Emitting code with labels: jumps to a label not yet defined are recorded with
    the label and patched when it is. */
module Coders {
  import opened Options
  import opened Machine
  import opened BooleanCode

  // A label: where it is, once defined, and the jumps waiting for it until then.
  datatype Label = Label(location: Option<nat>, firstUse: Option<nat>, moreUses: seq<nat>)
  {
    predicate Waits(pc: nat) { firstUse == Some(pc) || pc in moreUses }
  }

  const NEW_LABEL := Label(None, None, [])

  datatype JumpOp = OpJmp | OpCJmp | OpNJmp

  function MakeJump(op: JumpOp, target: nat): (i: Instr)
    ensures IsJump(i)
  {
    match op case OpJmp => Jmp(target) case OpCJmp => CJmp(target) case OpNJmp => NJmp(target)
  }

  function Retarget(i: Instr, target: nat): (r: Instr)
    requires IsJump(i)
    ensures IsJump(r) && r.target == target
  {
    match i case Jmp(_) => Jmp(target) case CJmp(_) => CJmp(target) case NJmp(_) => NJmp(target)
  }

  // The label that each jump of the program was emitted for.
  type Uses = map<nat, nat>

  // The state of a coder.
  datatype Unit = Unit(program: seq<Instr>, labels: seq<Label>, uses: Uses)

  /** The program as it will be once every label l is at loc(l). */
  ghost function View(program: seq<Instr>, uses: Uses, loc: nat -> nat): seq<Instr> {
    seq(|program|, pc requires 0 <= pc < |program| =>
      if pc in uses && IsJump(program[pc]) then Retarget(program[pc], loc(uses[pc])) else program[pc])
  }

  // Final locations that agree with the labels defined so far.
  ghost predicate Agrees(labels: seq<Label>, loc: nat -> nat) {
    forall l :: 0 <= l < |labels| && labels[l].location.Some? ==> loc(l) == labels[l].location.value
  }

  // The labels there were are still there, defined where they were.
  ghost predicate Kept(before: seq<Label>, labels: seq<Label>) {
    && |before| <= |labels|
    && forall l :: 0 <= l < |before| && before[l].location.Some? ==> labels[l].location == before[l].location
  }

  lemma KeptTransitive(a: seq<Label>, b: seq<Label>, c: seq<Label>)
    requires Kept(a, b) && Kept(b, c)
    ensures Kept(a, c)
  {
  }

  lemma AgreesBefore(a: seq<Label>, b: seq<Label>, loc: nat -> nat)
    requires Kept(a, b)
    ensures Agrees(b, loc) ==> Agrees(a, loc)
  {
  }

  // No label was defined but new ones.
  ghost predicate Untouched(before: seq<Label>, labels: seq<Label>) {
    |before| <= |labels| && forall l :: 0 <= l < |before| ==> labels[l].location == before[l].location
  }

  // Every label that is new is defined.
  ghost predicate NewDefined(before: seq<Label>, labels: seq<Label>) {
    forall l :: |before| <= l < |labels| ==> labels[l].location.Some?
  }

  // What a stretch of translation did: the program grew by code.
  ghost predicate Emitted(s: Unit, t: Unit, code: seq<Instr>, loc: nat -> nat) {
    && Kept(s.labels, t.labels)
    && |t.program| == |s.program| + |code|
    && (Agrees(t.labels, loc) ==> View(t.program, t.uses, loc) == View(s.program, s.uses, loc) + code)
  }

  lemma EmittedThen(s: Unit, t: Unit, u: Unit, c: seq<Instr>, d: seq<Instr>, loc: nat -> nat)
    requires Emitted(s, t, c, loc) && Emitted(t, u, d, loc)
    ensures Emitted(s, u, c + d, loc)
  {
    hide View, Agrees;
    KeptTransitive(s.labels, t.labels, u.labels);
    AgreesBefore(t.labels, u.labels, loc);
    assert View(s.program, s.uses, loc) + c + d == View(s.program, s.uses, loc) + (c + d);
  }

  lemma EmittedNothing(s: Unit, t: Unit, u: Unit, c: seq<Instr>, loc: nat -> nat)
    requires (Emitted(s, t, c, loc) && Emitted(t, u, [], loc)) || (Emitted(s, t, [], loc) && Emitted(t, u, c, loc))
    ensures Emitted(s, u, c, loc)
  {
    assert c + [] == c && [] + c == c;
    if Emitted(s, t, c, loc) && Emitted(t, u, [], loc) {
      EmittedThen(s, t, u, c, [], loc);
    } else {
      EmittedThen(s, t, u, [], c, loc);
    }
  }

  lemma EmittedLength(s: Unit, t: Unit, code: seq<Instr>, loc: nat -> nat)
    requires Emitted(s, t, code, loc)
    ensures |t.program| == |s.program| + |code| && Kept(s.labels, t.labels)
  {
  }

  // If the code is as it should be whenever loc agrees in the end, it was emitted.
  lemma EmittedAs(s: Unit, t: Unit, c: seq<Instr>, d: seq<Instr>, loc: nat -> nat)
    requires Emitted(s, t, c, loc) && |c| == |d| && (Agrees(t.labels, loc) ==> c == d)
    ensures Emitted(s, t, d, loc)
  {
  }

  ghost predicate JumpsAre(program: seq<Instr>, uses: Uses) {
    forall pc: nat :: pc in uses <==> pc < |program| && IsJump(program[pc])
  }

  predicate GoesOrWaits(i: Instr, lab: Label, pc: nat) {
    IsJump(i) && if lab.location.Some? then i.target == lab.location.value else lab.Waits(pc)
  }

  // A jump to a defined label goes there, and one to an undefined label waits.
  ghost predicate UsesOk(program: seq<Instr>, labels: seq<Label>, uses: Uses)
    requires JumpsAre(program, uses)
  {
    forall pc :: pc in uses ==> uses[pc] < |labels| && GoesOrWaits(program[pc], labels[uses[pc]], pc)
  }

  ghost predicate LabelOk(program: seq<Instr>, lab: Label, l: nat, uses: Uses) {
    && (forall pc :: lab.Waits(pc) ==> pc in uses && uses[pc] == l)
    && (lab.moreUses != [] ==> lab.firstUse.Some?)
    && (lab.location.Some? ==> lab.location.value <= |program|)
  }

  ghost predicate CodeOk(program: seq<Instr>, labels: seq<Label>, uses: Uses) {
    && JumpsAre(program, uses)
    && UsesOk(program, labels, uses)
    && forall l :: 0 <= l < |labels| ==> LabelOk(program, labels[l], l, uses)
  }

  /** Once its labels are all defined, the program is what it was meant to be. */
  lemma AllDefined(program: seq<Instr>, labels: seq<Label>, uses: Uses, loc: nat -> nat)
    requires CodeOk(program, labels, uses) && Agrees(labels, loc)
    requires forall l :: 0 <= l < |labels| ==> labels[l].location.Some?
    ensures View(program, uses, loc) == program
  {
  }

  lemma EncodeKeeps(program: seq<Instr>, labels: seq<Label>, uses: Uses, i: Instr, loc: nat -> nat)
    requires CodeOk(program, labels, uses) && !IsJump(i)
    ensures CodeOk(program + [i], labels, uses)
    ensures View(program + [i], uses, loc) == View(program, uses, loc) + [i]
  {
    forall l | 0 <= l < |labels|
      ensures LabelOk(program + [i], labels[l], l, uses)
    {
      assert LabelOk(program, labels[l], l, uses);
    }
  }

  // The jump just emitted, with the label as it is then.
  lemma JumpKeeps(program: seq<Instr>, labels: seq<Label>, uses: Uses, i: Instr, l: nat, lab: Label, loc: nat -> nat)
    requires CodeOk(program, labels, uses) && IsJump(i) && l < |labels|
    requires if labels[l].location.Some?
             then lab == labels[l] && i.target == lab.location.value
             else lab.location.None? && lab.Waits(|program|)
                  && (forall pc :: labels[l].Waits(pc) ==> lab.Waits(pc))
                  && (forall pc :: lab.Waits(pc) ==> labels[l].Waits(pc) || pc == |program|)
                  && (lab.moreUses != [] ==> lab.firstUse.Some?)
    ensures CodeOk(program + [i], labels[l := lab], uses[|program| := l])
    ensures View(program + [i], uses[|program| := l], loc) == View(program, uses, loc) + [Retarget(i, loc(l))]
  {
    var p', u', ls' := program + [i], uses[|program| := l], labels[l := lab];
    forall m | 0 <= m < |ls'|
      ensures LabelOk(p', ls'[m], m, u')
    {
      assert LabelOk(program, labels[m], m, uses);
    }
  }

  // A label that is waiting for more jumps was used first.
  lemma UsesRecorded(program: seq<Instr>, labels: seq<Label>, uses: Uses, l: nat)
    requires CodeOk(program, labels, uses) && l < |labels|
    ensures labels[l].moreUses != [] ==> labels[l].firstUse.Some?
  {
    assert LabelOk(program, labels[l], l, uses);
  }

  // The program with every jump waiting for l patched.
  ghost function Patched(program: seq<Instr>, uses: Uses, l: nat, target: nat): (r: seq<Instr>)
    ensures |r| == |program|
  {
    seq(|program|, pc requires 0 <= pc < |program| =>
      if pc in uses && uses[pc] == l && IsJump(program[pc]) then Retarget(program[pc], target) else program[pc])
  }

  lemma PatchKeeps(program: seq<Instr>, labels: seq<Label>, uses: Uses, l: nat, loc: nat -> nat)
    requires CodeOk(program, labels, uses) && l < |labels| && labels[l].location.None?
    ensures var p' := Patched(program, uses, l, |program|);
            && CodeOk(p', labels[l := labels[l].(location := Some(|program|))], uses)
            && View(p', uses, loc) == View(program, uses, loc)
  {
    var p' := Patched(program, uses, l, |program|);
    var ls' := labels[l := labels[l].(location := Some(|program|))];
    forall m | 0 <= m < |ls'|
      ensures LabelOk(p', ls'[m], m, uses)
    {
      assert LabelOk(program, labels[m], m, uses);
    }
    assert forall pc :: 0 <= pc < |program| ==> View(p', uses, loc)[pc] == View(program, uses, loc)[pc];
  }

  class Coder {
    var program: seq<Instr>
    var labels: seq<Label>
    ghost var uses: Uses

    ghost predicate Valid()
      reads this
    {
      CodeOk(program, labels, uses)
    }

    constructor ()
      ensures Valid() && program == [] && labels == []
    {
      program, labels := [], [];
      uses := map[];
    }

    ghost function Now(): Unit
      reads this
    {
      Unit(program, labels, uses)
    }

    method Encode(i: Instr)
      requires Valid() && !IsJump(i)
      modifies this`program
      ensures Valid() && program == old(program) + [i]
      ensures forall loc: nat -> nat :: Emitted(old(Now()), Now(), [i], loc)
    {
      forall loc: nat -> nat
        ensures CodeOk(program + [i], labels, uses)
        ensures View(program + [i], uses, loc) == View(program, uses, loc) + [i]
      {
        EncodeKeeps(program, labels, uses, i, loc);
      }
      EncodeKeeps(program, labels, uses, i, l => 0);
      program := program + [i];
    }

    method FwdLabel() returns (l: nat)
      requires Valid()
      modifies this`labels
      ensures Valid() && l == |old(labels)| && labels == old(labels) + [NEW_LABEL]
      ensures forall loc: nat -> nat :: Emitted(old(Now()), Now(), [], loc)
    {
      l := |labels|;
      ghost var before := labels;
      labels := labels + [NEW_LABEL];
      forall m | 0 <= m < |labels|
        ensures LabelOk(program, labels[m], m, uses)
      {
        assert m < |before| ==> labels[m] == before[m];
      }
      assert forall loc: nat -> nat :: View(program, uses, loc) + [] == View(program, uses, loc);
    }

    /** A jump to a label: wherever the label will be in the end, the jump goes
        there. */
    method UseLabel(op: JumpOp, l: nat)
      requires Valid() && l < |labels|
      modifies this
      ensures Valid() && |labels| == |old(labels)| && Untouched(old(labels), labels)
      ensures forall loc: nat -> nat :: Emitted(old(Now()), Now(), [MakeJump(op, loc(l))], loc)
    {
      hide CodeOk, View;
      var lab := labels[l];
      var i;
      if lab.location.Some? {
        i := MakeJump(op, lab.location.value);
      } else {
        i := MakeJump(op, 0);
        UsesRecorded(program, labels, uses, l);
        if lab.firstUse.Some? {
          lab := lab.(moreUses := lab.moreUses + [|program|]);
        } else {
          lab := lab.(firstUse := Some(|program|));
        }
      }
      forall loc: nat -> nat
        ensures View(program + [i], uses[|program| := l], loc) == View(program, uses, loc) + [MakeJump(op, loc(l))]
      {
        JumpKeeps(program, labels, uses, i, l, lab, loc);
      }
      JumpKeeps(program, labels, uses, i, l, lab, l => 0);
      uses := uses[|program| := l];
      labels := labels[l := lab];
      program := program + [i];
    }

    // Patch the instruction at pc.
    method ReplaceEmptyJump(pc: nat, target: nat)
      requires pc < |program| && IsJump(program[pc])
      modifies this`program
      ensures program == old(program)[pc := Retarget(old(program)[pc], target)]
    {
      program := program[pc := Retarget(program[pc], target)];
    }

    // Patch every jump that waits for the label.
    method PatchUses(lab: Label, ghost l: nat)
      requires Valid() && l < |labels| && lab == labels[l] && lab.location.None?
      modifies this`program
      ensures program == Patched(old(program), uses, l, |old(program)|)
    {
      ghost var p := program;
      var target := |program|;
      assert LabelOk(program, lab, l, uses);
      if lab.firstUse.Some? {
        assert lab.Waits(lab.firstUse.value);
        ReplaceEmptyJump(lab.firstUse.value, target);
        var k := 0;
        while k < |lab.moreUses|
          invariant 0 <= k <= |lab.moreUses| && |program| == |p|
          invariant forall pc :: 0 <= pc < |p| ==>
                      program[pc] == if pc == lab.firstUse.value || pc in lab.moreUses[..k] then Retarget(p[pc], target) else p[pc]
        {
          var pc := lab.moreUses[k];
          assert lab.Waits(pc);
          ReplaceEmptyJump(pc, target);
          assert lab.moreUses[..k + 1] == lab.moreUses[..k] + [pc];
          k := k + 1;
        }
        assert lab.moreUses[..k] == lab.moreUses;
      }
      assert forall pc :: 0 <= pc < |p| ==> (lab.Waits(pc) <==> pc in uses && uses[pc] == l);
      assert program == Patched(p, uses, l, target);
    }

    /** Defining a label changes no instruction but the jumps emitted for it. */
    method DefLabel(l: nat)
      requires Valid() && l < |labels| && labels[l].location.None?
      modifies this`program, this`labels
      ensures Valid() && program == Patched(old(program), uses, l, |old(program)|)
      ensures labels == old(labels)[l := old(labels)[l].(location := Some(|program|))]
      ensures forall loc: nat -> nat :: Emitted(old(Now()), Now(), [], loc)
    {
      ghost var p := program;
      forall loc: nat -> nat
        ensures View(Patched(p, uses, l, |p|), uses, loc) == View(p, uses, loc) + []
      {
        PatchKeeps(program, labels, uses, l, loc);
      }
      PatchKeeps(program, labels, uses, l, l => 0);
      PatchUses(labels[l], l);
      labels := labels[l := labels[l].(location := Some(|program|))];
    }

    /* Translating expressions.  The contracts say what was emitted for wherever
       the labels will be in the end, and that no new label stays undefined. */

    // conditionalExp::baseTransToType for test ? onTrue : onFalse
    method TransBranch(test: Exp, onTrue: Exp, onFalse: Exp)
      requires Valid()
      modifies this
      ensures Valid() && Untouched(old(labels), labels) && NewDefined(old(labels), labels)
      ensures forall loc: nat -> nat ::
                Emitted(old(Now()), Now(), ValueCode(Cond(test, onTrue, onFalse), |old(program)|), loc)
      decreases Weight(Cond(test, onTrue, onFalse)), 0
    {
      hide Emitted, CodeOk, ValueCode, ValueSize, Branch, Patched, Weight, Agrees;
      WeightOfParts(test, onTrue, onFalse);
      ghost var s0 := Now();
      TransValue(test);
      ghost var s1 := Now();
      var tlabel := FwdLabel();
      ghost var s2 := Now();
      UseLabel(OpCJmp, tlabel);
      ghost var s3 := Now();
      TransValue(onFalse);
      ghost var s4 := Now();
      var end := FwdLabel();
      ghost var s5 := Now();
      UseLabel(OpJmp, end);
      ghost var s6 := Now();
      DefLabel(tlabel);
      ghost var s7 := Now();
      TransValue(onTrue);
      ghost var s8 := Now();
      DefLabel(end);
      ghost var s9 := Now();
      forall loc: nat -> nat
        ensures Emitted(s0, s9, ValueCode(Cond(test, onTrue, onFalse), |s0.program|), loc)
      {
        BranchEmitted(test, onTrue, onFalse, s0, s1, s2, s3, s4, s5, s6, s7, s8, s9, tlabel, end, loc);
      }
    }

    // transToType: leave the value on the stack.
    method TransValue(e: Exp)
      requires Valid()
      modifies this
      ensures Valid() && Untouched(old(labels), labels) && NewDefined(old(labels), labels)
      ensures forall loc: nat -> nat :: Emitted(old(Now()), Now(), ValueCode(e, |old(program)|), loc)
      decreases Weight(e), 1
    {
      hide Emitted, CodeOk, ValueSize, Branch, Agrees;
      match e {
        case Leaf(id) =>
          Encode(Eval(id));
        case Const(b) =>
          Encode(ConstPush(Bool(b)));
        case Or(l, r) =>
          AsCondLess(e);
          TransBranch(l, Const(true), r);
        case And(l, r) =>
          AsCondLess(e);
          TransBranch(l, r, Const(false));
        case Cond(test, onTrue, onFalse) =>
          TransBranch(test, onTrue, onFalse);
      }
    }

    /** transConditionalJump: the code goes to dest if the value is cond. */
    method TransConditionalJump(e: Exp, cond: bool, dest: nat)
      requires Valid() && dest < |labels|
      modifies this
      ensures Valid() && Untouched(old(labels), labels) && NewDefined(old(labels), labels)
      ensures forall loc: nat -> nat ::
                Emitted(old(Now()), Now(), JumpCode(e, cond, |old(program)|, loc(dest)), loc)
      decreases e, 1
    {
      hide Emitted, CodeOk, ValueCode, ValueSize, JumpSize, JumpCode, Patched, Agrees;
      match e {
        case Or(_, _) =>
          TransOr(e, cond, dest);
        case And(_, _) =>
          TransAnd(e, cond, dest);
        case _ =>
          ghost var s0 := Now();
          TransValue(e);
          ghost var s1 := Now();
          UseLabel(if cond then OpCJmp else OpNJmp, dest);
          ghost var s2 := Now();
          forall loc: nat -> nat
            ensures Emitted(s0, s2, JumpCode(e, cond, |s0.program|, loc(dest)), loc)
          {
            PlainEmitted(e, cond, loc(dest), s0, s1, s2, loc);
          }
      }
    }

    // orExp::transConditionalJump
    method TransOr(e: Exp, cond: bool, dest: nat)
      requires Valid() && dest < |labels| && e.Or?
      modifies this
      ensures Valid() && Untouched(old(labels), labels) && NewDefined(old(labels), labels)
      ensures forall loc: nat -> nat ::
                Emitted(old(Now()), Now(), JumpCode(e, cond, |old(program)|, loc(dest)), loc)
      decreases e, 0
    {
      hide Emitted, CodeOk, JumpSize, JumpCode, Patched;
      ghost var s0 := Now();
      if cond == true {
        TransConditionalJump(e.left, true, dest);
        ghost var s1 := Now();
        TransConditionalJump(e.right, true, dest);
        ghost var s2 := Now();
        forall loc: nat -> nat
          ensures Emitted(s0, s2, JumpCode(e, cond, |s0.program|, loc(dest)), loc)
        {
          StraightEmitted(e, cond, loc(dest), s0, s1, s2, loc);
        }
      } else {
        var end := FwdLabel();
        ghost var s1 := Now();
        TransConditionalJump(e.left, true, end);
        ghost var s2 := Now();
        TransConditionalJump(e.right, false, dest);
        ghost var s3 := Now();
        DefLabel(end);
        ghost var s4 := Now();
        forall loc: nat -> nat
          ensures Emitted(s0, s4, JumpCode(e, cond, |s0.program|, loc(dest)), loc)
        {
          SkippingEmitted(e, cond, loc(dest), s0, s1, s2, s3, s4, end, loc);
        }
      }
    }

    // andExp::transConditionalJump
    method TransAnd(e: Exp, cond: bool, dest: nat)
      requires Valid() && dest < |labels| && e.And?
      modifies this
      ensures Valid() && Untouched(old(labels), labels) && NewDefined(old(labels), labels)
      ensures forall loc: nat -> nat ::
                Emitted(old(Now()), Now(), JumpCode(e, cond, |old(program)|, loc(dest)), loc)
      decreases e, 0
    {
      hide Emitted, CodeOk, JumpSize, JumpCode, Patched;
      ghost var s0 := Now();
      if cond == true {
        var end := FwdLabel();
        ghost var s1 := Now();
        TransConditionalJump(e.left, false, end);
        ghost var s2 := Now();
        TransConditionalJump(e.right, true, dest);
        ghost var s3 := Now();
        DefLabel(end);
        ghost var s4 := Now();
        forall loc: nat -> nat
          ensures Emitted(s0, s4, JumpCode(e, cond, |s0.program|, loc(dest)), loc)
        {
          SkippingEmitted(e, cond, loc(dest), s0, s1, s2, s3, s4, end, loc);
        }
      } else {
        TransConditionalJump(e.left, false, dest);
        ghost var s1 := Now();
        TransConditionalJump(e.right, false, dest);
        ghost var s2 := Now();
        forall loc: nat -> nat
          ensures Emitted(s0, s2, JumpCode(e, cond, |s0.program|, loc(dest)), loc)
        {
          StraightEmitted(e, cond, loc(dest), s0, s1, s2, loc);
        }
      }
    }
  }

  /* How the pieces of code fit together. */

  lemma BranchEmitted(test: Exp, onTrue: Exp, onFalse: Exp, s0: Unit, s1: Unit, s2: Unit, s3: Unit, s4: Unit,
                      s5: Unit, s6: Unit, s7: Unit, s8: Unit, s9: Unit, tlabel: nat, end: nat, loc: nat -> nat)
    requires Emitted(s0, s1, ValueCode(test, |s0.program|), loc) && Emitted(s1, s2, [], loc)
    requires Emitted(s2, s3, [CJmp(loc(tlabel))], loc)
    requires Emitted(s3, s4, ValueCode(onFalse, |s3.program|), loc) && Emitted(s4, s5, [], loc)
    requires Emitted(s5, s6, [Jmp(loc(end))], loc) && Emitted(s6, s7, [], loc)
    requires Emitted(s7, s8, ValueCode(onTrue, |s7.program|), loc) && Emitted(s8, s9, [], loc)
    requires tlabel < |s9.labels| && s9.labels[tlabel].location == Some(|s7.program|)
    requires end < |s9.labels| && s9.labels[end].location == Some(|s9.program|)
    ensures Emitted(s0, s9, ValueCode(Cond(test, onTrue, onFalse), |s0.program|), loc)
  {
    hide Emitted, ValueCode, ValueSize, Weight, Branch;
    var a := |s0.program|;
    var c, y, x := ValueCode(test, a), ValueCode(onFalse, |s3.program|), ValueCode(onTrue, |s7.program|);
    EmittedTwo(s0, s1, s2, s3, c, [CJmp(loc(tlabel))], loc);
    EmittedTwo(s3, s4, s5, s6, y, [Jmp(loc(end))], loc);
    EmittedLength(s6, s7, [], loc);
    EmittedNothing(s6, s7, s8, x, loc);
    EmittedLength(s6, s8, x, loc);
    EmittedNothing(s6, s8, s9, x, loc);
    EmittedLength(s8, s9, [], loc);
    FittedTogether(s0, s3, s6, s9, c, y, x, tlabel, end, loc);
    CondCodeIs(test, onTrue, onFalse, a);
  }

  // The parts of a branch, with the two labels where they belong.
  lemma FittedTogether(s0: Unit, s3: Unit, s6: Unit, s9: Unit, c: seq<Instr>, y: seq<Instr>, x: seq<Instr>,
                       tlabel: nat, end: nat, loc: nat -> nat)
    requires Emitted(s0, s3, c + [CJmp(loc(tlabel))], loc) && Emitted(s3, s6, y + [Jmp(loc(end))], loc)
    requires Emitted(s6, s9, x, loc)
    requires tlabel < |s9.labels| && s9.labels[tlabel].location == Some(|s6.program|)
    requires end < |s9.labels| && s9.labels[end].location == Some(|s9.program|)
    ensures Emitted(s0, s9, Branch(c, y, x, |s0.program|), loc)
  {
    hide Emitted, Branch, Agrees;
    EmittedLength(s0, s3, c + [CJmp(loc(tlabel))], loc);
    EmittedLength(s3, s6, y + [Jmp(loc(end))], loc);
    EmittedLength(s6, s9, x, loc);
    EmittedThree(s0, s3, s6, s9, c + [CJmp(loc(tlabel))], y + [Jmp(loc(end))], x, loc);
    BranchIs(c, y, x, |s0.program|, s9.labels, tlabel, end, loc);
    EmittedAs(s0, s9, (c + [CJmp(loc(tlabel))]) + (y + [Jmp(loc(end))]) + x, Branch(c, y, x, |s0.program|), loc);
  }

  lemma EmittedThree(s: Unit, t: Unit, u: Unit, v: Unit, c: seq<Instr>, d: seq<Instr>, e: seq<Instr>, loc: nat -> nat)
    requires Emitted(s, t, c, loc) && Emitted(t, u, d, loc) && Emitted(u, v, e, loc)
    ensures Emitted(s, v, c + d + e, loc)
  {
    hide Emitted;
    EmittedThen(s, t, u, c, d, loc);
    EmittedThen(s, u, v, c + d, e, loc);
  }

  // A stretch of code, a new label, and another stretch.
  lemma EmittedTwo(s: Unit, t: Unit, u: Unit, v: Unit, c: seq<Instr>, d: seq<Instr>, loc: nat -> nat)
    requires Emitted(s, t, c, loc) && Emitted(t, u, [], loc) && Emitted(u, v, d, loc)
    ensures Emitted(s, v, c + d, loc)
    ensures |u.program| == |s.program| + |c| && |v.program| == |s.program| + |c| + |d|
  {
    hide Emitted;
    EmittedLength(s, t, c, loc);
    EmittedLength(t, u, [], loc);
    EmittedLength(u, v, d, loc);
    EmittedNothing(s, t, u, c, loc);
    EmittedThen(s, u, v, c, d, loc);
  }

  lemma BranchIs(c: seq<Instr>, y: seq<Instr>, x: seq<Instr>, a: nat, labels: seq<Label>, tlabel: nat, end: nat, loc: nat -> nat)
    requires tlabel < |labels| && labels[tlabel].location == Some(a + |c| + 1 + |y| + 1)
    requires end < |labels| && labels[end].location == Some(a + |c| + 1 + |y| + 1 + |x|)
    ensures var code := (c + [CJmp(loc(tlabel))]) + (y + [Jmp(loc(end))]) + x;
            |code| == |Branch(c, y, x, a)| && (Agrees(labels, loc) ==> code == Branch(c, y, x, a))
  {
  }

  // Both operands go to the same place.
  lemma StraightEmitted(e: Exp, cond: bool, t: nat, s0: Unit, s1: Unit, s2: Unit, loc: nat -> nat)
    requires (e.Or? || e.And?) && cond == e.Or?
    requires Emitted(s0, s1, JumpCode(e.left, cond, |s0.program|, t), loc)
    requires Emitted(s1, s2, JumpCode(e.right, cond, |s1.program|, t), loc)
    ensures Emitted(s0, s2, JumpCode(e, cond, |s0.program|, t), loc)
  {
    hide Emitted;
    EmittedLength(s0, s1, JumpCode(e.left, cond, |s0.program|, t), loc);
    EmittedThen(s0, s1, s2, JumpCode(e.left, cond, |s0.program|, t), JumpCode(e.right, cond, |s1.program|, t), loc);
  }

  // The left operand may skip the right one.
  lemma SkippingEmitted(e: Exp, cond: bool, t: nat, s0: Unit, s1: Unit, s2: Unit, s3: Unit, s4: Unit, end: nat, loc: nat -> nat)
    requires (e.Or? || e.And?) && cond != e.Or?
    requires Emitted(s0, s1, [], loc) && Emitted(s1, s2, JumpCode(e.left, !cond, |s1.program|, loc(end)), loc)
    requires Emitted(s2, s3, JumpCode(e.right, cond, |s2.program|, t), loc) && Emitted(s3, s4, [], loc)
    requires end < |s4.labels| && s4.labels[end].location == Some(|s4.program|)
    ensures Emitted(s0, s4, JumpCode(e, cond, |s0.program|, t), loc)
  {
    hide Emitted, JumpCode, JumpSize;
    var c, d := JumpCode(e.left, !cond, |s1.program|, loc(end)), JumpCode(e.right, cond, |s2.program|, t);
    EmittedLength(s0, s1, [], loc);
    EmittedLength(s1, s2, c, loc);
    EmittedLength(s2, s3, d, loc);
    EmittedLength(s3, s4, [], loc);
    EmittedThen(s1, s2, s3, c, d, loc);
    EmittedNothing(s0, s1, s3, c + d, loc);
    EmittedNothing(s0, s3, s4, c + d, loc);
    JumpCodeParts(e, cond, |s0.program|, t);
    EmittedAs(s0, s4, c + d, JumpCode(e, cond, |s0.program|, t), loc);
  }

  lemma PlainEmitted(e: Exp, cond: bool, t: nat, s0: Unit, s1: Unit, s2: Unit, loc: nat -> nat)
    requires !e.Or? && !e.And?
    requires Emitted(s0, s1, ValueCode(e, |s0.program|), loc) && Emitted(s1, s2, [JumpIf(cond, t)], loc)
    ensures Emitted(s0, s2, JumpCode(e, cond, |s0.program|, t), loc)
  {
    hide Emitted, ValueCode;
    EmittedThen(s0, s1, s2, ValueCode(e, |s0.program|), [JumpIf(cond, t)], loc);
  }

  /* The finished program. */

  // Every label is defined.
  ghost predicate Finished(u: Unit) {
    CodeOk(u.program, u.labels, u.uses) && forall l :: 0 <= l < |u.labels| ==> u.labels[l].location.Some?
  }

  // Where the labels are.
  ghost function Places(labels: seq<Label>): nat -> nat {
    (l: nat) => if l < |labels| && labels[l].location.Some? then labels[l].location.value else 0
  }

  /** Code that was emitted is in the finished program where it was emitted, with
      every jump at its label's place, whatever was emitted afterwards. */
  lemma CodeInPlace(s: Unit, t: Unit, u: Unit, code: seq<Instr>, rest: seq<Instr>)
    requires Finished(u)
    requires Emitted(s, t, code, Places(u.labels)) && Emitted(t, u, rest, Places(u.labels))
    ensures PlacedAt(u.program, |s.program|, code) && |t.program| == |s.program| + |code|
  {
    var loc := Places(u.labels);
    EmittedThen(s, t, u, code, rest, loc);
    AllDefined(u.program, u.labels, u.uses, loc);
    assert u.program == View(s.program, s.uses, loc) + (code + rest);
  }

  /** Running what transConditionalJump emitted, in the finished program: the
      leaves that short-circuit evaluation evaluates, in its order, nothing left
      on the stack, and the label reached if and only if the value is cond. */
  lemma ConditionRuns(s: Unit, t: Unit, u: Unit, e: Exp, cond: bool, dest: nat, rest: seq<Instr>, o: Oracle, m: State)
    requires Finished(u) && dest < |u.labels| && BooleanLeaves(o) && m.pc == |s.program|
    requires Emitted(s, t, JumpCode(e, cond, |s.program|, Places(u.labels)(dest)), Places(u.labels))
    requires Emitted(t, u, rest, Places(u.labels))
    ensures var (v, trace) := Meaning(e, o, m.trace);
            Reaches(u.program, o, m, Jumped(m, if v == cond then u.labels[dest].location.value else |t.program|, trace))
  {
    hide Emitted, JumpCode, PlacedAt, Reaches, Meaning, CodeOk;
    var code := JumpCode(e, cond, |s.program|, Places(u.labels)(dest));
    CodeInPlace(s, t, u, code, rest);
    JumpCorrect(u.program, o, e, cond, Places(u.labels)(dest), m);
  }

  /** Running what transToType emitted pushes the value, after the same leaves. */
  lemma ValueRuns(s: Unit, t: Unit, u: Unit, e: Exp, rest: seq<Instr>, o: Oracle, m: State)
    requires Finished(u) && BooleanLeaves(o) && m.pc == |s.program|
    requires Emitted(s, t, ValueCode(e, |s.program|), Places(u.labels)) && Emitted(t, u, rest, Places(u.labels))
    ensures var (v, trace) := Meaning(e, o, m.trace); Reaches(u.program, o, m, Pushed(m, |t.program|, v, trace))
  {
    hide Emitted, ValueCode, PlacedAt, Reaches, Meaning, CodeOk;
    CodeInPlace(s, t, u, ValueCode(e, |s.program|), rest);
    ValueCorrect(u.program, o, e, m);
  }
}
