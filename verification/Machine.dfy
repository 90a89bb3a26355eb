/** The part of the virtual machine that the generated code of this project
    uses: a stack of values, frames of variables linked to their parents, and
    jumps.  The evaluation of an expression by code that is not modelled is one
    instruction, whose value may depend on everything evaluated before it. */
module Machine {
  import opened Options

  datatype Value =
    | Bool(b: bool)
    | Int(n: int)
    | FrameRef(id: nat)
    | Null
    | Default
    | Array(elems: seq<Value>)
    | Opaque(id: nat)

  datatype Builtin = NewInitializedArray | NewAppendedArray

  datatype Instr =
    | Eval(id: nat)
    | ConstPush(v: Value)
    | IntPush(n: int)
    | PushDefault
    | PushClosure
    | Pop
    | VarPush(i: nat)
    | VarSave(i: nat)
    | FieldPush(i: nat)
    | FieldSave(i: nat)
    | Call(f: Builtin)
    | CJmp(target: nat)
    | NJmp(target: nat)
    | Jmp(target: nat)

  // The value of an expression, given all that was evaluated before.
  type Oracle = (seq<nat>, nat) -> Value

  type Vars = map<int, Value>

  datatype State = State(pc: nat, stack: seq<Value>, heap: map<nat, Vars>, active: nat, trace: seq<nat>)

  predicate IsJump(i: Instr) {
    i.CJmp? || i.NJmp? || i.Jmp?
  }

  // Code that does not jump.
  predicate Straight(code: seq<Instr>) {
    forall k :: 0 <= k < |code| ==> !IsJump(code[k])
  }

  function Next(s: State, stack: seq<Value>): State {
    s.(pc := s.pc + 1, stack := stack)
  }

  function Top(s: State): Value
    requires s.stack != []
  {
    s.stack[|s.stack| - 1]
  }

  function Below(s: State): seq<Value>
    requires s.stack != []
  {
    s.stack[..|s.stack| - 1]
  }

  // None when the machine stops with an error.
  function Do(i: Instr, o: Oracle, s: State): Option<State> {
    match i
    case Eval(id) => Some(Next(s, s.stack + [o(s.trace, id)]).(trace := s.trace + [id]))
    case ConstPush(v) => Some(Next(s, s.stack + [v]))
    case IntPush(n) => Some(Next(s, s.stack + [Int(n)]))
    case PushDefault => Some(Next(s, s.stack + [Default]))
    case PushClosure => Some(Next(s, s.stack + [FrameRef(s.active)]))
    case Pop => if s.stack == [] then None else Some(Next(s, Below(s)))
    case VarPush(i) =>
      if s.active in s.heap && i in s.heap[s.active] then Some(Next(s, s.stack + [s.heap[s.active][i]])) else None
    case VarSave(i) =>
      if s.stack != [] && s.active in s.heap
      then Some(Next(s, s.stack).(heap := s.heap[s.active := s.heap[s.active][i := Top(s)]]))
      else None
    case FieldPush(i) =>
      if s.stack != [] && Top(s).FrameRef? && Top(s).id in s.heap && i in s.heap[Top(s).id]
      then Some(Next(s, Below(s) + [s.heap[Top(s).id][i]]))
      else None
    case FieldSave(i) =>
      if |s.stack| >= 2 && Top(s).FrameRef? && Top(s).id in s.heap
      then
        var frame := Top(s).id;
        Some(Next(s, Below(s)).(heap := s.heap[frame := s.heap[frame][i := s.stack[|s.stack| - 2]]]))
      else None
    case Call(f) => DoBuiltin(f, s)
    case CJmp(t) =>
      if s.stack == [] then None else Some(if Top(s) == Bool(true) then s.(pc := t, stack := Below(s)) else Next(s, Below(s)))
    case NJmp(t) =>
      if s.stack == [] then None else Some(if Top(s) != Bool(true) then s.(pc := t, stack := Below(s)) else Next(s, Below(s)))
    case Jmp(t) => Some(s.(pc := t))
  }

  // The array makers take the number of cells from the stack, then the array
  // to append, if there is one, then the cells.
  function DoBuiltin(f: Builtin, s: State): Option<State> {
    var k := if f.NewAppendedArray? then 2 else 1;
    if |s.stack| < k || !Top(s).Int? || !(0 <= Top(s).n <= |s.stack| - k) then None
    else
      var n, left := Top(s).n, |s.stack| - k - Top(s).n;
      var cells := s.stack[left..left + n];
      if f.NewInitializedArray? then Some(Next(s, s.stack[..left] + [Array(cells)]))
      else if s.stack[left + n].Array? then Some(Next(s, s.stack[..left] + [Array(cells + s.stack[left + n].elems)]))
      else None
  }

  // Straight-line execution of a stretch of code.
  function Exec(code: seq<Instr>, o: Oracle, s: State): Option<State> {
    if code == [] then Some(s)
    else
      var t := Exec(code[..|code| - 1], o, s);
      if t.None? then None else Do(code[|code| - 1], o, t.value)
  }

  lemma ExecOne(i: Instr, o: Oracle, s: State)
    ensures Exec([i], o, s) == Do(i, o, s)
  {
    assert [i][..0] == [];
  }

  lemma {:induction false} ExecConcat(c: seq<Instr>, d: seq<Instr>, o: Oracle, s: State)
    ensures Exec(c + d, o, s) == var t := Exec(c, o, s); if t.None? then None else Exec(d, o, t.value)
  {
    if d == [] {
      assert c + d == c;
    } else {
      assert (c + d)[..|c + d| - 1] == c + d[..|d| - 1];
      ExecConcat(c, d[..|d| - 1], o, s);
    }
  }

  // The machine itself, running a program for n steps.
  function Run(p: seq<Instr>, o: Oracle, s: State, n: nat): Option<State>
    decreases n
  {
    if n == 0 then Some(s)
    else if s.pc >= |p| then None
    else
      var t := Do(p[s.pc], o, s);
      if t.None? then None else Run(p, o, t.value, n - 1)
  }

  ghost predicate Reaches(p: seq<Instr>, o: Oracle, s: State, t: State) {
    exists n :: Run(p, o, s, n) == Some(t)
  }

  lemma {:induction false} RunConcat(p: seq<Instr>, o: Oracle, s: State, m: nat, n: nat)
    requires Run(p, o, s, m).Some?
    ensures Run(p, o, s, m + n) == Run(p, o, Run(p, o, s, m).value, n)
    decreases m
  {
    if m > 0 {
      RunConcat(p, o, Do(p[s.pc], o, s).value, m - 1, n);
    }
  }

  lemma ReachesTransitive(p: seq<Instr>, o: Oracle, s: State, t: State, u: State)
    requires Reaches(p, o, s, t) && Reaches(p, o, t, u)
    ensures Reaches(p, o, s, u)
  {
    var m :| Run(p, o, s, m) == Some(t);
    var n :| Run(p, o, t, n) == Some(u);
    RunConcat(p, o, s, m, n);
  }

  lemma ReachesSelf(p: seq<Instr>, o: Oracle, s: State)
    ensures Reaches(p, o, s, s)
  {
    assert Run(p, o, s, 0) == Some(s);
  }

  lemma ReachesStep(p: seq<Instr>, o: Oracle, s: State)
    requires s.pc < |p| && Do(p[s.pc], o, s).Some?
    ensures Reaches(p, o, s, Do(p[s.pc], o, s).value)
  {
    assert Run(p, o, Do(p[s.pc], o, s).value, 0) == Some(Do(p[s.pc], o, s).value);
    assert Run(p, o, s, 1) == Some(Do(p[s.pc], o, s).value);
  }

  /** Straight-line execution is what the machine does with code that does not
      jump, wherever the code is placed. */
  lemma {:induction false} ExecRuns(p: seq<Instr>, o: Oracle, s: State, code: seq<Instr>)
    requires s.pc + |code| <= |p| && p[s.pc..s.pc + |code|] == code
    requires Straight(code)
    requires Exec(code, o, s).Some?
    ensures Exec(code, o, s).value.pc == s.pc + |code|
    ensures Reaches(p, o, s, Exec(code, o, s).value)
  {
    hide Do, Reaches, Run;
    if code == [] {
      ReachesSelf(p, o, s);
    } else {
      var init, last := code[..|code| - 1], code[|code| - 1];
      assert p[s.pc..s.pc + |init|] == p[s.pc..s.pc + |code|][..|init|];
      ExecRuns(p, o, s, init);
      var t := Exec(init, o, s).value;
      assert p[t.pc] == p[s.pc..s.pc + |code|][|init|] == last;
      ReachesStep(p, o, t);
      DoGoesOn(last, o, t);
      ReachesTransitive(p, o, s, t, Do(last, o, t).value);
    }
  }

  // An instruction that does not jump is followed by the next.
  lemma DoGoesOn(i: Instr, o: Oracle, s: State)
    requires !IsJump(i) && Do(i, o, s).Some?
    ensures Do(i, o, s).value.pc == s.pc + 1
  {
  }
}
