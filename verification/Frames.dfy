/** Frames of functions and records, and the code that reaches a variable from
    any nesting depth by following links to enclosing frames. */
module Frames {
  import opened Options
  import M = Machine

  class Frame {
    const parent: Frame?
    const numFormals: nat
    const indirect: bool
    var numLocals: nat
    ghost const depth: nat

    // Enclosing frames are strictly fewer.
    ghost predicate Chained()
      decreases depth
    {
      parent != null ==> parent.depth < depth && parent.Chained()
    }

    ghost predicate Valid() {
      Chained() && (indirect ==> parent != null && !parent.indirect)
    }

    constructor Direct(parent: Frame?, numFormals: nat)
      requires parent != null ==> parent.Chained()
      ensures Valid() && this.parent == parent && this.numFormals == numFormals && numLocals == 0 && !indirect
    {
      this.parent, this.numFormals, indirect := parent, numFormals, false;
      numLocals := 0;
      depth := if parent == null then 0 else parent.depth + 1;
    }

    // The frame of a file: it holds one link, to a frame that may grow.
    constructor Indirect()
      ensures Valid() && indirect && numFormals == 0 && fresh(parent) && Size() == 1
    {
      var sub := new Frame.Direct(null, 0);
      parent, numFormals, indirect := sub, 0, true;
      numLocals := 1;
      depth := sub.depth + 1;
    }

    // The link to the parent frame comes right after the formals.
    function ParentIndex(): nat { numFormals }

    // The frame in which locals are allocated.
    function Home(): Frame
      requires Valid()
    {
      if indirect then parent else this
    }

    function Size(): nat
      requires Valid()
      reads Home()
    {
      1 + Home().numFormals + Home().numLocals
    }

    method AccessFormal(index: nat) returns (a: Access)
      requires index < numFormals && !indirect
      ensures a == Local(this, index) && a.offset < ParentIndex()
    {
      return Local(this, index);
    }

    /** A new local lies beyond everything the frame holds, and enlarges it by
        one, so formals, the parent link and locals never share an index. */
    method AllocLocal() returns (a: Access)
      requires Valid()
      modifies Home()
      ensures a.Local? && a.level == Home()
      ensures a.offset == old(Size()) && a.offset > Home().ParentIndex() && Size() == old(Size()) + 1
      decreases indirect
    {
      if !indirect {
        a := Local(this, 1 + numFormals + numLocals);
        numLocals := numLocals + 1;
      } else {
        a := parent.AllocLocal();
      }
    }
  }

  // Where a variable is: in a frame of its own static chain, or a field of the
  // record that another access gives.
  datatype Access =
    | Local(level: Frame, offset: nat)
    | FrameOf(f: Frame)
    | Qualified(qualifier: Access, field: Access, qualifierLevel: Frame)

  datatype Action = READ | WRITE

  ghost function Chain(f: Frame?): seq<Frame>
    requires f != null ==> f.Chained()
    decreases if f == null then 0 else f.depth + 1
  {
    if f == null then [] else [f] + Chain(f.parent)
  }

  /* The code. */

  // From the frame top on the stack to dest.
  function Walk(dest: Frame, top: Frame?): Option<seq<M.Instr>>
    requires top != null ==> top.Chained()
    decreases if top == null then 0 else top.depth + 1
  {
    if top == null then None
    else if top == dest then Some([])
    else
      var rest := Walk(dest, top.parent);
      if rest.None? then None else Some([M.FieldPush(top.ParentIndex())] + rest.value)
  }

  function FromTop(dest: Frame?, top: Frame?): Option<seq<M.Instr>>
    requires top != null ==> top.Chained()
  {
    if dest == null then Some([M.Pop, M.ConstPush(M.Null)]) else Walk(dest, top)
  }

  function ToFrame(dest: Frame?, active: Frame): Option<seq<M.Instr>>
    requires active.Chained()
  {
    if dest == null then Some([M.ConstPush(M.Null)])
    else if dest == active then Some([M.PushClosure])
    else
      var rest := FromTop(dest, active.parent);
      if rest.None? then None else Some([M.VarPush(active.ParentIndex())] + rest.value)
  }

  function FieldInstr(act: Action, offset: nat): M.Instr {
    if act == WRITE then M.FieldSave(offset) else M.FieldPush(offset)
  }

  // access::encode(act, coder)
  function AccessCode(a: Access, act: Action, active: Frame): Option<seq<M.Instr>>
    requires Sensible(a) && active.Chained()
  {
    match a
    case Local(level, offset) =>
      if level == active then Some([if act == WRITE then M.VarSave(offset) else M.VarPush(offset)])
      else Then(ToFrame(level, active), Some([FieldInstr(act, offset)]))
    case FrameOf(f) => if act == READ then ToFrame(f, active) else None
    case Qualified(q, field, ql) => Then(AccessCode(q, READ, active), AccessCodeFrom(field, act, ql))
  }

  // access::encode(act, coder, top): the frame top is on the stack.
  function AccessCodeFrom(a: Access, act: Action, top: Frame): Option<seq<M.Instr>>
    requires Sensible(a) && top.Chained()
  {
    match a
    case Local(level, offset) => Then(FromTop(level, top), Some([FieldInstr(act, offset)]))
    case FrameOf(f) => if act == READ then FromTop(f, top) else None
    case Qualified(q, field, ql) => Then(AccessCodeFrom(q, READ, top), AccessCodeFrom(field, act, ql))
  }

  function Then(a: Option<seq<M.Instr>>, b: Option<seq<M.Instr>>): Option<seq<M.Instr>> {
    if a.Some? && b.Some? then Some(a.value + b.value) else None
  }

  ghost predicate Sensible(a: Access) {
    match a
    case Local(level, _) => level.Chained()
    case FrameOf(f) => f.Chained()
    case Qualified(q, field, ql) => Sensible(q) && Sensible(field) && ql.Chained()
  }

  /* The loops of the coder. */

  // coder::encode(dest, top)
  method EncodeFrom(dest: Frame?, top: Frame?) returns (ok: bool, code: seq<M.Instr>)
    requires (top != null ==> top.Chained()) && (dest != null ==> dest.Chained())
    ensures ok == FromTop(dest, top).Some? && (ok ==> code == FromTop(dest, top).value)
  {
    if dest == null {
      return true, [M.Pop] + [M.ConstPush(M.Null)];
    }
    code := [];
    var level := top;
    while level != dest
      invariant level != null ==> level.Chained()
      invariant Walk(dest, top).Some? == Walk(dest, level).Some?
      invariant Walk(dest, level).Some? ==> Walk(dest, top).value == code + Walk(dest, level).value
      decreases if level == null then 0 else level.depth + 1
    {
      if level == null {
        return false, code;
      }
      code := code + [M.FieldPush(level.ParentIndex())];
      level := level.parent;
    }
    return true, code;
  }

  // coder::encode(f)
  method EncodeFrame(f: Frame?, toplevel: Frame) returns (ok: bool, code: seq<M.Instr>)
    requires toplevel.Chained() && (f != null ==> f.Chained())
    ensures ok == ToFrame(f, toplevel).Some? && (ok ==> code == ToFrame(f, toplevel).value)
  {
    if f == null {
      return true, [M.ConstPush(M.Null)];
    } else if f == toplevel {
      return true, [M.PushClosure];
    }
    code := [M.VarPush(toplevel.ParentIndex())];
    var rest;
    ok, rest := EncodeFrom(f, toplevel.parent);
    code := code + rest;
  }

  /** A frame can be reached exactly if it is null or on the static chain. */
  lemma {:induction false} WalkIff(dest: Frame, top: Frame?)
    requires top != null ==> top.Chained()
    ensures Walk(dest, top).Some? <==> dest in Chain(top)
    decreases if top == null then 0 else top.depth + 1
  {
    if top != null {
      WalkIff(dest, top.parent);
    }
  }

  lemma ToFrameIff(f: Frame?, active: Frame)
    requires active.Chained()
    ensures ToFrame(f, active).Some? <==> f == null || f in Chain(active)
  {
    if f != null {
      WalkIff(f, active.parent);
    }
  }

  // Every frame that the access names is on the static chain it starts from.
  ghost predicate InScope(a: Access, act: Action, f: Frame)
    requires Sensible(a) && f.Chained()
    decreases a
  {
    match a
    case Local(level, _) => level in Chain(f)
    case FrameOf(g) => act == READ && g in Chain(f)
    case Qualified(q, field, ql) => InScope(q, READ, f) && InScope(field, act, ql)
  }

  lemma {:induction false} AccessFromIff(a: Access, act: Action, top: Frame)
    requires Sensible(a) && top.Chained()
    ensures AccessCodeFrom(a, act, top).Some? <==> InScope(a, act, top)
    decreases a
  {
    match a
    case Local(level, _) => WalkIff(level, top);
    case FrameOf(g) => WalkIff(g, top);
    case Qualified(q, field, ql) =>
      AccessFromIff(q, READ, top);
      AccessFromIff(field, act, ql);
  }

  /** An access can be translated exactly if it is in scope; a frame cannot be
      written. */
  lemma {:induction false} AccessIff(a: Access, act: Action, active: Frame)
    requires Sensible(a) && active.Chained()
    ensures AccessCode(a, act, active).Some? <==> InScope(a, act, active)
    decreases a
  {
    match a
    case Local(level, _) => ToFrameIff(level, active);
    case FrameOf(g) => ToFrameIff(g, active);
    case Qualified(q, field, ql) =>
      AccessIff(q, READ, active);
      AccessFromIff(field, act, ql);
  }

  /* What a variable is at run time: the static chain is followed through the
     links that the frames hold. */

  // Runtime frame id is an instance of f, linked to instances of its parents.
  ghost predicate Linked(heap: map<nat, M.Vars>, f: Frame, id: nat)
    requires f.Chained()
    decreases f.depth
  {
    && id in heap
    && (f.parent != null ==>
          var i := f.ParentIndex();
          i in heap[id] && heap[id][i].FrameRef? && Linked(heap, f.parent, heap[id][i].id))
  }

  ghost function Enclosing(heap: map<nat, M.Vars>, f: Frame, id: nat, dest: Frame): (r: nat)
    requires f.Chained() && Linked(heap, f, id) && dest in Chain(f)
    ensures r in heap
    decreases f.depth
  {
    if dest == f then id else assert dest in Chain(f.parent); Enclosing(heap, f.parent, heap[id][f.ParentIndex()].id, dest)
  }

  ghost function Read(a: Access, heap: map<nat, M.Vars>, f: Frame, id: nat): Option<M.Value>
    requires Sensible(a) && f.Chained()
  {
    match a
    case Local(level, offset) =>
      if Linked(heap, f, id) && level in Chain(f) && offset in heap[Enclosing(heap, f, id, level)]
      then Some(heap[Enclosing(heap, f, id, level)][offset]) else None
    case FrameOf(g) => if Linked(heap, f, id) && g in Chain(f) then Some(M.FrameRef(Enclosing(heap, f, id, g))) else None
    case Qualified(q, field, ql) =>
      var r := Read(q, heap, f, id);
      if r.Some? && r.value.FrameRef? then Read(field, heap, ql, r.value.id) else None
  }

  // The heap after value v is written.
  ghost function Written(a: Access, heap: map<nat, M.Vars>, f: Frame, id: nat, v: M.Value): Option<map<nat, M.Vars>>
    requires Sensible(a) && f.Chained()
  {
    match a
    case Local(level, offset) =>
      if Linked(heap, f, id) && level in Chain(f)
      then var e := Enclosing(heap, f, id, level); Some(heap[e := heap[e][offset := v]]) else None
    case FrameOf(_) => None
    case Qualified(q, field, ql) =>
      var r := Read(q, heap, f, id);
      if r.Some? && r.value.FrameRef? then Written(field, heap, ql, r.value.id, v) else None
  }

  /* Correctness of the code. */

  // The code ran, leaving this stack and this heap.
  ghost predicate Leaves(code: Option<seq<M.Instr>>, o: M.Oracle, s: M.State, stack: seq<M.Value>, heap: map<nat, M.Vars>) {
    code.Some? && M.Exec(code.value, o, s) == Some(M.State(s.pc + |code.value|, stack, heap, s.active, s.trace))
  }

  lemma LeavesThen(a: Option<seq<M.Instr>>, b: Option<seq<M.Instr>>, o: M.Oracle, s: M.State,
                   stack: seq<M.Value>, heap: map<nat, M.Vars>, stack': seq<M.Value>, heap': map<nat, M.Vars>)
    requires Leaves(a, o, s, stack, heap)
    requires Leaves(b, o, M.State(s.pc + |a.value|, stack, heap, s.active, s.trace), stack', heap')
    ensures Leaves(Then(a, b), o, s, stack', heap')
  {
    hide M.Exec;
    M.ExecConcat(a.value, b.value, o, s);
  }

  lemma FieldPushLeaves(i: nat, o: M.Oracle, s: M.State, base: seq<M.Value>, id: nat)
    requires s.stack == base + [M.FrameRef(id)] && id in s.heap && i in s.heap[id]
    ensures Leaves(Some([M.FieldPush(i)]), o, s, base + [s.heap[id][i]], s.heap)
  {
    M.ExecOne(M.FieldPush(i), o, s);
    assert M.Below(s) == base;
  }

  lemma {:induction false} WalkLeaves(dest: Frame, top: Frame, o: M.Oracle, s: M.State, base: seq<M.Value>, id: nat)
    requires top.Chained() && Linked(s.heap, top, id) && dest in Chain(top)
    requires s.stack == base + [M.FrameRef(id)]
    ensures Leaves(Walk(dest, top), o, s, base + [M.FrameRef(Enclosing(s.heap, top, id, dest))], s.heap)
    decreases top.depth
  {
    hide Leaves;
    if dest == top {
      NothingLeaves(o, s);
    } else {
      var i := top.ParentIndex();
      var up := s.heap[id][i].id;
      FieldPushLeaves(i, o, s, base, id);
      var t := M.State(s.pc + 1, base + [M.FrameRef(up)], s.heap, s.active, s.trace);
      WalkLeaves(dest, top.parent, o, t, base, up);
      WalkIff(dest, top.parent);
      LeavesThen(Some([M.FieldPush(i)]), Walk(dest, top.parent), o, s, t.stack, s.heap,
                 base + [M.FrameRef(Enclosing(s.heap, top, id, dest))], s.heap);
    }
  }

  /** The null frame is pushed as null, or put in place of the frame on the stack. */
  lemma NullLeaves(active: Frame, top: Frame?, o: M.Oracle, s: M.State, base: seq<M.Value>, v: M.Value)
    requires active.Chained() && (top != null ==> top.Chained())
    ensures Leaves(ToFrame(null, active), o, s, s.stack + [M.Null], s.heap)
    ensures s.stack == base + [v] ==> Leaves(FromTop(null, top), o, s, base + [M.Null], s.heap)
  {
    M.ExecOne(M.ConstPush(M.Null), o, s);
    if s.stack == base + [v] {
      var t := M.State(s.pc + 1, base, s.heap, s.active, s.trace);
      M.ExecOne(M.Pop, o, s);
      assert M.Below(s) == base;
      M.ExecOne(M.ConstPush(M.Null), o, t);
      assert [M.Pop, M.ConstPush(M.Null)] == [M.Pop] + [M.ConstPush(M.Null)];
      M.ExecConcat([M.Pop], [M.ConstPush(M.Null)], o, s);
    }
  }

  lemma NothingLeaves(o: M.Oracle, s: M.State)
    ensures Leaves(Some([]), o, s, s.stack, s.heap)
  {
  }

  /** The code for a frame on the static chain pushes that ancestor's runtime frame. */
  lemma ToFrameLeaves(f: Frame, active: Frame, o: M.Oracle, s: M.State)
    requires active.Chained() && Linked(s.heap, active, s.active) && f in Chain(active)
    ensures Leaves(ToFrame(f, active), o, s, s.stack + [M.FrameRef(Enclosing(s.heap, active, s.active, f))], s.heap)
  {
    if f == active {
      M.ExecOne(M.PushClosure, o, s);
    } else {
      var i := active.ParentIndex();
      var up := s.heap[s.active][i].id;
      M.ExecOne(M.VarPush(i), o, s);
      var t := M.State(s.pc + 1, s.stack + [M.FrameRef(up)], s.heap, s.active, s.trace);
      WalkLeaves(f, active.parent, o, t, s.stack, up);
      LeavesThen(Some([M.VarPush(i)]), FromTop(f, active.parent), o, s, t.stack, s.heap,
                 s.stack + [M.FrameRef(Enclosing(s.heap, active, s.active, f))], s.heap);
    }
  }

  /** Reading from a frame on the stack replaces it by the value. */
  lemma {:induction false} ReadFromCorrect(a: Access, top: Frame, o: M.Oracle, s: M.State, base: seq<M.Value>, id: nat)
    requires Sensible(a) && top.Chained() && s.stack == base + [M.FrameRef(id)] && Read(a, s.heap, top, id).Some?
    ensures Leaves(AccessCodeFrom(a, READ, top), o, s, base + [Read(a, s.heap, top, id).value], s.heap)
    decreases a
  {
    hide Leaves, Linked, Enclosing, Walk;
    match a
    case Local(level, offset) =>
      var e := Enclosing(s.heap, top, id, level);
      WalkLeaves(level, top, o, s, base, id);
      WalkIff(level, top);
      var t := M.State(s.pc + |Walk(level, top).value|, base + [M.FrameRef(e)], s.heap, s.active, s.trace);
      FieldPushLeaves(offset, o, t, base, e);
      LeavesThen(Walk(level, top), Some([M.FieldPush(offset)]), o, s, t.stack, s.heap, base + [s.heap[e][offset]], s.heap);
    case FrameOf(f) =>
      WalkLeaves(f, top, o, s, base, id);
    case Qualified(q, field, ql) =>
      var r := Read(q, s.heap, top, id).value.id;
      ReadFromCorrect(q, top, o, s, base, id);
      LeavesSome(AccessCodeFrom(q, READ, top), o, s, base + [M.FrameRef(r)], s.heap);
      var t := M.State(s.pc + |AccessCodeFrom(q, READ, top).value|, base + [M.FrameRef(r)], s.heap, s.active, s.trace);
      ReadFromCorrect(field, ql, o, t, base, r);
      LeavesThen(AccessCodeFrom(q, READ, top), AccessCodeFrom(field, READ, ql), o, s, t.stack, s.heap,
                 base + [Read(a, s.heap, top, id).value], s.heap);
  }

  lemma LeavesSome(code: Option<seq<M.Instr>>, o: M.Oracle, s: M.State, stack: seq<M.Value>, heap: map<nat, M.Vars>)
    requires Leaves(code, o, s, stack, heap)
    ensures code.Some?
  {
  }

  /** Reading a variable pushes its value, from any nesting depth. */
  lemma {:induction false} ReadCorrect(a: Access, active: Frame, o: M.Oracle, s: M.State)
    requires Sensible(a) && active.Chained() && Read(a, s.heap, active, s.active).Some?
    ensures Leaves(AccessCode(a, READ, active), o, s, s.stack + [Read(a, s.heap, active, s.active).value], s.heap)
    decreases a
  {
    hide Leaves, Linked, Enclosing, ToFrame;
    match a
    case Local(level, offset) =>
      if level == active {
        VarPushLeaves(offset, active, o, s);
      } else {
        var e := Enclosing(s.heap, active, s.active, level);
        ToFrameLeaves(level, active, o, s);
        ToFrameIff(level, active);
        var t := M.State(s.pc + |ToFrame(level, active).value|, s.stack + [M.FrameRef(e)], s.heap, s.active, s.trace);
        FieldPushLeaves(offset, o, t, s.stack, e);
        LeavesThen(ToFrame(level, active), Some([M.FieldPush(offset)]), o, s, t.stack, s.heap,
                   s.stack + [s.heap[e][offset]], s.heap);
      }
    case FrameOf(f) =>
      ToFrameLeaves(f, active, o, s);
    case Qualified(q, field, ql) =>
      var r := Read(q, s.heap, active, s.active).value.id;
      ReadCorrect(q, active, o, s);
      LeavesSome(AccessCode(q, READ, active), o, s, s.stack + [M.FrameRef(r)], s.heap);
      var t := M.State(s.pc + |AccessCode(q, READ, active).value|, s.stack + [M.FrameRef(r)], s.heap, s.active, s.trace);
      ReadFromCorrect(field, ql, o, t, s.stack, r);
      LeavesThen(AccessCode(q, READ, active), AccessCodeFrom(field, READ, ql), o, s, t.stack, s.heap,
                 s.stack + [Read(a, s.heap, active, s.active).value], s.heap);
  }

  lemma VarPushLeaves(offset: nat, active: Frame, o: M.Oracle, s: M.State)
    requires active.Chained() && Read(Local(active, offset), s.heap, active, s.active).Some?
    ensures Leaves(Some([M.VarPush(offset)]), o, s, s.stack + [Read(Local(active, offset), s.heap, active, s.active).value], s.heap)
  {
    M.ExecOne(M.VarPush(offset), o, s);
  }

  lemma FieldSaveLeaves(i: nat, o: M.Oracle, s: M.State, base: seq<M.Value>, v: M.Value, id: nat)
    requires s.stack == base + [v] + [M.FrameRef(id)] && id in s.heap
    ensures Leaves(Some([M.FieldSave(i)]), o, s, base + [v], s.heap[id := s.heap[id][i := v]])
  {
    M.ExecOne(M.FieldSave(i), o, s);
    assert M.Below(s) == base + [v];
    assert s.stack[|s.stack| - 2] == v;
  }

  lemma VarSaveLeaves(offset: nat, active: Frame, o: M.Oracle, s: M.State, base: seq<M.Value>, v: M.Value)
    requires active.Chained() && s.stack == base + [v] && Written(Local(active, offset), s.heap, active, s.active, v).Some?
    ensures Leaves(Some([M.VarSave(offset)]), o, s, base + [v], Written(Local(active, offset), s.heap, active, s.active, v).value)
  {
    M.ExecOne(M.VarSave(offset), o, s);
    assert M.Top(s) == v;
  }

  lemma {:induction false} WriteFromCorrect(a: Access, top: Frame, o: M.Oracle, s: M.State, base: seq<M.Value>, v: M.Value, id: nat)
    requires Sensible(a) && top.Chained() && s.stack == base + [v] + [M.FrameRef(id)] && Written(a, s.heap, top, id, v).Some?
    ensures Leaves(AccessCodeFrom(a, WRITE, top), o, s, base + [v], Written(a, s.heap, top, id, v).value)
    decreases a
  {
    hide Leaves, Linked, Enclosing, Walk;
    match a
    case Local(level, offset) =>
      var e := Enclosing(s.heap, top, id, level);
      WalkLeaves(level, top, o, s, base + [v], id);
      WalkIff(level, top);
      var t := M.State(s.pc + |Walk(level, top).value|, base + [v] + [M.FrameRef(e)], s.heap, s.active, s.trace);
      FieldSaveLeaves(offset, o, t, base, v, e);
      LeavesThen(Walk(level, top), Some([M.FieldSave(offset)]), o, s, t.stack, s.heap,
                 base + [v], s.heap[e := s.heap[e][offset := v]]);
    case Qualified(q, field, ql) =>
      var r := Read(q, s.heap, top, id).value.id;
      ReadFromCorrect(q, top, o, s, base + [v], id);
      LeavesSome(AccessCodeFrom(q, READ, top), o, s, base + [v] + [M.FrameRef(r)], s.heap);
      var t := M.State(s.pc + |AccessCodeFrom(q, READ, top).value|, base + [v] + [M.FrameRef(r)], s.heap, s.active, s.trace);
      WriteFromCorrect(field, ql, o, t, base, v, r);
      LeavesThen(AccessCodeFrom(q, READ, top), AccessCodeFrom(field, WRITE, ql), o, s, t.stack, s.heap,
                 base + [v], Written(a, s.heap, top, id, v).value);
  }

  /** Writing a variable stores the value on the stack in it, in no other, and
      leaves the value on the stack. */
  lemma {:induction false} WriteCorrect(a: Access, active: Frame, o: M.Oracle, s: M.State, base: seq<M.Value>, v: M.Value)
    requires Sensible(a) && active.Chained() && s.stack == base + [v] && Written(a, s.heap, active, s.active, v).Some?
    ensures Leaves(AccessCode(a, WRITE, active), o, s, s.stack, Written(a, s.heap, active, s.active, v).value)
  {
    hide Leaves, Linked, Enclosing, ToFrame;
    match a
    case Local(level, offset) =>
      if level == active {
        VarSaveLeaves(offset, active, o, s, base, v);
      } else {
        var e := Enclosing(s.heap, active, s.active, level);
        ToFrameLeaves(level, active, o, s);
        ToFrameIff(level, active);
        var t := M.State(s.pc + |ToFrame(level, active).value|, s.stack + [M.FrameRef(e)], s.heap, s.active, s.trace);
        FieldSaveLeaves(offset, o, t, base, v, e);
        LeavesThen(ToFrame(level, active), Some([M.FieldSave(offset)]), o, s, t.stack, s.heap,
                   s.stack, s.heap[e := s.heap[e][offset := v]]);
      }
    case Qualified(q, field, ql) =>
      var r := Read(q, s.heap, active, s.active).value.id;
      ReadCorrect(q, active, o, s);
      LeavesSome(AccessCode(q, READ, active), o, s, s.stack + [M.FrameRef(r)], s.heap);
      var t := M.State(s.pc + |AccessCode(q, READ, active).value|, s.stack + [M.FrameRef(r)], s.heap, s.active, s.trace);
      WriteFromCorrect(field, ql, o, t, base, v, r);
      LeavesThen(AccessCode(q, READ, active), AccessCodeFrom(field, WRITE, ql), o, s, t.stack, s.heap,
                 s.stack, Written(a, s.heap, active, s.active, v).value);
  }

  /* In the running program. */

  lemma {:induction false} WalkStraight(dest: Frame?, top: Frame?)
    requires top != null ==> top.Chained()
    ensures var code := FromTop(dest, top); code.Some? ==> M.Straight(code.value)
    decreases if top == null then 0 else top.depth + 1
  {
    if dest != null && top != null && top != dest {
      WalkStraight(dest, top.parent);
    }
  }

  lemma ToFrameStraight(dest: Frame?, active: Frame)
    requires active.Chained()
    ensures var code := ToFrame(dest, active); code.Some? ==> M.Straight(code.value)
  {
    WalkStraight(dest, active.parent);
  }

  lemma {:induction false} FromStraight(a: Access, act: Action, top: Frame)
    requires Sensible(a) && top.Chained()
    ensures var code := AccessCodeFrom(a, act, top); code.Some? ==> M.Straight(code.value)
    decreases a
  {
    hide FromTop;
    match a
    case Local(level, _) => WalkStraight(level, top);
    case FrameOf(f) => WalkStraight(f, top);
    case Qualified(q, field, ql) =>
      FromStraight(q, READ, top);
      FromStraight(field, act, ql);
  }

  lemma {:induction false} AccessStraight(a: Access, act: Action, active: Frame)
    requires Sensible(a) && active.Chained()
    ensures var code := AccessCode(a, act, active); code.Some? ==> M.Straight(code.value)
    decreases a
  {
    hide ToFrame, AccessCodeFrom;
    match a
    case Local(level, _) => ToFrameStraight(level, active);
    case FrameOf(f) => ToFrameStraight(f, active);
    case Qualified(q, field, ql) =>
      AccessStraight(q, READ, active);
      FromStraight(field, act, ql);
  }

  lemma LeavesRuns(p: seq<M.Instr>, code: Option<seq<M.Instr>>, o: M.Oracle, s: M.State, stack: seq<M.Value>, heap: map<nat, M.Vars>)
    requires Leaves(code, o, s, stack, heap) && M.Straight(code.value)
    requires s.pc + |code.value| <= |p| && p[s.pc..s.pc + |code.value|] == code.value
    ensures M.Reaches(p, o, s, M.State(s.pc + |code.value|, stack, heap, s.active, s.trace))
  {
    hide M.Exec, M.Reaches;
    M.ExecRuns(p, o, s, code.value);
  }

  /** The code to read a variable, wherever it stands in a program, goes on after
      it with the variable's value pushed. */
  lemma ReadRuns(p: seq<M.Instr>, a: Access, active: Frame, o: M.Oracle, s: M.State)
    requires Sensible(a) && active.Chained() && Read(a, s.heap, active, s.active).Some?
    requires var code := AccessCode(a, READ, active);
             code.Some? ==> s.pc + |code.value| <= |p| && p[s.pc..s.pc + |code.value|] == code.value
    ensures var code := AccessCode(a, READ, active);
            && code.Some?
            && M.Reaches(p, o, s, M.State(s.pc + |code.value|, s.stack + [Read(a, s.heap, active, s.active).value],
                                          s.heap, s.active, s.trace))
  {
    hide AccessCode, Leaves, Read, M.Reaches, M.Straight;
    ReadCorrect(a, active, o, s);
    LeavesSome(AccessCode(a, READ, active), o, s, s.stack + [Read(a, s.heap, active, s.active).value], s.heap);
    AccessStraight(a, READ, active);
    LeavesRuns(p, AccessCode(a, READ, active), o, s, s.stack + [Read(a, s.heap, active, s.active).value], s.heap);
  }

  /** The code to write a variable goes on after it with the variable changed. */
  lemma WriteRuns(p: seq<M.Instr>, a: Access, active: Frame, o: M.Oracle, s: M.State, base: seq<M.Value>, v: M.Value)
    requires Sensible(a) && active.Chained() && s.stack == base + [v] && Written(a, s.heap, active, s.active, v).Some?
    requires var code := AccessCode(a, WRITE, active);
             code.Some? ==> s.pc + |code.value| <= |p| && p[s.pc..s.pc + |code.value|] == code.value
    ensures var code := AccessCode(a, WRITE, active);
            && code.Some?
            && M.Reaches(p, o, s, M.State(s.pc + |code.value|, s.stack, Written(a, s.heap, active, s.active, v).value,
                                          s.active, s.trace))
  {
    hide AccessCode, Leaves, Written, M.Reaches, M.Straight;
    var heap := Written(a, s.heap, active, s.active, v).value;
    WriteCorrect(a, active, o, s, base, v);
    LeavesSome(AccessCode(a, WRITE, active), o, s, s.stack, heap);
    AccessStraight(a, WRITE, active);
    LeavesRuns(p, AccessCode(a, WRITE, active), o, s, s.stack, heap);
  }

  // Every runtime frame on the chain is an instance of its own level only.
  ghost predicate Instances(heap: map<nat, M.Vars>, f: Frame, id: nat, levels: map<nat, Frame>)
    requires f.Chained() && Linked(heap, f, id)
    decreases f.depth
  {
    && id in levels && levels[id] == f
    && (f.parent != null ==> Instances(heap, f.parent, heap[id][f.ParentIndex()].id, levels))
  }

  /** What is written is what is then read, since a variable never shares its
      index with the link of its frame. */
  lemma WriteThenRead(level: Frame, offset: nat, heap: map<nat, M.Vars>, active: Frame, id: nat, v: M.Value, levels: map<nat, Frame>)
    requires active.Chained() && level.Chained() && Written(Local(level, offset), heap, active, id, v).Some?
    requires Instances(heap, active, id, levels) && offset != level.ParentIndex()
    ensures Read(Local(level, offset), Written(Local(level, offset), heap, active, id, v).value, active, id) == Some(v)
  {
    var e := Enclosing(heap, active, id, level);
    EnclosingLevel(heap, active, id, level, levels);
    LinksKept(heap, active, id, level, e, offset, v, levels);
  }

  lemma {:induction false} EnclosingLevel(heap: map<nat, M.Vars>, f: Frame, id: nat, dest: Frame, levels: map<nat, Frame>)
    requires f.Chained() && Linked(heap, f, id) && dest in Chain(f) && Instances(heap, f, id, levels)
    ensures Enclosing(heap, f, id, dest) in levels && levels[Enclosing(heap, f, id, dest)] == dest
    decreases f.depth
  {
    if dest != f {
      EnclosingLevel(heap, f.parent, heap[id][f.ParentIndex()].id, dest, levels);
    }
  }

  lemma {:induction false} LinksKept(heap: map<nat, M.Vars>, f: Frame, id: nat, dest: Frame, e: nat, offset: nat, v: M.Value, levels: map<nat, Frame>)
    requires f.Chained() && Linked(heap, f, id) && dest in Chain(f) && e in heap
    requires Instances(heap, f, id, levels) && e in levels && offset != levels[e].ParentIndex()
    ensures var heap' := heap[e := heap[e][offset := v]];
            Linked(heap', f, id) && Enclosing(heap', f, id, dest) == Enclosing(heap, f, id, dest)
    decreases f.depth
  {
    if f.parent != null {
      LinksKept(heap, f.parent, heap[id][f.ParentIndex()].id, if dest != f then dest else f.parent, e, offset, v, levels);
    }
  }
}
