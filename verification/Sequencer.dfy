/** Translating the arguments of a matched call: side effects happen in the
    order in which the arguments were written, whatever slots they fill. */
module Sequencers {
  import opened Options
  import opened Applications
  import M = Machine

  /** The sequencer's table of arguments, the temporaries made so far (None for
      an argument evaluated directly onto the stack), the code so far, and the
      first local variable that is still free. */
  datatype Tr = Tr(table: seq<Option<Arg>>, temps: seq<Option<nat>>, code: seq<M.Instr>, next: nat)

  // Make a temporary for the next argument; None if there is no such argument.
  function Alias(t: Tr): Option<Tr> {
    var n := |t.temps|;
    if n < |t.table| && t.table[n].Some? && t.table[n].value.Sequenced? then
      Some(t.(temps := t.temps + [Some(t.next)],
              code := t.code + [M.Eval(t.table[n].value.val), M.VarSave(t.next), M.Pop],
              next := t.next + 1))
    else None
  }

  function Advance(t: Tr, i: nat): (r: Option<Tr>)
    ensures r.Some? ==> r.value.table == t.table
    decreases i - |t.temps|
  {
    if |t.temps| >= i then Some(t)
    else
      var a := Alias(t);
      if a.None? then None else Advance(a.value, i)
  }

  // Translate argument i, which fills the slot being translated.
  function TransSequenced(t: Tr, i: nat): (r: Option<Tr>)
    ensures r.Some? ==> r.value.table == t.table
  {
    if i < |t.temps| then
      if t.temps[i].Some? then Some(t.(code := t.code + [M.VarPush(t.temps[i].value)])) else None
    else
      var a := Advance(t, i);
      if a.None? || !(i < |t.table| && t.table[i].Some? && t.table[i].value.Sequenced?) then None
      else Some(a.value.(code := a.value.code + [M.Eval(t.table[i].value.val)], temps := a.value.temps + [None]))
  }

  function TransSlot(t: Tr, a: Arg): (r: Option<Tr>)
    ensures r.Some? ==> r.value.table == t.table
  {
    match a
    case Sequenced(_, _, i) => TransSequenced(t, i)
    case DefaultArg(_) => Some(t.(code := t.code + [M.PushDefault]))
    case Plain(v, _) => Some(t.(code := t.code + [M.Eval(v)]))
  }

  function TransSlots(t: Tr, slots: seq<Arg>): (r: Option<Tr>)
    ensures r.Some? ==> r.value.table == t.table
  {
    if slots == [] then Some(t)
    else
      var init := TransSlots(t, slots[..|slots| - 1]);
      if init.None? then None else TransSlot(init.value, slots[|slots| - 1])
  }

  // Every slot of a complete match, in the order of translation.
  function ArgList(s: AppState): seq<Arg>
    requires forall k :: 0 <= k < |s.args| ==> s.args[k].Some?
  {
    FormalArgs(s) + s.inits + if s.restArg.Some? then [s.restArg.value] else []
  }

  function FormalArgs(s: AppState): seq<Arg>
    requires forall k :: 0 <= k < |s.args| ==> s.args[k].Some?
  {
    seq(|s.args|, k requires 0 <= k < |s.args| => s.args[k].value)
  }

  // The number of cells is pushed and the array maker called.
  function MakeRest(s: AppState): seq<M.Instr> {
    [M.IntPush(|s.inits|), M.Call(if s.restArg.Some? then M.NewAppendedArray else M.NewInitializedArray)]
  }

  function TransArgs(app: App, next: nat): Option<seq<M.Instr>>
    requires app.fn.Function? && forall k :: 0 <= k < |app.st.args| ==> app.st.args[k].Some?
  {
    var t := TransSlots(Tr(app.st.sequencer, [], [], next), ArgList(app.st));
    if t.None? then None
    else Some(t.value.code + if app.fn.sig.rest.Some? || app.fn.sig.isOpen then MakeRest(app.st) else [])
  }

  /** The translation as the original does it, growing the temporaries and the
      program as it goes; ok is false when an assertion of the original fails. */
  class Translator {
    const table: seq<Option<Arg>>
    var temps: seq<Option<nat>>
    var code: seq<M.Instr>
    var next: nat

    function Value(): Tr
      reads this
    {
      Tr(table, temps, code, next)
    }

    constructor (table: seq<Option<Arg>>, next: nat)
      ensures Value() == Tr(table, [], [], next)
    {
      this.table, this.next := table, next;
      temps, code := [], [];
    }

    // tempExp: evaluate into a new local variable, and drop the value.
    method MakeAlias() returns (ok: bool)
      modifies this
      ensures var r := Alias(old(Value())); ok == r.Some? && Value() == if ok then r.value else old(Value())
    {
      var n := |temps|;
      if !(n < |table| && table[n].Some? && table[n].value.Sequenced?) {
        return false;
      }
      var local := next;
      next := next + 1;
      code := code + [M.Eval(table[n].value.val)] + [M.VarSave(local)] + [M.Pop];
      temps := temps + [Some(local)];
      return true;
    }

    method AdvanceTo(i: nat) returns (ok: bool)
      modifies this
      ensures var r := Advance(old(Value()), i); ok == r.Some? && (ok ==> Value() == r.value)
    {
      while |temps| < i
        invariant Advance(old(Value()), i) == Advance(Value(), i)
        decreases i - |temps|
      {
        ok := MakeAlias();
        if !ok {
          return;
        }
      }
      return true;
    }

    method TranslateSlot(a: Arg) returns (ok: bool)
      modifies this
      ensures var r := TransSlot(old(Value()), a); ok == r.Some? && (ok ==> Value() == r.value)
    {
      match a {
        case Sequenced(_, _, i) =>
          if i < |temps| {
            if temps[i].None? {
              return false;
            }
            code := code + [M.VarPush(temps[i].value)];
          } else {
            ok := AdvanceTo(i);
            if !ok || !(i < |table| && table[i].Some? && table[i].value.Sequenced?) {
              return false;
            }
            code := code + [M.Eval(table[i].value.val)];
            temps := temps + [None];
          }
        case DefaultArg(_) =>
          code := code + [M.PushDefault];
        case Plain(v, _) =>
          code := code + [M.Eval(v)];
      }
      return true;
    }
  }

  /** application::transArgs */
  method TranslateArgs(app: App, next: nat) returns (code: Option<seq<M.Instr>>)
    requires app.fn.Function? && forall k :: 0 <= k < |app.st.args| ==> app.st.args[k].Some?
    ensures code == TransArgs(app, next)
  {
    var tr := new Translator(app.st.sequencer, next);
    var slots := ArgList(app.st);
    ghost var start := tr.Value();
    var i := 0;
    while i < |slots|
      invariant 0 <= i <= |slots|
      invariant TransSlots(start, slots[..i]) == Some(tr.Value())
    {
      assert slots[..i + 1][..i] == slots[..i];
      var ok := tr.TranslateSlot(slots[i]);
      if !ok {
        SlotFails(start, slots, i);
        return None;
      }
      i := i + 1;
    }
    assert slots[..i] == slots;
    if app.fn.sig.rest.Some? || app.fn.sig.isOpen {
      return Some(tr.code + MakeRest(app.st));
    }
    return Some(tr.code + []);
  }

  lemma {:induction false} SlotFails(t: Tr, slots: seq<Arg>, i: nat)
    requires i < |slots| && TransSlots(t, slots[..i + 1]).None?
    ensures TransSlots(t, slots).None?
  {
    if i + 1 < |slots| {
      assert slots[..|slots| - 1][..i + 1] == slots[..i + 1];
      SlotFails(t, slots[..|slots| - 1], i);
    } else {
      assert slots[..i + 1] == slots;
    }
  }
}
