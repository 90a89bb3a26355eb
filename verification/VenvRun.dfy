/** Whole runs of the environment.  Every operation but ending a scope keeps the
    table from filling up; ending a scope leaves tombs, which growth does not
    count, so a run can be carried out when the cells suffice. */
module VenvRuns {
  import opened Options
  import opened Types
  import opened CoreVenvs
  import opened Scopes
  import opened Venvs

  /** A stack of scopes with the size of the table and a bound on the cells in
      use, by entries or tombs. */
  datatype Track = Track(m: Stack, used: nat, capacity: nat)

  function Least(a: nat, b: nat): nat { if a < b then a else b }

  // One operation; None if a scope is closed that was never begun, or a new key
  // might find no empty cell.
  function Tick(tr: Track, op: Op): Option<Track> {
    var next := Step(tr.m, op);
    if next.None? then None
    else
      match op
      case Enter(name, ent) =>
        var live := |tr.m.current.contents|;
        if CanonKey(name, ent.t) in tr.m.current.contents then Some(tr.(m := next.value))
        else if tr.used >= tr.capacity then None
        else if 2 * (live + 1) > tr.capacity then Some(Track(next.value, Least(live, tr.used) + 1, 4 * tr.capacity))
        else Some(Track(next.value, tr.used + 1, tr.capacity))
      case End => Some(Track(next.value, if Clears(tr.m) then 0 else tr.used, tr.capacity))
      case _ => Some(tr.(m := next.value))
  }

  /** The whole run: the condition under which an environment can carry it out. */
  function Tracked(tr: Track, ops: seq<Op>): Option<Track> {
    if ops == [] then Some(tr)
    else
      var r := Tracked(tr, ops[..|ops| - 1]);
      if r.None? then None else Tick(r.value, ops[|ops| - 1])
  }

  lemma {:induction false} TrackedRuns(tr: Track, ops: seq<Op>)
    requires Tracked(tr, ops).Some?
    ensures Run(tr.m, ops) == Some(Tracked(tr, ops).value.m)
  {
    if ops != [] {
      TrackedRuns(tr, ops[..|ops| - 1]);
    }
  }

  lemma {:induction false} TrackedConcat(tr: Track, a: seq<Op>, b: seq<Op>)
    ensures Tracked(tr, a + b) == var r := Tracked(tr, a); if r.None? then None else Tracked(r.value, b)
  {
    if b == [] {
      assert a + b == a;
    } else {
      assert (a + b)[..|a + b| - 1] == a + b[..|b| - 1];
      TrackedConcat(tr, a, b[..|b| - 1]);
    }
  }

  lemma TrackedOne(tr: Track, op: Op)
    ensures Tracked(tr, [op]) == Tick(tr, op)
  {
    assert [op][..0] == [];
  }

  lemma {:induction false} TrackedPrefix(tr: Track, ops: seq<Op>, n: nat)
    requires n <= |ops| && Tracked(tr, ops).Some?
    ensures Tracked(tr, ops[..n]).Some?
  {
    if n == |ops| {
      assert ops[..n] == ops;
    } else {
      assert ops[..|ops| - 1][..n] == ops[..n];
      TrackedPrefix(tr, ops[..|ops| - 1], n);
    }
  }

  // What an environment is to its track.
  ghost predicate Follows(v: Venv, tr: Track)
    reads v, v.core, v.core.table
  {
    v.Valid() && v.Abstract() == tr.m && v.core.capacity == tr.capacity && Used(v.core.table[..]) <= tr.used
  }

  // Where an environment is now.
  ghost function Here(v: Venv): Track
    reads v, v.core, v.core.table
  {
    Track(v.Abstract(), Used(v.core.table[..]), v.core.capacity)
  }

  /** One operation on the environment follows one tick of the track. */
  method Do(v: Venv, op: Op, ghost tr: Track)
    requires Follows(v, tr) && Tick(tr, op).Some?
    modifies v, v.core, v.core.table
    ensures Follows(v, Tick(tr, op).value)
    ensures v.core.table == old(v.core.table) || fresh(v.core.table)
  {
    match op {
      case Enter(name, ent) => DoEnter(v, name, ent, tr);
      case Begin => v.BeginScope();
      case End => DoEnd(v, tr);
      case Collapse => v.CollapseScope();
    }
  }

  method DoEnter(v: Venv, name: Symbol, ent: VarEntry, ghost tr: Track)
    requires Follows(v, tr) && Tick(tr, Enter(name, ent)).Some?
    modifies v, v.core, v.core.table
    ensures Follows(v, Tick(tr, Enter(name, ent)).value)
    ensures v.core.table == old(v.core.table) || fresh(v.core.table)
  {
    hide Venv.Valid, CanonKey, Entered, Used, Stored, HasEmpty;
    ghost var t, whole := v.core.table[..], v.core.contents;
    CoreIsValid(v);
    UsedRoom(t);
    var _ := EntriesUsed(t, whole, |t|);
    v.Enter(name, ent);
    CoreIsValid(v);
    EnteredContents(tr.m.current, name, ent);
    StoredUsed(t, v.core.table[..], v.core.hash, whole, name, ent);
    if CanonKey(name, ent.t) in whole {
      SameUsed(t, v.core.table[..]);
    }
  }

  method DoEnd(v: Venv, ghost tr: Track)
    requires Follows(v, tr) && Tick(tr, End).Some?
    modifies v, v.core, v.core.table
    ensures Follows(v, Tick(tr, End).value)
    ensures v.core.table == old(v.core.table) || fresh(v.core.table)
  {
    hide Venv.Valid, Used;
    ghost var t := v.core.table[..];
    CoreIsValid(v);
    v.EndScope();
    CoreIsValid(v);
    if Clears(tr.m) {
      NoneUsed(v.core.table[..]);
    } else {
      SameUsed(t, v.core.table[..]);
    }
  }

  lemma CoreIsValid(v: Venv)
    requires v.Valid()
    ensures v.core.table.Length == v.core.capacity > 0 && Represents(v.core.table[..], v.core.contents)
    ensures v.Current().contents == v.core.contents
  {
    v.core.TableRepresents();
  }

  lemma EnteredContents(sc: Scope, name: Symbol, ent: VarEntry)
    ensures Entered(sc, name, ent).contents == sc.contents[CanonKey(name, ent.t) := ent]
  {
  }

  /** Any run that the track allows is carried out by the environment, which
      then stands for what the run makes of the stack of scopes. */
  method RunOps(v: Venv, ops: seq<Op>)
    requires v.Valid() && Tracked(Here(v), ops).Some?
    modifies v, v.core, v.core.table
    ensures Follows(v, Tracked(old(Here(v)), ops).value)
    ensures v.core.table == old(v.core.table) || fresh(v.core.table)
    ensures Some(v.Abstract()) == Run(old(v.Abstract()), ops)
  {
    hide Venv.Valid, Tick, Used;
    ghost var start := Here(v);
    var k := 0;
    while k < |ops|
      invariant 0 <= k <= |ops|
      invariant Tracked(start, ops[..k]).Some? && Follows(v, Tracked(start, ops[..k]).value)
      invariant v.core.table == old(v.core.table) || fresh(v.core.table)
    {
      TrackedPrefix(start, ops, k + 1);
      assert ops[..k + 1][..k] == ops[..k];
      Do(v, ops[k], Tracked(start, ops[..k]).value);
      k := k + 1;
    }
    assert ops[..k] == ops;
    TrackedRuns(start, ops);
  }

  /** Ending a scope restores the environment as it was when the scope was begun:
      every entry, and the order of every list of types. */
  method RunScope(v: Venv, ops: seq<Op>)
    requires v.Valid() && WellNested(ops) && Tracked(Here(v), [Begin] + ops + [End]).Some?
    modifies v, v.core, v.core.table
    ensures v.Valid() && v.Abstract() == old(v.Abstract())
  {
    EndRestores(v.Abstract(), ops);
    RunOps(v, [Begin] + ops + [End]);
  }

  /** Collapsing it instead keeps what was entered and forgets the scope. */
  method RunCollapsed(v: Venv, ops: seq<Op>)
    requires v.Valid() && WellNested(ops) && Tracked(Here(v), [Begin] + ops + [Collapse]).Some?
    modifies v, v.core, v.core.table
    ensures v.Valid() && v.Abstract().saved == old(v.Abstract()).saved
    ensures var b := old(Stack(v.Abstract().current, v.Abstract().saved + [v.Abstract().current]));
            Run(b, ops).Some? && v.Abstract().current == Run(b, ops).value.current
  {
    CollapseMerges(v.Abstract(), ops);
    RunOps(v, [Begin] + ops + [Collapse]);
  }

  /* Runs that the track allows. */

  function Enters(ops: seq<Op>): nat {
    if ops == [] then 0 else Enters(ops[..|ops| - 1]) + if ops[|ops| - 1].Enter? then 1 else 0
  }

  /** A run for which the cells not in use suffice is allowed. */
  lemma {:induction false} FewEnters(tr: Track, ops: seq<Op>)
    requires NeverBelow(ops) && tr.used + Enters(ops) <= tr.capacity
    ensures Tracked(tr, ops).Some?
    ensures var r := Tracked(tr, ops).value; r.used <= tr.used + Enters(ops) && r.capacity >= tr.capacity
  {
    if ops != [] {
      var init := ops[..|ops| - 1];
      NeverBelowInit(tr.m, ops);
      FewEnters(tr, init);
      TrackedRuns(tr, init);
    }
  }

  // Every scope that the last operation may close was begun.
  lemma NeverBelowInit(m: Stack, ops: seq<Op>)
    requires NeverBelow(ops) && ops != []
    ensures NeverBelow(ops[..|ops| - 1]) && Run(m, ops[..|ops| - 1]).Some?
    ensures Run(m, ops).Some?
  {
    var init := ops[..|ops| - 1];
    assert forall n :: 0 <= n <= |init| ==> init[..n] == ops[..n];
    RunKeepsBelow(m, init);
    RunKeepsBelow(m, ops);
  }

  predicate NoEnds(ops: seq<Op>) {
    forall k :: 0 <= k < |ops| ==> !ops[k].End?
  }

  // Only entries are in use, in at most half the cells.
  predicate HalfFull(tr: Track) {
    tr.used == |tr.m.current.contents| && 2 * tr.used <= tr.capacity && tr.capacity > 0
  }

  /** So is any run, however long, that ends no scope: the table grows in time. */
  lemma {:induction false} NoEndsNeverStuck(tr: Track, ops: seq<Op>)
    requires NeverBelow(ops) && NoEnds(ops) && HalfFull(tr)
    ensures Tracked(tr, ops).Some? && HalfFull(Tracked(tr, ops).value)
  {
    if ops != [] {
      var init := ops[..|ops| - 1];
      NeverBelowInit(tr.m, ops);
      assert forall k :: 0 <= k < |init| ==> init[k] == ops[k];
      NoEndsNeverStuck(tr, init);
      TrackedRuns(tr, init);
      TickHalfFull(Tracked(tr, init).value, ops[|ops| - 1]);
    }
  }

  lemma TickHalfFull(tr: Track, op: Op)
    requires HalfFull(tr) && !op.End? && Step(tr.m, op).Some?
    ensures Tick(tr, op).Some? && HalfFull(Tick(tr, op).value)
  {
    if op.Enter? {
      hide CanonKey, Swap;
      var k, c := CanonKey(op.name, op.ent.t), tr.m.current.contents;
      if k in c {
        assert c[k := op.ent].Keys == c.Keys;
        assert |c[k := op.ent].Keys| == |c[k := op.ent]| && |c.Keys| == |c|;
      } else {
        assert |c[k := op.ent]| == |c| + 1;
      }
    }
  }

  /** A new environment can carry out any run that ends no scope. */
  method RunFromNew(hash: Hash, ops: seq<Op>) returns (v: Venv)
    requires NeverBelow(ops) && NoEnds(ops)
    ensures fresh(v) && v.Valid() && Some(v.Abstract()) == Run(Stack(NOTHING, []), ops)
    ensures HasEmpty(v.core.table[..])
  {
    v := new Venv(hash);
    NoneUsed(v.core.table[..]);
    NoEndsNeverStuck(Here(v), ops);
    ghost var start := Here(v);
    RunOps(v, ops);
    UsedRoom(v.core.table[..]);
    CoreIsValid(v);
  }
}
