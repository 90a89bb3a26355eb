/** A run of the environment that leaves no cell of its table empty.  Growth is
    decided by counting entries, not tombs, so a small table can fill up with
    the tombs of scopes that were ended. */
module TombRun {
  import opened Options
  import opened Types
  import opened CoreVenvs
  import opened Scopes
  import opened Venvs
  import opened VenvRuns

  function Var(n: nat): Symbol { Symbol(n, false) }

  const INT_VAR := VarEntry(0, Primitive(0))

  const ONE_VAR := Entered(NOTHING, Var(0), INT_VAR)

  lemma VarKey(n: nat)
    ensures CanonKey(Var(n), INT_VAR.t) == Key(Var(n), BySig(None))
  {
  }

  // Storing a new key takes its slot if that is free.
  lemma SlotTaken(t: seq<Cell>, t': seq<Cell>, hash: Hash, contents: map<Key, VarEntry>, name: Symbol, ent: VarEntry, p: nat)
    requires |t| > 0 && CanonKey(name, ent.t) !in contents && 2 * (|contents| + 1) <= |t|
    requires p == Probe(hash(CanonKey(name, ent.t)), 0, |t|)
    requires Stored(t, t', hash, contents, name, ent)
    ensures |t'| == |t| && !t'[p].Empty() && forall q :: 0 <= q < |t| && !t[q].Empty() ==> !t'[q].Empty()
  {
    hide CanonKey;
    var h := hash(CanonKey(name, ent.t));
    var d :| FreeAt(t, h, d) && t' == t[Probe(h, d, |t|) := Cell(Some(name), Some(ent))];
    assert d != 0 ==> At(t, h, 0).Filled();
  }

  // The environment with one variable, whose table of four cells has the cells
  // below n in use and no others.
  ghost predicate Filled(v: Venv, n: nat)
    reads v, v.core, v.core.table
  {
    && v.Valid() && v.core.capacity == 4 && v.core.hash == ((k: Key) => k.name.id)
    && v.core.contents == map[Key(Var(0), BySig(None)) := INT_VAR]
    && v.core.table.Length == 4 && Used(v.core.table[..]) <= n
    && forall p :: 0 <= p < n && p < 4 ==> !v.core.table[..][p].Empty()
  }

  // A scope in which variable p is declared, begun and ended.
  method Visit(v: Venv, p: nat)
    requires 0 < p < 4 && Filled(v, p)
    modifies v, v.core, v.core.table
    ensures Filled(v, p + 1) && v.Abstract() == old(v.Abstract())
    ensures v.core.table == old(v.core.table) || fresh(v.core.table)
  {
    hide Venv.Valid, CanonKey, Used, Stored, HasEmpty, Entered, Probe, Represents;
    VarKey(p);
    ghost var m, t, whole := v.Abstract(), v.core.table[..], v.core.contents;
    CoreIsValid(v);
    UsedRoom(t);
    v.BeginScope();
    CoreIsValid(v);
    v.Enter(Var(p), INT_VAR);
    ghost var t' := v.core.table[..];
    CoreIsValid(v);
    EnteredContents(m.current, Var(p), INT_VAR);
    StoredUsed(t, t', v.core.hash, whole, Var(p), INT_VAR);
    SlotOf(p);
    SlotTaken(t, t', v.core.hash, whole, Var(p), INT_VAR, p);
    v.EndScope();
    CoreIsValid(v);
    SameUsed(t', v.core.table[..]);
    assert m.saved + [m.current] != [];
    assert (m.saved + [m.current])[..|m.saved|] == m.saved;
  }

  lemma SlotOf(p: nat)
    requires p < 4
    ensures Probe(p, 0, 4) == p
  {
  }

  /** A global variable and three scopes with one variable each fill the table of
      a new environment. */
  method FillWithTombs() returns (v: Venv)
    ensures fresh(v) && v.Valid() && v.core.contents == map[Key(Var(0), BySig(None)) := INT_VAR]
    ensures v.Abstract() == Stack(ONE_VAR, []) && !HasEmpty(v.core.table[..])
  {
    hide Venv.Valid, CanonKey, Used, Stored, HasEmpty, Entered, Probe, Represents;
    v := new Venv((k: Key) => k.name.id);
    VarKey(0);
    ghost var t := v.core.table[..];
    CoreIsValid(v);
    NoneUsed(t);
    UsedRoom(t);
    v.Enter(Var(0), INT_VAR);
    CoreIsValid(v);
    EnteredContents(NOTHING, Var(0), INT_VAR);
    StoredUsed(t, v.core.table[..], v.core.hash, map[], Var(0), INT_VAR);
    SlotOf(0);
    SlotTaken(t, v.core.table[..], v.core.hash, map[], Var(0), INT_VAR, 0);
    Visit(v, 1);
    Visit(v, 2);
    Visit(v, 3);
    NothingEmpty(v.core.table[..]);
  }

  lemma NothingEmpty(t: seq<Cell>)
    requires forall p :: 0 <= p < |t| ==> !t[p].Empty()
    ensures !HasEmpty(t)
  {
  }

  /** From the environment so reached, the search for any other name never stops. */
  method SearchForever() returns (v: Venv)
    ensures v.Valid() && v.Abstract() == Stack(ONE_VAR, [])
    ensures forall k :: k != Key(Var(0), BySig(None)) ==> !SearchStops(v.core.table[..], v.core.hash, k)
  {
    v := FillWithTombs();
    forall k | k != Key(Var(0), BySig(None))
      ensures !SearchStops(v.core.table[..], v.core.hash, k)
    {
      SearchStopsIff(v.core.table[..], v.core.hash, v.core.contents, k);
    }
  }

  /* The same run, as the track counts it. */

  const NEW := Track(Stack(NOTHING, []), 0, 4)

  function VisitOps(p: nat): seq<Op> {
    [Begin] + [Op.Enter(Var(p), INT_VAR)] + [End]
  }

  const TOMB_RUN := [Op.Enter(Var(0), INT_VAR)] + VisitOps(1) + VisitOps(2) + VisitOps(3)

  lemma VisitTracked(used: nat, p: nat)
    requires used < 4 && 0 < p
    ensures Tracked(Track(Stack(ONE_VAR, []), used, 4), VisitOps(p)) == Some(Track(Stack(ONE_VAR, []), used + 1, 4))
  {
    hide Tracked;
    var tr := Track(Stack(ONE_VAR, []), used, 4);
    var t1 := Track(Stack(ONE_VAR, [ONE_VAR]), used, 4);
    var t2 := Track(Stack(Entered(ONE_VAR, Var(p), INT_VAR), [ONE_VAR]), used + 1, 4);
    VarKey(0);
    VarKey(p);
    hide CanonKey, Swap;
    EnteredContents(NOTHING, Var(0), INT_VAR);
    EnteredContents(ONE_VAR, Var(p), INT_VAR);
    assert [] + [ONE_VAR] == [ONE_VAR] && [ONE_VAR][..0] == [];
    assert ONE_VAR.contents == map[Key(Var(0), BySig(None)) := INT_VAR] && ONE_VAR != NOTHING;
    assert Tick(tr, Begin) == Some(t1);
    assert Tick(t1, Op.Enter(Var(p), INT_VAR)) == Some(t2);
    assert Tick(t2, End) == Some(Track(Stack(ONE_VAR, []), used + 1, 4));
    TrackedOne(tr, Begin);
    TrackedOne(t1, Op.Enter(Var(p), INT_VAR));
    TrackedOne(t2, End);
    TrackedConcat(tr, [Begin], [Op.Enter(Var(p), INT_VAR)]);
    TrackedConcat(tr, [Begin] + [Op.Enter(Var(p), INT_VAR)], [End]);
  }

  /** The track allows this run, and refuses exactly what cannot follow it: a new
      key, for which the search never stops. */
  lemma TrackRefuses(name: Symbol, ent: VarEntry)
    ensures Tracked(NEW, TOMB_RUN) == Some(Track(Stack(ONE_VAR, []), 4, 4))
    ensures Tracked(NEW, TOMB_RUN + [Op.Enter(name, ent)]).None? <==> CanonKey(name, ent.t) != Key(Var(0), BySig(None))
  {
    hide Tracked, VisitOps;
    var one, tr := [Op.Enter(Var(0), INT_VAR)], Track(Stack(ONE_VAR, []), 4, 4);
    VarKey(0);
    TrackedOne(NEW, Op.Enter(Var(0), INT_VAR));
    VisitTracked(1, 1);
    VisitTracked(2, 2);
    VisitTracked(3, 3);
    TrackedConcat(NEW, one, VisitOps(1));
    TrackedConcat(NEW, one + VisitOps(1), VisitOps(2));
    TrackedConcat(NEW, one + VisitOps(1) + VisitOps(2), VisitOps(3));
    EnteredContents(NOTHING, Var(0), INT_VAR);
    TrackedOne(tr, Op.Enter(name, ent));
    TrackedConcat(NEW, TOMB_RUN, [Op.Enter(name, ent)]);
  }
}
