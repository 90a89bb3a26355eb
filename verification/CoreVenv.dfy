/** The hash table at the core of the variable environment: open addressing,
    removed entries replaced by tombs, and growth by a factor of four. */
module CoreVenvs {
  import opened Options
  import opened Types
  import opened Lists
  import opened Remainders

  datatype VarEntry = VarEntry(id: nat, t: Ty)

  /* A variable is identified by its name and signature or, for the special
     names, by its name and full type. */

  datatype Want = BySig(sig: Option<Signature>) | ByType(t: Ty)

  datatype Key = Key(name: Symbol, want: Want)
  {
    predicate Proper() { want.ByType? <==> name.special }
  }

  function KeyFor(name: Symbol, t: Ty): (k: Key)
    ensures k.Proper()
  {
    Key(name, if name.special then ByType(t) else BySig(t.GetSignature()))
  }

  function Canonical(k: Key): Key {
    Key(k.name, match k.want
                case BySig(s) => BySig(CanonOptSig(s))
                case ByType(t) => ByType(Canon(t)))
  }

  function CanonKey(name: Symbol, t: Ty): Key {
    Canonical(KeyFor(name, t))
  }

  lemma CanonKeyIs(name: Symbol, t: Ty)
    ensures CanonKey(name, t) == Canonical(KeyFor(name, t))
  {
  }

  /* The cells of the table. */

  datatype Cell = Cell(name: Option<Symbol>, ent: Option<VarEntry>)
  {
    predicate Empty() { name.None? }
    predicate Filled() { name.Some? && ent.Some? }
    predicate Tomb() { name.Some? && ent.None? }

    predicate Matches(k: Key) {
      && name == Some(k.name)
      && ent.Some?
      && (match k.want
          case BySig(s) => OptSigEquivalent(ent.value.t.GetSignature(), s)
          case ByType(t) => Equivalent(ent.value.t, t))
    }

    function CellKey(): Key
      requires Filled()
    {
      CanonKey(name.value, ent.value.t)
    }
  }

  const EMPTY := Cell(None, None)

  /** The test of the original is equality of canonical keys. */
  lemma MatchesIffSameKey(c: Cell, k: Key)
    requires k.Proper()
    ensures c.Matches(k) <==> c.Filled() && c.CellKey() == Canonical(k)
  {
    if c.Filled() {
      match k.want
      case BySig(s) => OptSigEquivalentIffCanon(c.ent.value.t.GetSignature(), s);
      case ByType(t) => EquivalentIffCanon(c.ent.value.t, t);
    }
  }

  /** Two variables have the same key exactly when they have the same name and, for
      the special names, equivalent types, for all others equivalent signatures or
      none. */
  lemma SameKeyIff(name: Symbol, t: Ty, name': Symbol, t': Ty)
    ensures CanonKey(name, t) == CanonKey(name', t') <==>
            && name == name'
            && if name.special then Equivalent(t, t')
               else if t.Function? then t'.Function? && SigEquivalent(t.sig, t'.sig)
               else !t'.Function?
  {
    EquivalentIffCanon(t, t');
    if t.Function? && t'.Function? {
      SigEquivalentIffCanon(t.sig, t'.sig);
    }
  }

  /* Probing.  The index is masked by the capacity, a power of two. */

  function Probe(h: nat, d: nat, cap: nat): (i: nat)
    requires cap > 0
    ensures i < cap
  {
    (h + d) % cap
  }

  // How far index p is from the slot of hash value h.
  function Dist(h: nat, p: nat, cap: nat): (d: nat)
    requires p < cap
    ensures d < cap
  {
    if p >= h % cap then p - h % cap else p + cap - h % cap
  }

  lemma ProbeDist(h: nat, p: nat, cap: nat)
    requires p < cap
    ensures Probe(h, Dist(h, p, cap), cap) == p
  {
    ModAdd(h, Dist(h, p, cap), cap);
  }

  lemma DistProbe(h: nat, d: nat, cap: nat)
    requires d < cap
    ensures Dist(h, Probe(h, d, cap), cap) == d
  {
    ModAdd(h, d, cap);
  }

  type Hash = Key -> nat

  function At(t: seq<Cell>, h: nat, d: nat): Cell
    requires |t| > 0
  {
    t[Probe(h, d, |t|)]
  }

  ghost predicate HasEmpty(t: seq<Cell>) {
    exists p :: 0 <= p < |t| && t[p].Empty()
  }

  ghost predicate NoTombs(t: seq<Cell>) {
    forall p :: 0 <= p < |t| ==> !t[p].Tomb()
  }

  // No empty cell lies between an entry and the slot of its hash value.
  ghost predicate PathClear(t: seq<Cell>, h: nat, p: nat)
    requires p < |t|
  {
    forall d :: 0 <= d < Dist(h, p, |t|) ==> !At(t, h, d).Empty()
  }

  ghost predicate Clear(t: seq<Cell>, hash: Hash) {
    forall p :: 0 <= p < |t| && t[p].Filled() ==> PathClear(t, hash(t[p].CellKey()), p)
  }

  ghost predicate Unique(t: seq<Cell>) {
    forall p, q :: 0 <= p < q < |t| && t[p].Filled() && t[q].Filled() ==> t[p].CellKey() != t[q].CellKey()
  }

  ghost predicate HoldsKey(t: seq<Cell>, k: Key) {
    exists p :: 0 <= p < |t| && t[p].Filled() && t[p].CellKey() == k
  }

  // The table holds the entries of the map, once each.
  ghost predicate Represents(t: seq<Cell>, contents: map<Key, VarEntry>) {
    && Unique(t)
    && (forall p :: 0 <= p < |t| && t[p].Filled() ==>
          t[p].CellKey() in contents && contents[t[p].CellKey()] == t[p].ent.value)
    && (forall k :: k in contents ==> HoldsKey(t, k))
  }

  ghost predicate WellFormedTable(t: seq<Cell>, hash: Hash, contents: map<Key, VarEntry>) {
    |t| > 0 && Clear(t, hash) && Represents(t, contents)
  }

  // Whether a search for key k ever comes to a cell at which it stops.
  ghost predicate SearchStops(t: seq<Cell>, hash: Hash, k: Key)
    requires |t| > 0
  {
    exists d: nat :: At(t, hash(k), d).Empty() || (At(t, hash(k), d).Filled() && At(t, hash(k), d).CellKey() == k)
  }

  /** A search stops exactly when its key is present or some cell is empty. */
  lemma SearchStopsIff(t: seq<Cell>, hash: Hash, contents: map<Key, VarEntry>, k: Key)
    requires WellFormedTable(t, hash, contents)
    ensures SearchStops(t, hash, k) <==> k in contents || HasEmpty(t)
  {
    if k in contents {
      var p :| 0 <= p < |t| && t[p].Filled() && t[p].CellKey() == k;
      ProbeDist(hash(k), p, |t|);
      assert At(t, hash(k), Dist(hash(k), p, |t|)) == t[p];
    } else if HasEmpty(t) {
      var p :| 0 <= p < |t| && t[p].Empty();
      ProbeDist(hash(k), p, |t|);
      assert At(t, hash(k), Dist(hash(k), p, |t|)) == t[p];
    }
  }

  // A search that came to offset d without stopping.
  ghost predicate Passed(t: seq<Cell>, h: nat, k: Key, d: nat)
    requires |t| > 0
  {
    forall j :: 0 <= j < d ==> !At(t, h, j).Empty() && !(At(t, h, j).Filled() && At(t, h, j).CellKey() == k)
  }

  lemma PassedAll(t: seq<Cell>, hash: Hash, contents: map<Key, VarEntry>, k: Key, d: nat)
    requires WellFormedTable(t, hash, contents) && Passed(t, hash(k), k, d)
    requires k in contents || HasEmpty(t)
    ensures d < |t|
  {
    var p :| 0 <= p < |t| && (t[p].Empty() || (t[p].Filled() && t[p].CellKey() == k));
    ProbeDist(hash(k), p, |t|);
    assert At(t, hash(k), Dist(hash(k), p, |t|)) == t[p];
  }

  // An empty cell on the search path shows that the key is absent.
  lemma EmptyMeansAbsent(t: seq<Cell>, hash: Hash, contents: map<Key, VarEntry>, k: Key, d: nat)
    requires WellFormedTable(t, hash, contents) && Passed(t, hash(k), k, d)
    requires d < |t| && At(t, hash(k), d).Empty()
    ensures k !in contents
  {
    forall p | 0 <= p < |t| && t[p].Filled()
      ensures t[p].CellKey() != k
    {
      ProbeDist(hash(k), p, |t|);
      assert At(t, hash(k), Dist(hash(k), p, |t|)) == t[p];
      assert PathClear(t, hash(t[p].CellKey()), p);
    }
  }

  // The first cell on the search path that does not hold an entry.
  predicate FreeAt(t: seq<Cell>, h: nat, d: nat)
    requires |t| > 0
  {
    d < |t| && !At(t, h, d).Filled() && forall j :: 0 <= j < d ==> At(t, h, j).Filled()
  }

  // Overwriting a cell by one that is not empty keeps the paths to the others.
  lemma PathsKept(t: seq<Cell>, hash: Hash, p: nat, c: Cell)
    requires |t| > 0 && Clear(t, hash) && p < |t| && !c.Empty()
    requires c.Filled() ==> PathClear(t, hash(c.CellKey()), p)
    ensures Clear(t[p := c], hash)
  {
    var u := t[p := c];
    forall q | 0 <= q < |u| && u[q].Filled()
      ensures PathClear(u, hash(u[q].CellKey()), q)
    {
      assert PathClear(t, hash(u[q].CellKey()), q);
      forall d | 0 <= d < Dist(hash(u[q].CellKey()), q, |u|)
        ensures !At(u, hash(u[q].CellKey()), d).Empty()
      {
        assert !At(t, hash(u[q].CellKey()), d).Empty();
      }
    }
  }

  lemma FillRepresents(t: seq<Cell>, contents: map<Key, VarEntry>, p: nat, c: Cell)
    requires Represents(t, contents) && p < |t| && !t[p].Filled() && c.Filled() && c.CellKey() !in contents
    ensures Represents(t[p := c], contents[c.CellKey() := c.ent.value])
  {
    hide CanonKey;
    var u := t[p := c];
    forall k | k in contents
      ensures HoldsKey(u, k)
    {
      var q :| 0 <= q < |t| && t[q].Filled() && t[q].CellKey() == k;
      assert u[q] == t[q];
    }
    assert u[p] == c;
  }

  lemma FillKeeps(t: seq<Cell>, hash: Hash, contents: map<Key, VarEntry>, d: nat, c: Cell)
    requires WellFormedTable(t, hash, contents) && c.Filled() && c.CellKey() !in contents
    requires FreeAt(t, hash(c.CellKey()), d)
    ensures WellFormedTable(t[Probe(hash(c.CellKey()), d, |t|) := c], hash, contents[c.CellKey() := c.ent.value])
  {
    var h := hash(c.CellKey());
    var p := Probe(h, d, |t|);
    DistProbe(h, d, |t|);
    assert PathClear(t, h, p) by {
      assert forall j :: 0 <= j < d ==> At(t, h, j).Filled();
    }
    hide CanonKey, Dist, Probe, FreeAt;
    PathsKept(t, hash, p, c);
    FillRepresents(t, contents, p, c);
  }

  lemma ReplaceRepresents(t: seq<Cell>, contents: map<Key, VarEntry>, p: nat, c: Cell)
    requires Represents(t, contents) && p < |t| && t[p].Filled()
    requires c.Filled() && c.CellKey() == t[p].CellKey()
    ensures Represents(t[p := c], contents[c.CellKey() := c.ent.value])
  {
    hide CanonKey;
    var u := t[p := c];
    forall k | k in contents
      ensures HoldsKey(u, k)
    {
      var q :| 0 <= q < |t| && t[q].Filled() && t[q].CellKey() == k;
      assert u[q].Filled() && u[q].CellKey() == k;
    }
  }

  lemma ReplaceKeeps(t: seq<Cell>, hash: Hash, contents: map<Key, VarEntry>, p: nat, c: Cell)
    requires WellFormedTable(t, hash, contents) && p < |t| && t[p].Filled()
    requires c.Filled() && c.CellKey() == t[p].CellKey()
    ensures WellFormedTable(t[p := c], hash, contents[c.CellKey() := c.ent.value])
  {
    PathsKept(t, hash, p, c);
    ReplaceRepresents(t, contents, p, c);
  }

  lemma RemoveRepresents(t: seq<Cell>, contents: map<Key, VarEntry>, p: nat)
    requires Represents(t, contents) && p < |t| && t[p].Filled()
    ensures Represents(t[p := t[p].(ent := None)], contents - {t[p].CellKey()})
  {
    hide CanonKey;
    var u, k := t[p := t[p].(ent := None)], t[p].CellKey();
    forall k' | k' in contents - {k}
      ensures HoldsKey(u, k')
    {
      var q :| 0 <= q < |t| && t[q].Filled() && t[q].CellKey() == k';
      assert u[q] == t[q];
    }
  }

  lemma RemoveKeeps(t: seq<Cell>, hash: Hash, contents: map<Key, VarEntry>, p: nat)
    requires WellFormedTable(t, hash, contents) && p < |t| && t[p].Filled()
    ensures WellFormedTable(t[p := t[p].(ent := None)], hash, contents - {t[p].CellKey()})
  {
    PathsKept(t, hash, p, t[p].(ent := None));
    RemoveRepresents(t, contents, p);
  }

  /** How many cells are in use, by an entry or a tomb. */
  function Used(t: seq<Cell>): nat {
    if t == [] then 0 else Used(t[..|t| - 1]) + if t[|t| - 1].Empty() then 0 else 1
  }

  lemma {:induction false} UsedConcat(a: seq<Cell>, b: seq<Cell>)
    ensures Used(a + b) == Used(a) + Used(b)
  {
    if b == [] {
      assert a + b == a;
    } else {
      assert (a + b)[..|a + b| - 1] == a + b[..|b| - 1];
      UsedConcat(a, b[..|b| - 1]);
    }
  }

  lemma UsedUpdate(t: seq<Cell>, p: nat, c: Cell)
    requires p < |t|
    ensures Used(t[p := c]) == Used(t) - (if t[p].Empty() then 0 else 1) + if c.Empty() then 0 else 1
  {
    var a, b := t[..p], t[p + 1..];
    assert t == a + [t[p]] + b && t[p := c] == a + [c] + b;
    UsedConcat(a, [t[p]]);
    UsedConcat(a + [t[p]], b);
    UsedConcat(a, [c]);
    UsedConcat(a + [c], b);
    assert [t[p]][..0] == [] && [c][..0] == [];
  }

  /** Some cell is empty exactly when fewer are in use than there are. */
  lemma {:induction false} UsedRoom(t: seq<Cell>)
    ensures Used(t) <= |t| && (HasEmpty(t) <==> Used(t) < |t|)
  {
    if t != [] {
      var init, last := t[..|t| - 1], t[|t| - 1];
      UsedRoom(init);
      if last.Empty() {
        assert t[|t| - 1].Empty();
      } else if HasEmpty(init) {
        var p :| 0 <= p < |init| && init[p].Empty();
        assert t[p].Empty();
      } else {
        forall p | 0 <= p < |t|
          ensures !t[p].Empty()
        {
          assert p < |init| ==> t[p] == init[p];
        }
      }
    }
  }

  // The same cells are empty.
  ghost predicate SameEmpty(t: seq<Cell>, t': seq<Cell>) {
    |t| == |t'| && forall p :: 0 <= p < |t| ==> (t[p].Empty() <==> t'[p].Empty())
  }

  lemma {:induction false} SameUsed(t: seq<Cell>, t': seq<Cell>)
    requires SameEmpty(t, t')
    ensures Used(t) == Used(t')
  {
    if t != [] {
      SameUsed(t[..|t| - 1], t'[..|t'| - 1]);
    }
  }

  lemma {:induction false} NoneUsed(t: seq<Cell>)
    requires forall p :: 0 <= p < |t| ==> t[p].Empty()
    ensures Used(t) == 0
  {
    if t != [] {
      NoneUsed(t[..|t| - 1]);
    }
  }

  // The keys of the entries in the first n cells, as many as these entries.
  lemma {:induction false} KeysOfUsed(t: seq<Cell>, contents: map<Key, VarEntry>, n: nat) returns (keys: set<Key>)
    requires Represents(t, contents) && NoTombs(t) && n <= |t|
    ensures |keys| == Used(t[..n]) && keys <= contents.Keys
    ensures forall k :: k in keys <==> exists p :: 0 <= p < n && t[p].Filled() && t[p].CellKey() == k
  {
    hide CanonKey;
    if n == 0 {
      keys := {};
    } else {
      var init := KeysOfUsed(t, contents, n - 1);
      assert t[..n][..n - 1] == t[..n - 1];
      keys := if t[n - 1].Filled() then init + {t[n - 1].CellKey()} else init;
    }
  }

  // The entries are among the cells in use.
  lemma {:induction false} EntriesUsed(t: seq<Cell>, contents: map<Key, VarEntry>, n: nat) returns (keys: set<Key>)
    requires Represents(t, contents) && n <= |t|
    ensures |keys| <= Used(t[..n])
    ensures forall p :: 0 <= p < n && t[p].Filled() ==> t[p].CellKey() in keys
    ensures n == |t| ==> |contents| <= Used(t)
  {
    hide CanonKey;
    if n == 0 {
      keys := {};
    } else {
      var init := EntriesUsed(t, contents, n - 1);
      assert t[..n][..n - 1] == t[..n - 1];
      keys := if t[n - 1].Filled() then init + {t[n - 1].CellKey()} else init;
    }
    if n == |t| {
      assert t[..n] == t;
      forall k | k in contents
        ensures k in keys
      {
        assert HoldsKey(t, k);
      }
      SubsetCard(contents.Keys, keys);
      assert |contents.Keys| == |contents|;
    }
  }

  lemma UsedByEntries(t: seq<Cell>, contents: map<Key, VarEntry>)
    requires Represents(t, contents) && NoTombs(t)
    ensures Used(t) <= |contents|
  {
    var keys := KeysOfUsed(t, contents, |t|);
    assert t[..|t|] == t;
    SubsetCard(keys, contents.Keys);
    assert |contents.Keys| == |contents|;
  }

  /** A table without tombs that is not full has an empty cell. */
  lemma RoomLeft(t: seq<Cell>, contents: map<Key, VarEntry>)
    requires Represents(t, contents) && NoTombs(t) && |contents| < |t|
    ensures HasEmpty(t)
  {
    UsedByEntries(t, contents);
    UsedRoom(t);
  }

  ghost predicate PowerOfTwo(n: nat) {
    n == 1 || (n > 1 && n % 2 == 0 && PowerOfTwo(n / 2))
  }

  lemma PowerOfTwoDoubles(n: nat)
    requires PowerOfTwo(n)
    ensures PowerOfTwo(2 * n)
  {
    assert (2 * n) / 2 == n && (2 * n) % 2 == 0;
  }

  // The entries of the first i cells of a table.
  ghost predicate Rebuilt(contents: map<Key, VarEntry>, t: seq<Cell>, i: nat, whole: map<Key, VarEntry>)
    requires i <= |t|
  {
    && (forall k :: k in contents ==> k in whole && contents[k] == whole[k])
    && (forall j :: 0 <= j < i && t[j].Filled() ==> t[j].CellKey() in contents)
    && (forall k :: k in contents ==> HoldsKey(t[..i], k))
    && |contents| <= i
  }

  lemma RebuiltSkip(contents: map<Key, VarEntry>, t: seq<Cell>, i: nat, whole: map<Key, VarEntry>)
    requires i < |t| && Rebuilt(contents, t, i, whole) && !t[i].Filled()
    ensures Rebuilt(contents, t, i + 1, whole)
  {
    hide CanonKey;
    forall k | k in contents
      ensures HoldsKey(t[..i + 1], k)
    {
      HoldsMore(t, i, k);
    }
  }

  lemma HoldsMore(t: seq<Cell>, i: nat, k: Key)
    requires i < |t| && HoldsKey(t[..i], k)
    ensures HoldsKey(t[..i + 1], k)
  {
    var j :| 0 <= j < i && t[..i][j].Filled() && t[..i][j].CellKey() == k;
    assert t[..i + 1][j] == t[..i][j];
  }

  lemma NotYetHeld(t: seq<Cell>, i: nat)
    requires i < |t| && t[i].Filled() && Unique(t)
    ensures !HoldsKey(t[..i], t[i].CellKey())
  {
    hide CanonKey;
    assert forall j :: 0 <= j < i ==> t[..i][j] == t[j];
  }

  lemma RebuiltKeys(contents: map<Key, VarEntry>, t: seq<Cell>, i: nat, whole: map<Key, VarEntry>)
    requires i < |t| && Rebuilt(contents, t, i, whole) && t[i].Filled() && Represents(t, whole)
    ensures t[i].CellKey() !in contents && t[i].CellKey() in whole && whole[t[i].CellKey()] == t[i].ent.value
    ensures HoldsKey(t[..i + 1], t[i].CellKey())
  {
    NotYetHeld(t, i);
    assert t[..i + 1][i] == t[i];
  }

  lemma RebuiltAdd(contents: map<Key, VarEntry>, t: seq<Cell>, i: nat, whole: map<Key, VarEntry>)
    requires i < |t| && Rebuilt(contents, t, i, whole) && t[i].Filled() && Represents(t, whole)
    ensures t[i].CellKey() !in contents
    ensures Rebuilt(contents[t[i].CellKey() := t[i].ent.value], t, i + 1, whole)
  {
    hide CanonKey, Represents, HoldsKey, Cell.CellKey;
    RebuiltKeys(contents, t, i, whole);
    forall k | k in contents
      ensures HoldsKey(t[..i + 1], k)
    {
      HoldsMore(t, i, k);
    }
  }

  lemma RebuiltNone(t: seq<Cell>, whole: map<Key, VarEntry>)
    ensures Rebuilt(map[], t, 0, whole)
  {
  }

  lemma RoomFor(t': seq<Cell>, contents: map<Key, VarEntry>, t: seq<Cell>, whole: map<Key, VarEntry>)
    requires Rebuilt(contents, t, |t|, whole) && Represents(t', contents) && NoTombs(t') && |t| < |t'|
    ensures HasEmpty(t')
  {
    RoomLeft(t', contents);
  }

  lemma RebuiltAll(contents: map<Key, VarEntry>, t: seq<Cell>, whole: map<Key, VarEntry>)
    requires Rebuilt(contents, t, |t|, whole) && Represents(t, whole)
    ensures contents == whole
  {
    hide CanonKey;
    forall k | k in whole
      ensures k in contents
    {
      assert HoldsKey(t, k);
    }
  }

  /** How storing an entry changes the cells: it replaces the entry of the same
      key, or takes the first cell on the search path that holds no entry, or
      has the table rebuilt four times as large, without tombs. */
  ghost predicate Stored(t: seq<Cell>, t': seq<Cell>, hash: Hash, contents: map<Key, VarEntry>, name: Symbol, ent: VarEntry)
    requires |t| > 0
  {
    var k, c := CanonKey(name, ent.t), Cell(Some(name), Some(ent));
    if k in contents then
      exists p :: 0 <= p < |t| && t[p].Filled() && t[p].CellKey() == k && t' == t[p := c]
    else if 2 * (|contents| + 1) <= |t| then
      exists d :: FreeAt(t, hash(k), d) && t' == t[Probe(hash(k), d, |t|) := c]
    else
      |t'| == 4 * |t| && NoTombs(t') && HasEmpty(t')
  }

  lemma StoredKnown(t: seq<Cell>, t': seq<Cell>, hash: Hash, contents: map<Key, VarEntry>, name: Symbol, ent: VarEntry)
    requires |t| > 0 && Stored(t, t', hash, contents, name, ent) && CanonKey(name, ent.t) in contents
    ensures SameEmpty(t, t')
  {
    hide CanonKey;
  }

  /** What storing an entry does to the cells in use: nothing if its key is
      known, at most one more if the table does not grow, and if it grows there
      are only the entries. */
  lemma StoredUsed(t: seq<Cell>, t': seq<Cell>, hash: Hash, contents: map<Key, VarEntry>, name: Symbol, ent: VarEntry)
    requires |t| > 0 && Stored(t, t', hash, contents, name, ent)
    requires Represents(t', contents[CanonKey(name, ent.t) := ent])
    ensures CanonKey(name, ent.t) in contents ==> SameEmpty(t, t')
    ensures CanonKey(name, ent.t) !in contents && 2 * (|contents| + 1) <= |t| ==>
              && |t'| == |t| && Used(t') <= Used(t) + 1
              && forall p :: 0 <= p < |t| && !t[p].Empty() ==> !t'[p].Empty()
    ensures CanonKey(name, ent.t) !in contents && 2 * (|contents| + 1) > |t| ==>
              |t'| == 4 * |t| && Used(t') <= |contents| + 1
  {
    hide CanonKey, Represents, FreeAt, Used;
    var k, c := CanonKey(name, ent.t), Cell(Some(name), Some(ent));
    if k !in contents {
      if 2 * (|contents| + 1) <= |t| {
        var d :| FreeAt(t, hash(k), d) && t' == t[Probe(hash(k), d, |t|) := c];
        UsedUpdate(t, Probe(hash(k), d, |t|), c);
      } else {
        UsedByEntries(t', contents[k := ent]);
      }
    }
  }

  /** In any case at most one cell more is in use, and none for a known key. */
  lemma StoredUsesOne(t: seq<Cell>, t': seq<Cell>, hash: Hash, contents: map<Key, VarEntry>, name: Symbol, ent: VarEntry)
    requires |t| > 0 && Stored(t, t', hash, contents, name, ent) && Represents(t, contents)
    requires Represents(t', contents[CanonKey(name, ent.t) := ent])
    ensures Used(t') <= Used(t) + (if CanonKey(name, ent.t) in contents then 0 else 1) && |t| <= |t'|
  {
    hide CanonKey, Represents, Stored, Used;
    StoredUsed(t, t', hash, contents, name, ent);
    if CanonKey(name, ent.t) in contents {
      SameUsed(t, t');
    }
    var _ := EntriesUsed(t, contents, |t|);
  }

  class CoreVenv {
    const hash: Hash
    var capacity: nat
    var size: nat
    var table: array<Cell>
    ghost var contents: map<Key, VarEntry>

    ghost predicate Valid()
      reads this, table
    {
      && capacity == table.Length > 0 && PowerOfTwo(capacity)
      && WellFormedTable(table[..], hash, contents)
      && size == |contents|
    }

    constructor (capacity: nat, hash: Hash)
      requires PowerOfTwo(capacity)
      ensures Valid() && contents == map[] && fresh(table) && this.capacity == capacity && this.hash == hash
      ensures forall p :: 0 <= p < table.Length ==> table[p] == EMPTY
    {
      this.hash := hash;
      this.capacity, size := capacity, 0;
      table := new Cell[capacity](_ => EMPTY);
      contents := map[];
    }

    method Clear()
      requires Valid()
      modifies this, table
      ensures Valid() && contents == map[] && table == old(table)
      ensures old(contents) != map[] ==> forall p :: 0 <= p < table.Length ==> table[p] == EMPTY
      ensures old(contents) == map[] ==> table[..] == old(table[..])
    {
      if size != 0 {
        forall p | 0 <= p < table.Length {
          table[p] := EMPTY;
        }
        size := 0;
        contents := map[];
      } else {
        assert contents == map[];
      }
    }

    /** The probe loop of store, lookup and remove: from offset start on, the
        first cell that is empty, holds the key, or is a tomb if those count. */
    method Seek(k: Key, start: nat, tombsCount: bool) returns (d: nat)
      requires Valid() && k.Proper()
      requires Canonical(k) in contents || HasEmpty(table[..])
      requires Passed(table[..], hash(Canonical(k)), Canonical(k), start)
      requires tombsCount ==> forall j :: 0 <= j < start ==> At(table[..], hash(Canonical(k)), j).Filled()
      ensures start <= d < table.Length
      ensures Passed(table[..], hash(Canonical(k)), Canonical(k), d)
      ensures var c := At(table[..], hash(Canonical(k)), d);
              c.Empty() || (c.Filled() && c.CellKey() == Canonical(k)) || (tombsCount && c.Tomb())
      ensures tombsCount ==> forall j :: 0 <= j < d ==> At(table[..], hash(Canonical(k)), j).Filled()
    {
      hide WellFormedTable, HasEmpty, Canonical, CanonKey;
      var h := hash(Canonical(k));
      d := start;
      while true
        invariant start <= d && Passed(table[..], h, Canonical(k), d)
        invariant tombsCount ==> forall j :: 0 <= j < d ==> At(table[..], h, j).Filled()
        decreases table.Length - d
      {
        PassedAll(table[..], hash, contents, Canonical(k), d);
        var b := table[Probe(h, d, capacity)];
        assert b == At(table[..], h, d);
        MatchesIffSameKey(b, k);
        if b.Empty() || b.Matches(k) || (tombsCount && b.Tomb()) {
          return;
        }
        d := d + 1;
      }
    }

    // Whether the cell at which a search ended holds its key.
    lemma SoughtIs(k: Key, d: nat)
      requires Valid() && k.Proper() && d < table.Length
      requires Passed(table[..], hash(Canonical(k)), Canonical(k), d)
      ensures var c := table[Probe(hash(Canonical(k)), d, capacity)];
              && c == At(table[..], hash(Canonical(k)), d)
              && (c.Empty() ==> Canonical(k) !in contents)
              && (c.Matches(k) <==> c.Filled() && c.CellKey() == Canonical(k))
              && (c.Matches(k) ==> Canonical(k) in contents && c.ent == Some(contents[Canonical(k)]))
    {
      var c := At(table[..], hash(Canonical(k)), d);
      assert c == table[..][Probe(hash(Canonical(k)), d, capacity)];
      MatchesIffSameKey(c, k);
      hide Canonical, CanonKey;
      if c.Empty() {
        EmptyMeansAbsent(table[..], hash, contents, Canonical(k), d);
      }
    }

    /** A search ends with the entry of its key, or at an empty cell. */
    method Lookup(k: Key) returns (ent: Option<VarEntry>)
      requires Valid() && k.Proper()
      requires Canonical(k) in contents || HasEmpty(table[..])
      ensures ent == if Canonical(k) in contents then Some(contents[Canonical(k)]) else None
    {
      var d := Seek(k, 0, false);
      SoughtIs(k, d);
      hide WellFormedTable, Canonical, CanonKey;
      var b := table[Probe(hash(Canonical(k)), d, capacity)];
      return if b.Matches(k) then b.ent else None;
    }

    // cell::remove, and one entry less.
    method Entomb(p: nat)
      requires Valid() && p < table.Length && table[p].Filled()
      modifies this`size, this`contents, table
      ensures Valid()
      ensures contents == old(contents) - {old(table[p]).CellKey()}
      ensures table[..] == old(table[..])[p := old(table[p]).(ent := None)] && SameEmpty(old(table[..]), table[..])
    {
      ghost var t := table[..];
      RemoveKeeps(t, hash, contents, p);
      contents := contents - {table[p].CellKey()};
      table[p] := table[p].(ent := None);
      size := size - 1;
      assert table[..] == t[p := t[p].(ent := None)];
    }

    method Remove(k: Key)
      requires Valid() && k.Proper() && Canonical(k) in contents
      modifies this`size, this`contents, table
      ensures Valid() && SameEmpty(old(table[..]), table[..])
      ensures contents == old(contents) - {Canonical(k)}
      ensures exists p :: 0 <= p < table.Length && old(table[p]).Filled() && old(table[p]).CellKey() == Canonical(k)
                && table[..] == old(table[..])[p := old(table[p]).(ent := None)]
    {
      hide WellFormedTable, Canonical, CanonKey, HasEmpty, SameEmpty;
      var d := Seek(k, 0, false);
      SoughtIs(k, d);
      Entomb(Probe(hash(Canonical(k)), d, capacity));
    }

    // cell::replaceWith
    method Overwrite(p: nat, name: Symbol, ent: VarEntry) returns (old_ent: Option<VarEntry>)
      requires Valid() && p < table.Length && table[p].Filled() && table[p].CellKey() == CanonKey(name, ent.t)
      modifies this`contents, table
      ensures Valid()
      ensures CanonKey(name, ent.t) in old(contents) && old_ent == Some(old(contents)[CanonKey(name, ent.t)])
      ensures contents == old(contents)[CanonKey(name, ent.t) := ent]
      ensures Stored(old(table[..]), table[..], hash, old(contents), name, ent)
    {
      ghost var t := table[..];
      var c := Cell(Some(name), Some(ent));
      ReplaceKeeps(t, hash, contents, p, c);
      contents := contents[CanonKey(name, ent.t) := ent];
      old_ent := table[p].ent;
      table[p] := c;
      assert table[..] == t[p := c];
      assert |contents| == |old(contents)| by {
        assert contents.Keys == old(contents).Keys;
        assert |contents.Keys| == |contents| && |old(contents).Keys| == |old(contents)|;
      }
    }

    // cell::storeNew, and one entry more.
    method Fill(ghost d: nat, p: nat, name: Symbol, ent: VarEntry)
      requires Valid() && CanonKey(name, ent.t) !in contents
      requires FreeAt(table[..], hash(CanonKey(name, ent.t)), d) && p == Probe(hash(CanonKey(name, ent.t)), d, table.Length)
      modifies this`size, this`contents, table
      ensures Valid()
      ensures contents == old(contents)[CanonKey(name, ent.t) := ent] && size == old(size) + 1
      ensures table[..] == old(table[..])[p := Cell(Some(name), Some(ent))]
    {
      ghost var t := table[..];
      FillKeeps(t, hash, contents, d, Cell(Some(name), Some(ent)));
      table[p] := Cell(Some(name), Some(ent));
      size := size + 1;
      contents := contents[CanonKey(name, ent.t) := ent];
      assert table[..] == t[p := Cell(Some(name), Some(ent))];
    }

    method StoreNew(ghost d: nat, p: nat, name: Symbol, ent: VarEntry)
      requires Valid() && CanonKey(name, ent.t) !in contents
      requires FreeAt(table[..], hash(CanonKey(name, ent.t)), d) && p == Probe(hash(CanonKey(name, ent.t)), d, table.Length)
      modifies this, table
      ensures Valid() && (table == old(table) || fresh(table))
      ensures contents == old(contents)[CanonKey(name, ent.t) := ent]
      ensures Stored(old(table[..]), table[..], hash, old(contents), name, ent)
      decreases if 2 * (size + 1) > capacity then 1 else 0, 1
    {
      Fill(d, p, name, ent);
      if 2 * size > capacity {
        Resize();
      }
    }

    // One turn of the loop that rebuilds the table from the cells t.
    method Reinsert(b: Cell, ghost t: seq<Cell>, ghost i: nat, ghost whole: map<Key, VarEntry>)
      requires Valid() && NoTombs(table[..]) && capacity == 4 * |t|
      requires i < |t| && b == t[i] && Represents(t, whole) && Rebuilt(contents, t, i, whole)
      modifies this, table
      ensures Valid() && NoTombs(table[..]) && capacity == 4 * |t| && (table == old(table) || fresh(table))
      ensures Rebuilt(contents, t, i + 1, whole)
      decreases 0, 4
    {
      if !b.Empty() && !b.Tomb() {
        RebuiltAdd(contents, t, i, whole);
        RoomLeft(table[..], contents);
        hide WellFormedTable, Rebuilt, Represents, CanonKey, FreeAt;
        var shadowed := Store(b.name.value, b.ent.value);
      } else {
        RebuiltSkip(contents, t, i, whole);
      }
    }

    lemma TableRepresents()
      requires Valid()
      ensures table.Length == capacity > 0 && Represents(table[..], contents)
    {
    }

    method InitTable(capacity: nat)
      requires PowerOfTwo(capacity)
      modifies this
      ensures Valid() && fresh(table) && this.capacity == capacity && contents == map[] && NoTombs(table[..])
    {
      this.capacity, size := capacity, 0;
      table := new Cell[capacity](_ => EMPTY);
      contents := map[];
    }

    /** Growth keeps the entries, drops the tombs, and never nests. */
    method Resize()
      requires Valid()
      modifies this
      ensures Valid() && fresh(table) && contents == old(contents)
      ensures capacity == 4 * old(capacity) && NoTombs(table[..]) && HasEmpty(table[..])
      decreases 1, 0
    {
      hide WellFormedTable, Rebuilt, Represents, NoTombs, HasEmpty, PowerOfTwo;
      TableRepresents();
      var oldTable := table;
      ghost var t, whole := table[..], contents;
      PowerOfTwoDoubles(capacity);
      PowerOfTwoDoubles(2 * capacity);
      RebuiltNone(t, whole);
      InitTable(4 * capacity);
      var i := 0;
      while i < oldTable.Length
        invariant 0 <= i <= oldTable.Length && oldTable[..] == t
        invariant Valid() && fresh(table) && capacity == 4 * oldTable.Length
        invariant NoTombs(table[..])
        invariant Rebuilt(contents, t, i, whole)
      {
        Reinsert(oldTable[i], t, i, whole);
        i := i + 1;
      }
      RebuiltAll(contents, t, whole);
      TableRepresents();
      RoomFor(table[..], contents, t, whole);
    }

    method StoreAfterTomb(tomb: nat, name: Symbol, ent: VarEntry) returns (shadowed: Option<VarEntry>)
      requires Valid() && (CanonKey(name, ent.t) in contents || HasEmpty(table[..]))
      requires FreeAt(table[..], hash(CanonKey(name, ent.t)), tomb)
      requires Passed(table[..], hash(CanonKey(name, ent.t)), CanonKey(name, ent.t), tomb + 1)
      modifies this, table
      ensures Valid() && (table == old(table) || fresh(table))
      ensures shadowed == if CanonKey(name, ent.t) in old(contents) then Some(old(contents)[CanonKey(name, ent.t)]) else None
      ensures contents == old(contents)[CanonKey(name, ent.t) := ent]
      ensures Stored(old(table[..]), table[..], hash, old(contents), name, ent)
      decreases if 2 * (size + 1) > capacity then 1 else 0, 2
    {
      var k := KeyFor(name, ent.t);
      var h := hash(Canonical(k));
      var d := Seek(k, tomb + 1, false);
      SoughtIs(k, d);
      hide WellFormedTable, Stored, Canonical, HasEmpty, FreeAt, Passed;
      if table[Probe(h, d, capacity)].Empty() {
        StoreNew(tomb, Probe(h, tomb, capacity), name, ent);
        shadowed := None;
      } else {
        shadowed := Overwrite(Probe(h, d, capacity), name, ent);
      }
    }

    /** Storing replaces the entry of the same key, which is returned. */
    method Store(name: Symbol, ent: VarEntry) returns (shadowed: Option<VarEntry>)
      requires Valid() && (CanonKey(name, ent.t) in contents || HasEmpty(table[..]))
      modifies this, table
      ensures Valid() && (table == old(table) || fresh(table))
      ensures shadowed == if CanonKey(name, ent.t) in old(contents) then Some(old(contents)[CanonKey(name, ent.t)]) else None
      ensures contents == old(contents)[CanonKey(name, ent.t) := ent]
      ensures Stored(old(table[..]), table[..], hash, old(contents), name, ent)
      decreases if 2 * (size + 1) > capacity then 1 else 0, 3
    {
      var k := KeyFor(name, ent.t);
      var h := hash(Canonical(k));
      var d := Seek(k, 0, true);
      SoughtIs(k, d);
      hide WellFormedTable, Stored, Canonical, HasEmpty;
      var b := table[Probe(h, d, capacity)];
      if b.Empty() {
        StoreNew(d, Probe(h, d, capacity), name, ent);
        shadowed := None;
      } else if b.Matches(k) {
        shadowed := Overwrite(Probe(h, d, capacity), name, ent);
      } else {
        shadowed := StoreAfterTomb(d, name, ent);
      }
    }
  }
}
