/** Types, formals and signatures of the Asymptote language, with the two
    equivalence tests that drive overloading and the variable table. */
module Types {
  import opened Options

  datatype Symbol = Symbol(id: nat, special: bool)

  // A formal parameter; the same record describes an argument of a call.
  datatype Formal = Formal(t: Ty, name: Option<Symbol>, defval: bool, explicit: bool)

  datatype Signature = Signature(formals: seq<Formal>, numKeywordOnly: nat, rest: Option<Formal>,
                                 isOpen: bool, openTakesNames: bool)
  {
    predicate HasRest() { rest.Some? }

    // The rest formal counts as one formal.
    function NumFormals(): nat { if rest.Some? then |formals| + 1 else |formals| }

    predicate KeywordOnly(n: nat)
      requires n < |formals|
    {
      n >= |formals| - numKeywordOnly
    }
  }

  // The type of a variable.  Overloaded types appear only as argument types
  // and as the per-name summaries of the variable table.
  datatype Ty =
    | Primitive(kind: nat)
    | Record(id: nat)
    | Array(cell: Ty)
    | Function(result: Ty, sig: Signature)
  {
    function GetSignature(): Option<Signature> {
      if Function? then Some(sig) else None
    }
  }

  function NumFormals(t: Ty): nat {
    if t.Function? then t.sig.NumFormals() else 0
  }

  predicate Equivalent(a: Ty, b: Ty)
    decreases a, 1
  {
    match (a, b)
    case (Primitive(k), Primitive(l)) => k == l
    case (Record(i), Record(j)) => i == j
    case (Array(c), Array(d)) => Equivalent(c, d)
    case (Function(r, s), Function(r', s')) => Equivalent(r, r') && SigEquivalent(s, s')
    case _ => false
  }

  // Names, default values and keyword-only marks are ignored, and open
  // signatures are equivalent to each other whatever their formals.
  predicate SigEquivalent(s: Signature, t: Signature)
    decreases s, 0
  {
    if s.isOpen then t.isOpen
    else if t.isOpen then false
    else
      && |s.formals| == |t.formals|
      && (forall i :: 0 <= i < |s.formals| ==> Equivalent(s.formals[i].t, t.formals[i].t))
      && (match (s.rest, t.rest)
          case (Some(f), Some(g)) => Equivalent(f.t, g.t)
          case (None, None) => true
          case _ => false)
  }

  // A null signature is the signature of a variable that is not a function.
  predicate OptSigEquivalent(s: Option<Signature>, t: Option<Signature>) {
    match (s, t)
    case (Some(s), Some(t)) => SigEquivalent(s, t)
    case (None, None) => true
    case _ => false
  }

  /* Canonical representatives.  Two types are equivalent exactly when their
     canonical forms are equal, so a table keyed by equivalence classes can be
     specified by a finite map keyed by canonical forms. */

  function CanonFormal(f: Formal): Formal
    decreases f, 1
  {
    Formal(Canon(f.t), None, false, false)
  }

  function CanonSig(s: Signature): Signature
    decreases s, 0
  {
    if s.isOpen then Signature([], 0, None, true, false)
    else Signature(
           seq(|s.formals|, i requires 0 <= i < |s.formals| => CanonFormal(s.formals[i])),
           0,
           if s.rest.Some? then Some(CanonFormal(s.rest.value)) else None,
           false, false)
  }

  function Canon(t: Ty): Ty
    decreases t, 1
  {
    match t
    case Primitive(_) => t
    case Record(_) => t
    case Array(c) => Array(Canon(c))
    case Function(r, s) => Function(Canon(r), CanonSig(s))
  }

  function CanonOptSig(s: Option<Signature>): Option<Signature> {
    if s.Some? then Some(CanonSig(s.value)) else None
  }

  lemma {:induction false} EquivalentIffCanon(a: Ty, b: Ty)
    ensures Equivalent(a, b) <==> Canon(a) == Canon(b)
    decreases a, 1
  {
    match (a, b)
    case (Array(c), Array(d)) => EquivalentIffCanon(c, d);
    case (Function(r, s), Function(r', s')) =>
      EquivalentIffCanon(r, r');
      SigEquivalentIffCanon(s, s');
    case _ =>
  }

  lemma {:induction false} SigEquivalentIffCanon(s: Signature, t: Signature)
    ensures SigEquivalent(s, t) <==> CanonSig(s) == CanonSig(t)
    decreases s, 0
  {
    if s.isOpen || t.isOpen {
      return;
    }
    forall f, g | f in s.formals && g in t.formals
      ensures Equivalent(f.t, g.t) <==> CanonFormal(f) == CanonFormal(g)
    {
      EquivalentIffCanon(f.t, g.t);
    }
    if s.rest.Some? && t.rest.Some? {
      EquivalentIffCanon(s.rest.value.t, t.rest.value.t);
    }
    var cs, ct := CanonSig(s).formals, CanonSig(t).formals;
    assert forall i :: 0 <= i < |cs| ==> cs[i] == CanonFormal(s.formals[i]);
    assert forall i :: 0 <= i < |ct| ==> ct[i] == CanonFormal(t.formals[i]);
    if CanonSig(s) == CanonSig(t) {
      forall i | 0 <= i < |s.formals|
        ensures Equivalent(s.formals[i].t, t.formals[i].t)
      {
        assert cs[i] == ct[i];
        assert s.formals[i] in s.formals && t.formals[i] in t.formals;
      }
    }
    if SigEquivalent(s, t) {
      forall i | 0 <= i < |s.formals|
        ensures cs[i] == ct[i]
      {
        assert s.formals[i] in s.formals && t.formals[i] in t.formals;
      }
      assert cs == ct;
    }
  }

  lemma OptSigEquivalentIffCanon(s: Option<Signature>, t: Option<Signature>)
    ensures OptSigEquivalent(s, t) <==> CanonOptSig(s) == CanonOptSig(t)
  {
    if s.Some? && t.Some? {
      SigEquivalentIffCanon(s.value, t.value);
    }
  }

  /** Equivalent is an equivalence relation. */
  lemma EquivalenceRelation(a: Ty, b: Ty, c: Ty)
    ensures Equivalent(a, a)
    ensures Equivalent(a, b) ==> Equivalent(b, a)
    ensures Equivalent(a, b) && Equivalent(b, c) ==> Equivalent(a, c)
  {
    EquivalentIffCanon(a, a);
    EquivalentIffCanon(a, b);
    EquivalentIffCanon(b, a);
    EquivalentIffCanon(b, c);
    EquivalentIffCanon(a, c);
  }

  // A type without open signatures, names or marks.
  predicate Bare(t: Ty)
    decreases t, 1
  {
    match t
    case Primitive(_) => true
    case Record(_) => true
    case Array(c) => Bare(c)
    case Function(r, s) => Bare(r) && BareSig(s)
  }

  predicate BareFormal(f: Formal)
    decreases f, 1
  {
    f.name.None? && !f.defval && !f.explicit && Bare(f.t)
  }

  predicate BareSig(s: Signature)
    decreases s, 0
  {
    && !s.isOpen && !s.openTakesNames && s.numKeywordOnly == 0
    && (forall i :: 0 <= i < |s.formals| ==> BareFormal(s.formals[i]))
    && (s.rest.Some? ==> BareFormal(s.rest.value))
  }

  lemma {:induction false} BareCanon(t: Ty)
    requires Bare(t)
    ensures Canon(t) == t
    decreases t, 1
  {
    match t
    case Array(c) => BareCanon(c);
    case Function(r, s) =>
      BareCanon(r);
      BareCanonSig(s);
    case _ =>
  }

  lemma {:induction false} BareCanonSig(s: Signature)
    requires BareSig(s)
    ensures CanonSig(s) == s
    decreases s, 0
  {
    forall f | f in s.formals && BareFormal(f)
      ensures CanonFormal(f) == f
    {
      BareCanon(f.t);
    }
    if s.rest.Some? {
      assert BareFormal(s.rest.value);
      BareCanon(s.rest.value.t);
    }
    forall i | 0 <= i < |s.formals|
      ensures CanonSig(s).formals[i] == s.formals[i]
    {
      assert s.formals[i] in s.formals && BareFormal(s.formals[i]);
    }
    assert CanonSig(s).formals == s.formals;
  }

  /** Equivalence is no coarser than it should be: it is equality among types
      without open signatures, names or marks. */
  lemma BareEquivalentIff(a: Ty, b: Ty)
    requires Bare(a) && Bare(b)
    ensures Equivalent(a, b) <==> a == b
  {
    EquivalentIffCanon(a, b);
    BareCanon(a);
    BareCanon(b);
  }

  predicate SameTypes(s: Signature, t: Signature) {
    && |s.formals| == |t.formals| && (s.rest.Some? <==> t.rest.Some?)
    && (forall i :: 0 <= i < |s.formals| ==> s.formals[i].t == t.formals[i].t)
    && (s.rest.Some? ==> s.rest.value.t == t.rest.value.t)
  }

  /** And no finer: names and marks do not matter, and in an open signature nothing
      does. */
  lemma MarksIgnored(s: Signature, t: Signature)
    ensures s.isOpen != t.isOpen ==> !SigEquivalent(s, t)
    ensures s.isOpen && t.isOpen ==> SigEquivalent(s, t)
    ensures !s.isOpen && !t.isOpen && SameTypes(s, t) ==> SigEquivalent(s, t)
  {
    if SameTypes(s, t) {
      forall f | f in s.formals
        ensures Equivalent(f.t, f.t)
      {
        EquivalenceRelation(f.t, f.t, f.t);
      }
      if s.rest.Some? {
        EquivalenceRelation(s.rest.value.t, s.rest.value.t, s.rest.value.t);
      }
    }
  }

  /* The type of an argument may be that of an overloaded name, which stands for
     any of its members.  Members are never overloaded themselves. */

  datatype ArgTy = One(t: Ty) | Many(sub: seq<Ty>)
  {
    function Members(): seq<Ty> { if One? then [t] else sub }
  }

  predicate AnyEquivalent(sub: seq<Ty>, t: Ty) {
    exists i :: 0 <= i < |sub| && Equivalent(sub[i], t)
  }

  // The overloaded type does the comparison, the second one if both are.
  predicate ArgEquivalent(a: ArgTy, b: ArgTy) {
    match (a, b)
    case (One(t), One(u)) => Equivalent(t, u)
    case (One(t), Many(sub)) => AnyEquivalent(sub, t)
    case (Many(sub), One(t)) => AnyEquivalent(sub, t)
    case (Many(sub), Many(others)) => exists i :: 0 <= i < |others| && AnyEquivalent(sub, others[i])
  }

  predicate SameClass(x: Ty, y: Ty) { Canon(x) == Canon(y) }

  /** Argument types are equivalent exactly when some members of them are. */
  lemma ArgEquivalentIff(a: ArgTy, b: ArgTy)
    ensures ArgEquivalent(a, b) <==> exists x, y :: x in a.Members() && y in b.Members() && SameClass(x, y)
  {
    forall x, y
      ensures SameClass(x, y) == Equivalent(x, y) == Equivalent(y, x)
    {
      EquivalentIffCanon(x, y);
      EquivalentIffCanon(y, x);
    }
    hide Canon, Equivalent, SameClass;
    if x, y :| x in a.Members() && y in b.Members() && SameClass(x, y) {
      var i, j :| 0 <= i < |a.Members()| && a.Members()[i] == x && 0 <= j < |b.Members()| && b.Members()[j] == y;
      if a.Many? && b.Many? {
        assert AnyEquivalent(a.sub, b.sub[j]);
      }
    }
    if ArgEquivalent(a, b) {
      if a.Many? && b.Many? {
        var i :| 0 <= i < |b.sub| && AnyEquivalent(a.sub, b.sub[i]);
        var j :| 0 <= j < |a.sub| && Equivalent(a.sub[j], b.sub[i]);
        assert SameClass(a.sub[j], b.sub[i]);
      } else if a.Many? {
        var j :| 0 <= j < |a.sub| && Equivalent(a.sub[j], b.t);
        assert b.t in b.Members() && SameClass(a.sub[j], b.t);
      } else if b.Many? {
        var j :| 0 <= j < |b.sub| && Equivalent(b.sub[j], a.t);
        assert a.t in a.Members() && SameClass(a.t, b.sub[j]);
      } else {
        assert a.t in a.Members() && b.t in b.Members() && SameClass(a.t, b.t);
      }
    }
  }

  /** So equivalence is symmetric for all argument types, and reflexive but for
      the overloaded type without members; ... */
  lemma ArgEquivalentSymmetric(a: ArgTy, b: ArgTy)
    ensures ArgEquivalent(a, b) <==> ArgEquivalent(b, a)
    ensures ArgEquivalent(a, a) <==> a.Members() != []
  {
    ArgEquivalentIff(a, b);
    ArgEquivalentIff(b, a);
    ArgEquivalentIff(a, a);
    hide ArgEquivalent;
    if x, y :| x in a.Members() && y in b.Members() && SameClass(x, y) {
      assert SameClass(y, x);
    }
    if y, x :| y in b.Members() && x in a.Members() && SameClass(y, x) {
      assert SameClass(x, y);
    }
    if a.Members() != [] {
      assert a.Members()[0] in a.Members() && SameClass(a.Members()[0], a.Members()[0]);
    }
  }

  /** ... but an overloaded type is equivalent to types that are not. */
  lemma OverloadedNotTransitive()
    ensures var many := Many([Primitive(0), Primitive(1)]);
            && ArgEquivalent(One(Primitive(0)), many) && ArgEquivalent(many, One(Primitive(1)))
            && !ArgEquivalent(One(Primitive(0)), One(Primitive(1)))
  {
    var sub := [Primitive(0), Primitive(1)];
    assert Equivalent(sub[0], Primitive(0)) && Equivalent(sub[1], Primitive(1));
  }
}
