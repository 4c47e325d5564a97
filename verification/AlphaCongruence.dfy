/** What `alpha_equiv` decides, without keys: the least congruence that allows renaming of bound
    variables, permutation of the parts of And and Or, and exchange of the sides of an equation
    and of an equivalence. */
module AlphaCongruence {
  import opened Wrappers
  import opened Fol
  import opened Substitution
  import opened AlphaEquivalence

  type Relation = (Formula, Formula) -> bool

  ghost predicate Equivalence(R: Relation) {
    && (forall f :: R(f, f))
    && (forall f, g :: R(f, g) ==> R(g, f))
    && (forall f, g, h :: R(f, g) && R(g, h) ==> R(f, h))
  }

  ghost predicate Pointwise(R: Relation, fs: seq<Formula>, gs: seq<Formula>) {
    |fs| == |gs| && forall i :: 0 <= i < |fs| ==> R(fs[i], gs[i])
  }

  /** Related parts make related formulas. */
  ghost predicate Compatible(R: Relation) {
    && (forall f, g :: R(f, g) ==> R(Neg(f), Neg(g)))
    && (forall fs, gs :: Pointwise(R, fs, gs) ==> R(And(fs), And(gs)) && R(Or(fs), Or(gs)))
    && (forall a, b, c, d :: R(a, c) && R(b, d) ==> R(Implies(a, b), Implies(c, d)) && R(Iff(a, b), Iff(c, d)))
    && (forall v, f, g :: R(f, g) ==> R(Forall(v, f), Forall(v, g)) && R(Exists(v, f), Exists(v, g)))
  }

  ghost predicate Permutes(R: Relation) {
    forall fs, gs :: multiset(fs) == multiset(gs) ==> R(And(fs), And(gs)) && R(Or(fs), Or(gs))
  }

  ghost predicate Exchanges(R: Relation) {
    && (forall s, t :: R(AtomF(Eq(s, t)), AtomF(Eq(t, s))))
    && (forall a, b :: R(Iff(a, b), Iff(b, a)))
  }

  predicate Unused(z: VarId, f: Formula) { z !in FreeVars(f) && z !in BoundVars(f) }

  ghost predicate Renames(R: Relation) {
    forall v, z, b :: Unused(z, b) ==>
      R(Forall(v, b), Forall(z, RenameVar(b, v, z))) && R(Exists(v, b), Exists(z, RenameVar(b, v, z)))
  }

  ghost predicate Congruence(R: Relation) {
    Equivalence(R) && Compatible(R) && Permutes(R) && Exchanges(R) && Renames(R)
  }

  /** Alpha-equivalence: related by every such congruence. */
  ghost predicate LeastAlpha(f: Formula, g: Formula) { forall R: Relation :: Congruence(R) ==> R(f, g) }

  // ----- equality of keys is such a congruence

  ghost predicate SameKeys(f: Formula, g: Formula) {
    forall levels, depth :: KeyOf(f, levels, depth) == KeyOf(g, levels, depth)
  }

  lemma PermutedKeys(fs: seq<Formula>, gs: seq<Formula>, levels: Levels, depth: nat)
    requires multiset(fs) == multiset(gs)
    ensures multiset(KeysOf(fs, levels, depth)) == multiset(KeysOf(gs, levels, depth))
  {
    var pi := BijectionExists(fs, gs);
    BijectionCounts(KeysOf(fs, levels, depth), KeysOf(gs, levels, depth), pi);
  }

  lemma JunctionKeys(fs: seq<Formula>, gs: seq<Formula>)
    requires |fs| == |gs| && forall i :: 0 <= i < |fs| ==> SameKeys(fs[i], gs[i])
    ensures SameKeys(And(fs), And(gs)) && SameKeys(Or(fs), Or(gs))
  {
    forall levels, depth ensures KeysOf(fs, levels, depth) == KeysOf(gs, levels, depth) {
      forall i | 0 <= i < |fs| ensures KeyOf(fs[i], levels, depth) == KeyOf(gs[i], levels, depth) {}
    }
  }

  lemma KeysCompatible(R: Relation)
    requires forall f, g :: R(f, g) <==> SameKeys(f, g)
    ensures Compatible(R)
  {
    forall fs, gs | Pointwise(R, fs, gs) ensures SameKeys(And(fs), And(gs)) && SameKeys(Or(fs), Or(gs)) {
      JunctionKeys(fs, gs);
    }
    forall a, b, c, d | SameKeys(a, c) && SameKeys(b, d)
      ensures SameKeys(Implies(a, b), Implies(c, d)) && SameKeys(Iff(a, b), Iff(c, d)) {}
    forall v, f, g | SameKeys(f, g)
      ensures SameKeys(Forall(v, f), Forall(v, g)) && SameKeys(Exists(v, f), Exists(v, g)) {}
    forall f, g | SameKeys(f, g) ensures SameKeys(Neg(f), Neg(g)) {}
  }

  lemma PermutedSame(fs: seq<Formula>, gs: seq<Formula>)
    requires multiset(fs) == multiset(gs)
    ensures SameKeys(And(fs), And(gs)) && SameKeys(Or(fs), Or(gs))
  {
    forall levels, depth ensures multiset(KeysOf(fs, levels, depth)) == multiset(KeysOf(gs, levels, depth)) {
      PermutedKeys(fs, gs, levels, depth);
    }
  }

  lemma ExchangedSame(s: Term, t: Term, a: Formula, b: Formula)
    ensures SameKeys(AtomF(Eq(s, t)), AtomF(Eq(t, s))) && SameKeys(Iff(a, b), Iff(b, a))
  {
    forall levels, depth
      ensures KeyOf(AtomF(Eq(s, t)), levels, depth) == KeyOf(AtomF(Eq(t, s)), levels, depth)
        && KeyOf(Iff(a, b), levels, depth) == KeyOf(Iff(b, a), levels, depth)
    {
      PairKeys(TermKeyOf(s, levels), TermKeyOf(t, levels), TermKeyOf(t, levels), TermKeyOf(s, levels));
      IffKeys(Iff(a, b), levels, Iff(b, a), levels, depth);
    }
  }

  lemma KeysPermute(R: Relation)
    requires forall f, g :: R(f, g) <==> SameKeys(f, g)
    ensures Permutes(R)
  {
    forall fs, gs | multiset(fs) == multiset(gs) ensures R(And(fs), And(gs)) && R(Or(fs), Or(gs)) {
      PermutedSame(fs, gs);
    }
  }

  lemma KeysExchange(R: Relation)
    requires forall f, g :: R(f, g) <==> SameKeys(f, g)
    ensures Exchanges(R)
  {
    forall s, t ensures R(AtomF(Eq(s, t)), AtomF(Eq(t, s))) { ExchangedSame(s, t, True, True); }
    forall a, b ensures R(Iff(a, b), Iff(b, a)) { ExchangedSame(Var(0), Var(0), a, b); }
  }

  lemma KeysRename(R: Relation)
    requires forall f, g :: R(f, g) <==> SameKeys(f, g)
    ensures Renames(R)
  {
    forall v, z, b | Unused(z, b)
      ensures SameKeys(Forall(v, b), Forall(z, RenameVar(b, v, z)))
        && SameKeys(Exists(v, b), Exists(z, RenameVar(b, v, z)))
    {
      forall levels, depth
        ensures KeyOf(Forall(v, b), levels, depth) == KeyOf(Forall(z, RenameVar(b, v, z)), levels, depth)
          && KeyOf(Exists(v, b), levels, depth) == KeyOf(Exists(z, RenameVar(b, v, z)), levels, depth)
      {
        RenamingRecognised(v, z, b, levels, levels, depth);
      }
    }
  }

  lemma LeastHasKeys(f: Formula, g: Formula)
    requires LeastAlpha(f, g)
    ensures SameKeys(f, g)
  {
    var R: Relation := (x, y) => SameKeys(x, y);
    KeysCompatible(R);
    KeysPermute(R);
    KeysExchange(R);
    KeysRename(R);
    assert Equivalence(R);
    assert Congruence(R);
    assert R(f, g);
  }

  // ----- equal keys are related by every such congruence

  /** Different variables have different levels, all below `depth`. */
  ghost predicate Scoped(levels: Levels, depth: nat) {
    && (forall v :: v in levels ==> levels[v] < depth)
    && (forall v, w :: v in levels && w in levels && levels[v] == levels[w] ==> v == w)
  }

  lemma {:induction false} SameTerm(t: Term, u: Term, levels: Levels, depth: nat)
    requires Scoped(levels, depth) && TermKeyOf(t, levels) == TermKeyOf(u, levels)
    ensures t == u
    decreases t
  {
    if t.App? && u.App? {
      forall i | 0 <= i < |t.args| && i < |u.args| ensures t.args[i] == u.args[i] {
        assert TermKeys(t.args, levels)[i] == TermKeys(u.args, levels)[i];
        SameTerm(t.args[i], u.args[i], levels, depth);
      }
    }
  }

  lemma AtomExact(a: Atom, b: Atom, levels: Levels, depth: nat)
    requires Scoped(levels, depth)
    ensures AtomKey(a, levels) == AtomKey(b, levels) <==> b == a || (a.Eq? && b == Eq(a.right, a.left))
  {
    if AtomKey(a, levels) == AtomKey(b, levels) {
      if a.Pred? {
        SameTerm(App(a.sym, a.args), App(b.sym, b.args), levels, depth);
      } else {
        var al, ar := TermKeyOf(a.left, levels), TermKeyOf(a.right, levels);
        var bl, br := TermKeyOf(b.left, levels), TermKeyOf(b.right, levels);
        PairKeys(al, ar, bl, br);
        if al == bl && ar == br {
          SameTerm(a.left, b.left, levels, depth);
          SameTerm(a.right, b.right, levels, depth);
        } else {
          SameTerm(a.left, b.right, levels, depth);
          SameTerm(a.right, b.left, levels, depth);
        }
      }
    }
  }

  /** A variable unused in both formulas. */
  lemma SomeUnused(f: Formula, g: Formula) returns (z: VarId)
    ensures Unused(z, f) && Unused(z, g)
  {
    z := Above(FreeVars(f) + BoundVars(f) + FreeVars(g) + BoundVars(g));
  }

  lemma {:induction false} Above(s: set<VarId>) returns (z: VarId)
    ensures forall x :: x in s ==> x < z
  {
    z := 0;
    if x :| x in s {
      z := Above(s - {x});
      if z <= x { z := x + 1; }
      forall y | y in s ensures y < z { assert y == x || y in s - {x}; }
    }
  }

  /** Renamed to a common unused variable, the bodies of two quantified formulas have equal keys. */
  lemma CommonBody(v: VarId, b: Formula, w: VarId, c: Formula, z: VarId, levels: Levels, depth: nat)
    requires Scoped(levels, depth) && Unused(z, b) && Unused(z, c)
    ensures Scoped(levels[z := depth], depth + 1)
    ensures KeyOf(b, levels[v := depth], depth + 1) == KeyOf(c, levels[w := depth], depth + 1) <==>
      KeyOf(RenameVar(b, v, z), levels[z := depth], depth + 1) ==
        KeyOf(RenameVar(c, w, z), levels[z := depth], depth + 1)
  {
    RenamedBinder(v, z, FreeVars(b), levels, levels, depth);
    KeyRenamed(b, v, z, levels[v := depth], levels[z := depth], depth + 1);
    RenamedBinder(w, z, FreeVars(c), levels, levels, depth);
    KeyRenamed(c, w, z, levels[w := depth], levels[z := depth], depth + 1);
  }

  lemma {:induction false} KeysRelated(R: Relation, f: Formula, g: Formula, levels: Levels, depth: nat)
    requires Congruence(R) && Scoped(levels, depth) && KeyOf(f, levels, depth) == KeyOf(g, levels, depth)
    ensures R(f, g)
    decreases Size(f), 1
  {
    match f
    case AtomF(a) => AtomExact(a, g.atom, levels, depth);
    case Neg(h) => KeysRelated(R, h, g.inner, levels, depth);
    case And(fs) => PartsRelated(R, f, g, levels, depth);
    case Or(fs) => PartsRelated(R, f, g, levels, depth);
    case Implies(a, b) =>
      KeysRelated(R, a, g.lhs, levels, depth);
      KeysRelated(R, b, g.rhs, levels, depth);
    case Iff(a, b) => IffRelated(R, f, g, levels, depth);
    case Forall(v, b) => BodiesRelated(R, f, g, levels, depth);
    case Exists(v, b) => BodiesRelated(R, f, g, levels, depth);
    case True =>
    case False =>
  }

  lemma {:induction false} IffRelated(R: Relation, f: Formula, g: Formula, levels: Levels, depth: nat)
    requires Congruence(R) && Scoped(levels, depth) && KeyOf(f, levels, depth) == KeyOf(g, levels, depth)
    requires f.Iff? && g.Iff?
    ensures R(f, g)
    decreases Size(f), 0
  {
    IffKeys(f, levels, g, levels, depth);
    if KeyOf(f.lhs, levels, depth) == KeyOf(g.lhs, levels, depth)
      && KeyOf(f.rhs, levels, depth) == KeyOf(g.rhs, levels, depth) {
      KeysRelated(R, f.lhs, g.lhs, levels, depth);
      KeysRelated(R, f.rhs, g.rhs, levels, depth);
    } else {
      KeysRelated(R, f.lhs, g.rhs, levels, depth);
      KeysRelated(R, f.rhs, g.lhs, levels, depth);
      assert R(f, Iff(g.rhs, g.lhs)) && R(Iff(g.rhs, g.lhs), g);
    }
  }

  lemma {:induction false} PartsRelated(R: Relation, f: Formula, g: Formula, levels: Levels, depth: nat)
    requires Congruence(R) && Scoped(levels, depth) && KeyOf(f, levels, depth) == KeyOf(g, levels, depth)
    requires (f.And? && g.And?) || (f.Or? && g.Or?)
    ensures R(f, g)
    decreases Size(f), 0
  {
    var fs, gs := f.parts, g.parts;
    var pi := BijectionExists(KeysOf(fs, levels, depth), KeysOf(gs, levels, depth));
    var hs := seq(|fs|, i requires 0 <= i < |fs| => gs[pi[i]]);
    forall i | 0 <= i < |fs| ensures R(fs[i], hs[i]) {
      SizesAt(fs, i);
      KeysRelated(R, fs[i], hs[i], levels, depth);
    }
    PermutedRelated(R, fs, hs, gs, pi);
  }

  lemma PermutedRelated(R: Relation, fs: seq<Formula>, hs: seq<Formula>, gs: seq<Formula>, pi: seq<nat>)
    requires Congruence(R) && Pointwise(R, fs, hs) && Bijection(hs, gs, pi)
    ensures R(And(fs), And(gs)) && R(Or(fs), Or(gs))
  {
    BijectionCounts(hs, gs, pi);
    assert R(And(fs), And(hs)) && R(And(hs), And(gs)) && R(Or(fs), Or(hs)) && R(Or(hs), Or(gs));
  }

  lemma {:induction false} BodiesRelated(R: Relation, f: Formula, g: Formula, levels: Levels, depth: nat)
    requires Congruence(R) && Scoped(levels, depth) && KeyOf(f, levels, depth) == KeyOf(g, levels, depth)
    requires (f.Forall? && g.Forall?) || (f.Exists? && g.Exists?)
    ensures R(f, g)
    decreases Size(f), 0
  {
    var v, b, w, c := f.bound, f.body, g.bound, g.body;
    var z := SomeUnused(b, c);
    CommonBody(v, b, w, c, z, levels, depth);
    var x, y := RenameVar(b, v, z), RenameVar(c, w, z);
    KeysRelated(R, x, y, levels[z := depth], depth + 1);
    assert R(Forall(v, b), Forall(z, x)) && R(Forall(z, x), Forall(z, y)) && R(Forall(w, c), Forall(z, y));
    assert R(Exists(v, b), Exists(z, x)) && R(Exists(z, x), Exists(z, y)) && R(Exists(w, c), Exists(z, y));
  }

  /** Equality of keys is alpha-equivalence. */
  lemma AlphaExact(f: Formula, g: Formula)
    ensures AlphaEquiv(f, g) <==> LeastAlpha(f, g)
  {
    if AlphaEquiv(f, g) {
      forall R: Relation | Congruence(R) ensures R(f, g) { KeysRelated(R, f, g, map[], 0); }
    }
    if LeastAlpha(f, g) { LeastHasKeys(f, g); }
  }

  // ----- what equivalence says of the parts

  /** `pi` pairs every part on the left with its own equivalent part on the right. */
  ghost predicate PartsPaired(fs: seq<Formula>, gs: seq<Formula>, pi: seq<nat>) {
    && |pi| == |fs| == |gs|
    && (forall i :: 0 <= i < |pi| ==> pi[i] < |gs| && AlphaEquiv(fs[i], gs[pi[i]]))
    && (forall i, j :: 0 <= i < j < |pi| ==> pi[i] != pi[j])
  }

  lemma JunctionParts(f: Formula, g: Formula)
    requires (f.And? && g.And?) || (f.Or? && g.Or?)
    ensures AlphaEquiv(f, g) <==> exists pi: seq<nat> :: PartsPaired(f.parts, g.parts, pi)
  {
    var kf, kg := KeysOf(f.parts, map[], 0), KeysOf(g.parts, map[], 0);
    PairableIff(kf, kg);
    if pi: seq<nat> :| Bijection(kf, kg, pi) { assert PartsPaired(f.parts, g.parts, pi); }
    if pi: seq<nat> :| PartsPaired(f.parts, g.parts, pi) { assert Bijection(kf, kg, pi); }
  }

  /** Quantified formulas are equivalent exactly when their bodies are, renamed to a common unused
      variable, whichever it is. */
  lemma BodyParts(f: Formula, g: Formula, z: VarId)
    requires (f.Forall? && g.Forall?) || (f.Exists? && g.Exists?)
    requires Unused(z, f.body) && Unused(z, g.body)
    ensures AlphaEquiv(f, g) <==> AlphaEquiv(RenameVar(f.body, f.bound, z), RenameVar(g.body, g.bound, z))
  {
    var x, y := RenameVar(f.body, f.bound, z), RenameVar(g.body, g.bound, z);
    CommonBody(f.bound, f.body, g.bound, g.body, z, map[], 0);
    if AlphaEquiv(f, g) {
      forall R: Relation | Congruence(R) ensures R(x, y) { KeysRelated(R, x, y, map[z := 0], 1); }
      AlphaExact(x, y);
    }
    if AlphaEquiv(x, y) {
      AlphaExact(x, y);
      LeastHasKeys(x, y);
    }
  }

  /** The answer, connective by connective; formulas with different ones are never equivalent. */
  lemma AlphaParts(f: Formula, g: Formula)
    ensures AlphaEquiv(f, g) <==>
      match f
      case AtomF(Pred(_, _)) => g == f
      case AtomF(Eq(s, t)) => g == f || g == AtomF(Eq(t, s))
      case Neg(h) => g.Neg? && AlphaEquiv(h, g.inner)
      case And(fs) => g.And? && exists pi: seq<nat> :: PartsPaired(fs, g.parts, pi)
      case Or(fs) => g.Or? && exists pi: seq<nat> :: PartsPaired(fs, g.parts, pi)
      case Implies(a, b) => g.Implies? && AlphaEquiv(a, g.lhs) && AlphaEquiv(b, g.rhs)
      case Iff(a, b) => g.Iff? &&
        ((AlphaEquiv(a, g.lhs) && AlphaEquiv(b, g.rhs)) || (AlphaEquiv(a, g.rhs) && AlphaEquiv(b, g.lhs)))
      case Forall(v, b) => g.Forall? && forall z :: Unused(z, b) && Unused(z, g.body) ==>
        AlphaEquiv(RenameVar(b, v, z), RenameVar(g.body, g.bound, z))
      case Exists(v, b) => g.Exists? && forall z :: Unused(z, b) && Unused(z, g.body) ==>
        AlphaEquiv(RenameVar(b, v, z), RenameVar(g.body, g.bound, z))
      case True => g.True?
      case False => g.False?
  {
    match f
    case AtomF(a) => if g.AtomF? { AtomExact(a, g.atom, map[], 0); }
    case And(_) => if g.And? { JunctionParts(f, g); }
    case Or(_) => if g.Or? { JunctionParts(f, g); }
    case Iff(_, _) => if g.Iff? { IffKeys(f, map[], g, map[], 0); }
    case Forall(_, _) => if g.Forall? { EveryBody(f, g); }
    case Exists(_, _) => if g.Exists? { EveryBody(f, g); }
    case _ =>
  }

  lemma EveryBody(f: Formula, g: Formula)
    requires (f.Forall? && g.Forall?) || (f.Exists? && g.Exists?)
    ensures AlphaEquiv(f, g) <==> forall z :: Unused(z, f.body) && Unused(z, g.body) ==>
      AlphaEquiv(RenameVar(f.body, f.bound, z), RenameVar(g.body, g.bound, z))
  {
    forall z | Unused(z, f.body) && Unused(z, g.body)
      ensures AlphaEquiv(f, g) <==> AlphaEquiv(RenameVar(f.body, f.bound, z), RenameVar(g.body, g.bound, z))
    {
      BodyParts(f, g, z);
    }
    var z := SomeUnused(f.body, g.body);
  }

  /** `alpha_equiv`. */
  method DecideAlpha(a: Formula, b: Formula) returns (r: bool)
    ensures r == AlphaEquiv(a, b)
    ensures r <==> LeastAlpha(a, b)
  {
    var s := new Scopes();
    r := s.FormulaEq(a, b);
    AlphaExact(a, b);
  }
}
