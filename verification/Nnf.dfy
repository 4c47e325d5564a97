/** Negation normal form: the recursion behind `to_nnf`, its memoised and its bounded forms. */
module NormalForm {
  import opened Fol
  import opened Substitution

  predicate IsNnf(f: Formula) {
    match f
    case Neg(g) => g.AtomF?
    case And(fs) => forall i :: 0 <= i < |fs| ==> IsNnf(fs[i])
    case Or(fs) => forall i :: 0 <= i < |fs| ==> IsNnf(fs[i])
    case Implies(_, _) => false
    case Iff(_, _) => false
    case Forall(_, b) => IsNnf(b)
    case Exists(_, b) => IsNnf(b)
    case _ => true
  }

  /** No two binders of `f` bind the same variable: what `lower_fof_formula` establishes. */
  predicate Distinct(f: Formula) {
    match f
    case Neg(g) => Distinct(g)
    case And(fs) => DistinctAll(fs)
    case Or(fs) => DistinctAll(fs)
    case Implies(a, b) => Distinct(a) && Distinct(b) && BoundVars(a) !! BoundVars(b)
    case Iff(a, b) => Distinct(a) && Distinct(b) && BoundVars(a) !! BoundVars(b)
    case Forall(v, b) => v !in BoundVars(b) && Distinct(b)
    case Exists(v, b) => v !in BoundVars(b) && Distinct(b)
    case _ => true
  }

  predicate DistinctAll(fs: seq<Formula>) {
    && (forall i :: 0 <= i < |fs| ==> Distinct(fs[i]))
    && (forall i, j :: 0 <= i < j < |fs| ==> BoundVars(fs[i]) !! BoundVars(fs[j]))
  }

  /** What survives of `Distinct` when NNF copies the sides of an equivalence: binders are
      distinct along every path, and sibling disjuncts never share one. */
  predicate OrApart(f: Formula) {
    match f
    case Neg(g) => OrApart(g)
    case And(fs) => forall i :: 0 <= i < |fs| ==> OrApart(fs[i])
    case Or(fs) =>
      && (forall i :: 0 <= i < |fs| ==> OrApart(fs[i]))
      && (forall i, j :: 0 <= i < j < |fs| ==> BoundVars(fs[i]) !! BoundVars(fs[j]))
    case Implies(a, b) => OrApart(a) && OrApart(b)
    case Iff(a, b) => OrApart(a) && OrApart(b)
    case Forall(v, b) => v !in BoundVars(b) && OrApart(b)
    case Exists(v, b) => v !in BoundVars(b) && OrApart(b)
    case _ => true
  }

  /** `nnf` without its cache; `negated` says an odd number of negations is pending. */
  function Nnf(f: Formula, negated: bool): Formula
    decreases f
  {
    match f
    case AtomF(_) => if negated then Neg(f) else f
    case True => if negated then False else True
    case False => if negated then True else False
    case Neg(g) => Nnf(g, !negated)
    case And(fs) => if negated then MkOr(NnfAll(fs, true)) else MkAnd(NnfAll(fs, false))
    case Or(fs) => if negated then MkAnd(NnfAll(fs, true)) else MkOr(NnfAll(fs, false))
    case Implies(a, b) =>
      if negated then MkAnd([Nnf(a, false), Nnf(b, true)]) else MkOr([Nnf(a, true), Nnf(b, false)])
    case Iff(a, b) =>
      if negated then
        MkAnd([MkOr([Nnf(a, false), Nnf(b, false)]), MkOr([Nnf(a, true), Nnf(b, true)])])
      else
        MkAnd([MkOr([Nnf(a, true), Nnf(b, false)]), MkOr([Nnf(a, false), Nnf(b, true)])])
    case Forall(v, b) => if negated then Exists(v, Nnf(b, true)) else Forall(v, Nnf(b, false))
    case Exists(v, b) => if negated then Forall(v, Nnf(b, true)) else Exists(v, Nnf(b, false))
  }

  function NnfAll(fs: seq<Formula>, negated: bool): seq<Formula>
    decreases fs
  {
    seq(|fs|, i requires 0 <= i < |fs| => Nnf(fs[i], negated))
  }

  function ToNnf(f: Formula): Formula { Nnf(f, false) }

  /** NNF conversion preserves truth in every structure under every assignment. */
  lemma {:induction false} NnfMeaning<D(!new)>(m: Structure<D>, e: Env<D>, f: Formula, negated: bool)
    ensures Holds(m, e, Nnf(f, negated)) == (Holds(m, e, f) != negated)
    decreases f, 0
  {
    match f
    case And(fs) => NnfAllMeaning(m, e, fs, negated);
    case Or(fs) => NnfAllMeaning(m, e, fs, negated);
    case Neg(g) => NnfMeaning(m, e, g, !negated);
    case Implies(a, b) => NnfBoth(m, e, a); NnfBoth(m, e, b); PairMeaning(m, e, f, negated);
    case Iff(a, b) => NnfBoth(m, e, a); NnfBoth(m, e, b); PairMeaning(m, e, f, negated);
    case Forall(v, b) => forall d: D { NnfMeaning(m, Upd(e, v, d), b, negated); }
    case Exists(v, b) => forall d: D { NnfMeaning(m, Upd(e, v, d), b, negated); }
    case _ =>
  }

  lemma {:induction false} NnfBoth<D(!new)>(m: Structure<D>, e: Env<D>, f: Formula)
    ensures Holds(m, e, Nnf(f, false)) == Holds(m, e, f)
    ensures Holds(m, e, Nnf(f, true)) == !Holds(m, e, f)
    decreases f, 1
  {
    NnfMeaning(m, e, f, false);
    NnfMeaning(m, e, f, true);
  }

  lemma {:induction false} NnfAllMeaning<D(!new)>(m: Structure<D>, e: Env<D>, fs: seq<Formula>, negated: bool)
    ensures forall i :: 0 <= i < |fs| ==> Holds(m, e, NnfAll(fs, negated)[i]) == (Holds(m, e, fs[i]) != negated)
    decreases fs
  {
    forall i | 0 <= i < |fs| ensures Holds(m, e, NnfAll(fs, negated)[i]) == (Holds(m, e, fs[i]) != negated) {
      NnfMeaning(m, e, fs[i], negated);
    }
  }

  lemma PairHolds<D(!new)>(m: Structure<D>, e: Env<D>, x: Formula, y: Formula)
    ensures Holds(m, e, MkAnd([x, y])) == (Holds(m, e, x) && Holds(m, e, y))
    ensures Holds(m, e, MkOr([x, y])) == (Holds(m, e, x) || Holds(m, e, y))
  {
    assert [x, y][0] == x && [x, y][1] == y;
  }

  lemma {:induction false} PairMeaning<D(!new)>(m: Structure<D>, e: Env<D>, f: Formula, negated: bool)
    requires f.Implies? || f.Iff?
    requires Holds(m, e, Nnf(f.lhs, false)) == Holds(m, e, f.lhs)
      && Holds(m, e, Nnf(f.lhs, true)) == !Holds(m, e, f.lhs)
    requires Holds(m, e, Nnf(f.rhs, false)) == Holds(m, e, f.rhs)
      && Holds(m, e, Nnf(f.rhs, true)) == !Holds(m, e, f.rhs)
    ensures Holds(m, e, Nnf(f, negated)) == (Holds(m, e, f) != negated)
  {
    var a0, a1, b0, b1 := Nnf(f.lhs, false), Nnf(f.lhs, true), Nnf(f.rhs, false), Nnf(f.rhs, true);
    PairHolds(m, e, a0, b1); PairHolds(m, e, a1, b0);
    PairHolds(m, e, a0, b0); PairHolds(m, e, a1, b1);
    PairHolds(m, e, MkOr([a0, b0]), MkOr([a1, b1]));
    PairHolds(m, e, MkOr([a1, b0]), MkOr([a0, b1]));
  }

  /** No variable that NNF turns into an existential one occurs below the nesting cut-off of
      substitution within its scope; under an equivalence a quantifier becomes both kinds. */
  predicate Shallow(f: Formula, negated: bool) {
    match f
    case Neg(g) => Shallow(g, !negated)
    case And(fs) => forall i :: 0 <= i < |fs| ==> Shallow(fs[i], negated)
    case Or(fs) => forall i :: 0 <= i < |fs| ==> Shallow(fs[i], negated)
    case Implies(a, b) => Shallow(a, !negated) && Shallow(b, negated)
    case Iff(a, b) => Shallow(a, true) && Shallow(a, false) && Shallow(b, true) && Shallow(b, false)
    case Forall(v, b) => (negated ==> v !in DeepVarsOf(b)) && Shallow(b, negated)
    case Exists(v, b) => (!negated ==> v !in DeepVarsOf(b)) && Shallow(b, negated)
    case _ => true
  }

  lemma {:induction false} NnfShallow(f: Formula, negated: bool)
    ensures Shallow(Nnf(f, negated), false) == Shallow(f, negated)
    decreases f, 0
  {
    match f
    case Neg(g) => NnfShallow(g, !negated);
    case And(fs) => NnfAllShallow(fs, negated);
    case Or(fs) => NnfAllShallow(fs, negated);
    case Implies(a, b) =>
      NnfShallow(a, !negated);
      NnfShallow(b, negated);
      PairShallow(Nnf(a, !negated), Nnf(b, negated));
    case Iff(a, b) =>
      NnfShallow(a, true); NnfShallow(a, false); NnfShallow(b, true); NnfShallow(b, false);
      var x, y := MkOr([Nnf(a, !negated), Nnf(b, false)]), MkOr([Nnf(a, negated), Nnf(b, true)]);
      PairShallow(Nnf(a, !negated), Nnf(b, false));
      PairShallow(Nnf(a, negated), Nnf(b, true));
      PairShallow(x, y);
      assert Nnf(f, negated) == MkAnd([x, y]);
    case Forall(v, b) => NnfShallow(b, negated); NnfShape(b, negated, 0);
    case Exists(v, b) => NnfShallow(b, negated); NnfShape(b, negated, 0);
    case _ =>
  }

  lemma PairShallow(x: Formula, y: Formula)
    ensures Shallow(MkAnd([x, y]), false) == (Shallow(x, false) && Shallow(y, false)) == Shallow(MkOr([x, y]), false)
  {
    assert [x, y][0] == x && [x, y][1] == y;
  }

  lemma {:induction false} NnfAllShallow(fs: seq<Formula>, negated: bool)
    ensures Shallow(MkAnd(NnfAll(fs, negated)), false) == Shallow(And(fs), negated)
    ensures Shallow(MkOr(NnfAll(fs, negated)), false) == Shallow(And(fs), negated)
    decreases fs
  {
    var gs := NnfAll(fs, negated);
    forall i | 0 <= i < |fs| ensures Shallow(gs[i], false) == Shallow(fs[i], negated) { NnfShallow(fs[i], negated); }
    assert Shallow(And(gs), false) == Shallow(And(fs), negated) == Shallow(Or(gs), false);
  }

  /** `r` is in NNF over the variables and symbols of `f`. */
  ghost predicate NnfOf(r: Formula, f: Formula, n: SymbolId) {
    && IsNnf(r)
    && FreeVars(r) == FreeVars(f)
    && BoundVars(r) == BoundVars(f)
    && DeepVarsOf(r) == DeepVarsOf(f)
    && (SymsBelow(f, n) ==> SymsBelow(r, n))
  }

  /** Shape of the result: it is in NNF, keeps the variables and symbols, and never puts one
      bound variable into two sibling disjuncts. */
  lemma {:induction false} NnfShape(f: Formula, negated: bool, n: SymbolId)
    ensures NnfOf(Nnf(f, negated), f, n)
    ensures Distinct(f) ==> OrApart(Nnf(f, negated))
    decreases f, 0
  {
    match f
    case AtomF(_) =>
    case True =>
    case False =>
    case Neg(g) => NnfShape(g, !negated, n);
    case And(fs) => NnfAllShape(fs, negated, n);
    case Or(fs) => NnfAllShape(fs, negated, n);
    case Implies(a, b) =>
      NnfShape(a, !negated, n); NnfShape(b, negated, n);
      PairShape(Nnf(a, !negated), a, Nnf(b, negated), b, n);
    case Iff(a, b) =>
      NnfShape(a, negated, n); NnfShape(a, !negated, n); NnfShape(b, false, n); NnfShape(b, true, n);
      PairShape(Nnf(a, !negated), a, Nnf(b, false), b, n);
      PairShape(Nnf(a, negated), a, Nnf(b, true), b, n);
      IffShape(MkOr([Nnf(a, !negated), Nnf(b, false)]), MkOr([Nnf(a, negated), Nnf(b, true)]), a, b, n);
    case Forall(v, b) => NnfShape(b, negated, n);
    case Exists(v, b) => NnfShape(b, negated, n);
  }

  lemma IffShape(x: Formula, y: Formula, a: Formula, b: Formula, n: SymbolId)
    requires NnfOf(x, Implies(a, b), n) && NnfOf(y, Implies(a, b), n)
    ensures NnfOf(MkAnd([x, y]), Iff(a, b), n)
    ensures OrApart(x) && OrApart(y) ==> OrApart(MkAnd([x, y]))
  {
    PairShape(x, Implies(a, b), y, Implies(a, b), n);
  }

  lemma PairShape(x: Formula, a: Formula, y: Formula, b: Formula, n: SymbolId)
    requires NnfOf(x, a, n) && NnfOf(y, b, n)
    ensures NnfOf(MkAnd([x, y]), Implies(a, b), n) && NnfOf(MkOr([x, y]), Implies(a, b), n)
    ensures OrApart(x) && OrApart(y) ==> OrApart(MkAnd([x, y]))
    ensures OrApart(x) && OrApart(y) && BoundVars(a) !! BoundVars(b) ==> OrApart(MkOr([x, y]))
  {
    var fs := [x, y];
    PairNnf(fs, a, b, n);
    if OrApart(x) && OrApart(y) { PairApart(fs); }
  }

  lemma PairNnf(fs: seq<Formula>, a: Formula, b: Formula, n: SymbolId)
    requires |fs| == 2 && NnfOf(fs[0], a, n) && NnfOf(fs[1], b, n)
    ensures NnfOf(And(fs), Implies(a, b), n) && NnfOf(Or(fs), Implies(a, b), n)
  {
    PairVars(fs);
  }

  lemma PairApart(fs: seq<Formula>)
    requires |fs| == 2 && OrApart(fs[0]) && OrApart(fs[1])
    ensures OrApart(And(fs)) && (BoundVars(fs[0]) !! BoundVars(fs[1]) ==> OrApart(Or(fs)))
  {
    forall i | 0 <= i < |fs| ensures OrApart(fs[i]) { assert i == 0 || i == 1; }
    if BoundVars(fs[0]) !! BoundVars(fs[1]) {
      forall i, j | 0 <= i < j < |fs| ensures BoundVars(fs[i]) !! BoundVars(fs[j]) { assert i == 0 && j == 1; }
    }
  }

  lemma PairVars(fs: seq<Formula>)
    requires |fs| == 2
    ensures FreeVars(And(fs)) == FreeVars(fs[0]) + FreeVars(fs[1]) == FreeVars(Or(fs))
    ensures BoundVars(And(fs)) == BoundVars(fs[0]) + BoundVars(fs[1]) == BoundVars(Or(fs))
    ensures DeepVarsOf(And(fs)) == DeepVarsOf(fs[0]) + DeepVarsOf(fs[1]) == DeepVarsOf(Or(fs))
  {
  }

  lemma {:induction false} NnfAllShape(fs: seq<Formula>, negated: bool, n: SymbolId)
    ensures NnfOf(MkAnd(NnfAll(fs, negated)), And(fs), n) && NnfOf(MkOr(NnfAll(fs, negated)), Or(fs), n)
    ensures NnfOf(MkAnd(NnfAll(fs, negated)), Or(fs), n) && NnfOf(MkOr(NnfAll(fs, negated)), And(fs), n)
    ensures DistinctAll(fs) ==> OrApart(MkAnd(NnfAll(fs, negated))) && OrApart(MkOr(NnfAll(fs, negated)))
    decreases fs
  {
    var gs := NnfAll(fs, negated);
    forall i | 0 <= i < |fs|
      ensures NnfOf(gs[i], fs[i], n)
      ensures Distinct(fs[i]) ==> OrApart(gs[i])
    {
      NnfShape(fs[i], negated, n);
    }
    assert FreeVars(And(gs)) == FreeVars(And(fs)) == FreeVars(Or(gs)) == FreeVars(Or(fs));
    assert BoundVars(And(gs)) == BoundVars(And(fs)) == BoundVars(Or(gs)) == BoundVars(Or(fs));
    assert DeepVarsOf(And(gs)) == DeepVarsOf(And(fs)) == DeepVarsOf(Or(gs)) == DeepVarsOf(Or(fs));
    if |gs| == 1 {
      assert FreeVars(And(gs)) == FreeVars(gs[0]) && BoundVars(And(gs)) == BoundVars(gs[0]);
      assert DeepVarsOf(And(gs)) == DeepVarsOf(gs[0]);
    }
  }

  // ----- the memo map of `nnf`

  class NnfCache {
    var entries: map<(Formula, bool), Formula>

    ghost predicate Valid()
      reads this
    {
      forall k :: k in entries ==> entries[k] == Nnf(k.0, k.1)
    }

    constructor ()
      ensures Valid()
    {
      entries := map[];
    }

    /** Conversion through the cache returns what the uncached recursion returns. */
    method Convert(f: Formula, negated: bool) returns (r: Formula)
      requires Valid()
      modifies this
      ensures Valid() && r == Nnf(f, negated)
      decreases f, 1
    {
      var key := (f, negated);
      if key in entries { return entries[key]; }
      match f {
        case AtomF(_) => r := if negated then Neg(f) else f;
        case True => r := if negated then False else True;
        case False => r := if negated then True else False;
        case Neg(g) => r := Convert(g, !negated);
        case And(fs) =>
          var gs := ConvertAll(fs, negated);
          r := if negated then MkOr(gs) else MkAnd(gs);
        case Or(fs) =>
          var gs := ConvertAll(fs, negated);
          r := if negated then MkAnd(gs) else MkOr(gs);
        case Implies(a, b) =>
          var x := Convert(a, !negated);
          var y := Convert(b, negated);
          r := if negated then MkAnd([x, y]) else MkOr([x, y]);
        case Iff(a, b) =>
          var x1 := Convert(a, !negated);
          var y1 := Convert(b, false);
          var x2 := Convert(a, negated);
          var y2 := Convert(b, true);
          r := MkAnd([MkOr([x1, y1]), MkOr([x2, y2])]);
        case Forall(v, b) =>
          var g := Convert(b, negated);
          r := if negated then Exists(v, g) else Forall(v, g);
        case Exists(v, b) =>
          var g := Convert(b, negated);
          r := if negated then Forall(v, g) else Exists(v, g);
      }
      entries := entries[key := r];
    }

    method ConvertAll(fs: seq<Formula>, negated: bool) returns (gs: seq<Formula>)
      requires Valid()
      modifies this
      ensures Valid() && gs == NnfAll(fs, negated)
      decreases fs, 0
    {
      gs := [];
      for i := 0 to |fs|
        invariant Valid() && |gs| == i
        invariant forall j :: 0 <= j < i ==> gs[j] == Nnf(fs[j], negated)
      {
        var g := Convert(fs[i], negated);
        gs := gs + [g];
      }
    }
  }
}
