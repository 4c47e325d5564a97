/** `strip_forall`: dropping the universal quantifiers of a Skolemized formula. */
module Stripping {
  import opened Fol
  import opened NormalForm
  import opened Skolemization
  import opened Substitution

  function Strip(f: Formula): Formula {
    match f
    case Forall(_, b) => Strip(b)
    case And(fs) => MkAnd(seq(|fs|, i requires 0 <= i < |fs| => Strip(fs[i])))
    case Or(fs) => MkOr(seq(|fs|, i requires 0 <= i < |fs| => Strip(fs[i])))
    case Neg(g) => Neg(Strip(g))
    case _ => f
  }

  /** The pipeline's inputs to the stripping pass. */
  ghost predicate Strippable(f: Formula) {
    IsNnf(f) && ExistsFree(f) && OrApart(f) && FreeVars(f) !! BoundVars(f)
  }

  /** Quantifier-free formula in negation normal form. */
  predicate IsMatrix(f: Formula) {
    match f
    case Neg(g) => g.AtomF?
    case And(fs) => forall i :: 0 <= i < |fs| ==> IsMatrix(fs[i])
    case Or(fs) => forall i :: 0 <= i < |fs| ==> IsMatrix(fs[i])
    case AtomF(_) => true
    case True => true
    case False => true
    case _ => false
  }

  lemma {:induction false} StripShape(f: Formula, n: SymbolId)
    requires IsNnf(f) && ExistsFree(f)
    ensures IsMatrix(Strip(f)) && FreeVars(Strip(f)) <= FreeVars(f) + BoundVars(f)
    ensures SymsBelow(f, n) ==> SymsBelow(Strip(f), n)
    decreases f
  {
    match f
    case Forall(_, b) => StripShape(b, n);
    case And(fs) => forall i | 0 <= i < |fs| { StripShape(fs[i], n); } StripPartsShape(f, n);
    case Or(fs) => forall i | 0 <= i < |fs| { StripShape(fs[i], n); } StripPartsShape(f, n);
    case _ =>
  }

  lemma StripPartsShape(f: Formula, n: SymbolId)
    requires f.And? || f.Or?
    requires forall i :: 0 <= i < |f.parts| ==>
      && IsMatrix(Strip(f.parts[i])) && FreeVars(Strip(f.parts[i])) <= FreeVars(f.parts[i]) + BoundVars(f.parts[i])
      && (SymsBelow(f.parts[i], n) ==> SymsBelow(Strip(f.parts[i]), n))
    ensures IsMatrix(Strip(f)) && FreeVars(Strip(f)) <= FreeVars(f) + BoundVars(f)
    ensures SymsBelow(f, n) ==> SymsBelow(Strip(f), n)
  {
    var fs := f.parts;
    var gs := seq(|fs|, i requires 0 <= i < |fs| => Strip(fs[i]));
    assert forall i :: 0 <= i < |fs| ==> gs[i] == Strip(fs[i]);
    assert FreeVars(And(gs)) <= FreeVars(f) + BoundVars(f);
    if |gs| == 1 { assert FreeVars(And(gs)) == FreeVars(gs[0]); }
  }

  /** A true formula stays true after stripping, whatever its bound variables are assigned. */
  lemma {:induction false} StripKeeps<D(!new)>(m: Structure<D>, e: Env<D>, e2: Env<D>, f: Formula)
    requires IsNnf(f) && ExistsFree(f) && Holds(m, e, f) && AgreeOn(e, e2, FreeVars(f))
    ensures Holds(m, e2, Strip(f))
    decreases f
  {
    match f
    case Forall(v, b) => StripKeeps(m, Upd(e, v, e2(v)), e2, b);
    case And(fs) => forall i | 0 <= i < |fs| ensures Holds(m, e2, Strip(fs[i])) { StripKeeps(m, e, e2, fs[i]); }
    case Or(fs) =>
      var i :| 0 <= i < |fs| && Holds(m, e, fs[i]);
      StripKeeps(m, e, e2, fs[i]);
      var gs := seq(|fs|, j requires 0 <= j < |fs| => Strip(fs[j]));
      assert gs[i] == Strip(fs[i]);
    case Neg(g) => assert Strip(f) == f; HoldsAgree(m, m, e, e2, f, 0);
    case AtomF(_) => HoldsAgree(m, m, e, e2, f, 0);
    case _ =>
  }

  /** A false formula is falsified after stripping by some choice of its bound variables;
      sibling disjuncts get their choices independently because they share no binder. */
  lemma {:induction false} StripRefutes<D(!new)>(m: Structure<D>, e: Env<D>, f: Formula) returns (e2: Env<D>)
    requires Strippable(f) && !Holds(m, e, f)
    ensures forall x :: x !in BoundVars(f) ==> e2(x) == e(x)
    ensures !Holds(m, e2, Strip(f))
    decreases f, 0
  {
    match f
    case Forall(v, b) =>
      var d :| !Holds(m, Upd(e, v, d), b);
      e2 := StripRefutes(m, Upd(e, v, d), b);
    case And(fs) =>
      var i :| 0 <= i < |fs| && !Holds(m, e, fs[i]);
      assert FreeVars(fs[i]) <= FreeVars(f) && BoundVars(fs[i]) <= BoundVars(f);
      e2 := StripRefutes(m, e, fs[i]);
      var gs := seq(|fs|, j requires 0 <= j < |fs| => Strip(fs[j]));
      assert gs[i] == Strip(fs[i]);
    case Or(fs) =>
      DisjunctsApart(fs);
      e2 := StripRefutesAll(m, e, fs, |fs|);
      assert fs[..|fs|] == fs;
    case Neg(g) =>
      e2 := e;
      assert Strip(f) == f;
    case _ => e2 := e;
  }

  /** No disjunct binds a variable that another one mentions. */
  ghost predicate ScopesApart(fs: seq<Formula>) {
    && (forall i :: 0 <= i < |fs| ==> Strippable(fs[i]))
    && (forall i, j :: 0 <= i < |fs| && 0 <= j < |fs| && i != j ==>
      BoundVars(fs[i]) !! FreeVars(fs[j]) + BoundVars(fs[j]))
  }

  lemma DisjunctsApart(fs: seq<Formula>)
    requires Strippable(Or(fs))
    ensures ScopesApart(fs)
  {
    forall i | 0 <= i < |fs| ensures FreeVars(fs[i]) <= FreeVars(Or(fs)) && BoundVars(fs[i]) <= BoundVars(Or(fs)) {}
  }

  lemma {:induction false} StripRefutesAll<D(!new)>(m: Structure<D>, e: Env<D>, fs: seq<Formula>, k: nat)
    returns (e2: Env<D>)
    requires ScopesApart(fs) && k <= |fs|
    requires forall j :: 0 <= j < |fs| ==> !Holds(m, e, fs[j])
    ensures forall x :: (forall j :: 0 <= j < k ==> x !in BoundVars(fs[j])) ==> e2(x) == e(x)
    ensures forall j :: 0 <= j < k ==> !Holds(m, e2, Strip(fs[j]))
    decreases fs, k
  {
    if k == 0 { return e; }
    var f := fs[k - 1];
    var e1 := StripRefutesAll(m, e, fs, k - 1);
    var ek := StripRefutes(m, e, f);
    e2 := (x: VarId) => if x in BoundVars(f) then ek(x) else e1(x);
    forall j | 0 <= j < k ensures !Holds(m, e2, Strip(fs[j])) {
      StripShape(fs[j], 0);
      HoldsAgree(m, m, if j < k - 1 then e1 else ek, e2, Strip(fs[j]), 0);
    }
  }

  /** Stripping preserves the universal closure of a Skolemized formula. */
  lemma StripCorrect<D(!new)>(m: Structure<D>, f: Formula)
    requires Strippable(f)
    ensures Valid(m, Strip(f)) <==> Valid(m, f)
  {
    if Valid(m, f) {
      forall e: Env<D> ensures Holds(m, e, Strip(f)) { StripKeeps(m, e, e, f); }
    }
    if !Valid(m, f) {
      var e: Env<D> :| !Holds(m, e, f);
      var e2 := StripRefutes(m, e, f);
    }
  }

  // ----- Skolemization and stripping together, at any nesting depth

  /** Replacing a variable by a term of the same value changes nothing, cut off or not. */
  lemma {:induction false} ApplyTermSame<D(!new)>(m: Structure<D>, e: Env<D>, v: VarId, s: Term, t: Term, depth: nat)
    requires e(v) == Val(m, e, s)
    ensures Val(m, e, ApplyTerm(v, s, t, depth)) == Val(m, e, t)
    decreases if depth > MAX_DEPTH then 0 else MAX_DEPTH + 1 - depth
  {
    if depth <= MAX_DEPTH {
      match t
      case Var(w) => if w == v && s.App? { ApplyTermSame(m, e, v, s, s, depth + 1); }
      case App(f, args) =>
        var us := ApplyTerm(v, s, t, depth).args;
        forall i | 0 <= i < |args| ensures Val(m, e, us[i]) == Val(m, e, args[i]) {
          ApplyTermSame(m, e, v, s, args[i], depth + 1);
        }
        assert Vals(m, e, us) == Vals(m, e, args);
    }
  }

  lemma ApplyAtomSame<D(!new)>(m: Structure<D>, e: Env<D>, v: VarId, s: Term, a: Atom)
    requires e(v) == Val(m, e, s)
    ensures AtomHolds(m, e, ApplyAtom(v, s, a)) == AtomHolds(m, e, a)
  {
    match a
    case Pred(p, args) =>
      var us := ApplyAtom(v, s, a).args;
      forall i | 0 <= i < |args| ensures Val(m, e, us[i]) == Val(m, e, args[i]) {
        ApplyTermSame(m, e, v, s, args[i], 0);
      }
      assert Vals(m, e, us) == Vals(m, e, args);
    case Eq(l, r) => ApplyTermSame(m, e, v, s, l, 0); ApplyTermSame(m, e, v, s, r, 0);
  }

  lemma {:induction false} AtomwiseSame<D(!new)>(m: Structure<D>, e: Env<D>, v: VarId, s: Term, f: Formula)
    requires IsNnf(f) && BoundVars(f) !! {v} + TermVars(s) && e(v) == Val(m, e, s)
    ensures Holds(m, e, Atomwise(v, s, f)) == Holds(m, e, f)
    decreases f, 1
  {
    match f
    case AtomF(a) => ApplyAtomSame(m, e, v, s, a);
    case Neg(g) => ApplyAtomSame(m, e, v, s, g.atom);
    case And(fs) => AtomwisePartsSame(m, e, v, s, f);
    case Or(fs) => AtomwisePartsSame(m, e, v, s, f);
    case Forall(w, b) => forall d: D { AtomwiseBodySame(m, e, v, s, w, d, b); }
    case Exists(w, b) => forall d: D { AtomwiseBodySame(m, e, v, s, w, d, b); }
    case _ =>
  }

  lemma {:induction false} AtomwisePartsSame<D(!new)>(m: Structure<D>, e: Env<D>, v: VarId, s: Term, f: Formula)
    requires (f.And? || f.Or?) && IsNnf(f) && BoundVars(f) !! {v} + TermVars(s) && e(v) == Val(m, e, s)
    ensures Holds(m, e, Atomwise(v, s, f)) == Holds(m, e, f)
    decreases f, 0
  {
    var fs, gs := f.parts, Atomwise(v, s, f).parts;
    forall i | 0 <= i < |fs| ensures Holds(m, e, gs[i]) == Holds(m, e, fs[i]) {
      assert BoundVars(fs[i]) <= BoundVars(f);
      AtomwiseSame(m, e, v, s, fs[i]);
    }
  }

  lemma {:induction false} AtomwiseBodySame<D(!new)>(m: Structure<D>, e: Env<D>, v: VarId, s: Term, w: VarId, d: D,
                                                     b: Formula)
    requires IsNnf(b) && BoundVars(b) + {w} !! {v} + TermVars(s) && e(v) == Val(m, e, s)
    ensures Holds(m, Upd(e, w, d), Atomwise(v, s, b)) == Holds(m, Upd(e, w, d), b)
    decreases b, 2
  {
    ValAgree(m, m, Upd(e, w, d), e, s, 0);
    AtomwiseSame(m, Upd(e, w, d), v, s, b);
  }

  /** The parts of a Skolemized list, each with its own first symbol. */
  lemma {:induction false} SkolemPart(fs: seq<Formula>, us: seq<VarId>, n: SymbolId, i: nat) returns (k: SymbolId)
    requires i < |fs|
    ensures n <= k && SkolemAll(fs, us, n).0[i] == Skolem(fs[i], us, k).0 && Size(fs[i]) <= Sizes(fs)
    decreases fs
  {
    SizesAt(fs, i);
    if i == 0 {
      k := n;
    } else {
      k := SkolemPart(fs[1..], us, Skolem(fs[0], us, n).1, i - 1);
    }
  }

  lemma StripMk<D(!new)>(m: Structure<D>, e: Env<D>, gs: seq<Formula>)
    ensures forall i :: 0 <= i < |gs| && !Holds(m, e, Strip(gs[i])) ==> !Holds(m, e, Strip(MkAnd(gs)))
    ensures (forall i :: 0 <= i < |gs| ==> !Holds(m, e, Strip(gs[i]))) ==> !Holds(m, e, Strip(MkOr(gs)))
  {
    var hs := seq(|gs|, i requires 0 <= i < |gs| => Strip(gs[i]));
    assert forall i :: 0 <= i < |gs| ==> hs[i] == Strip(gs[i]);
  }

  /** `e2` differs from `e` on the binders of `f` only and falsifies what becomes of `f`. */
  ghost predicate Falsifies<D(!new)>(m: Structure<D>, e: Env<D>, e2: Env<D>, f: Formula, us: seq<VarId>, n: SymbolId) {
    && (forall x :: x !in BoundVars(f) ==> e2(x) == e(x))
    && !Holds(m, e2, Strip(Skolem(f, us, n).0))
  }

  /** A false formula is falsified after Skolemization and stripping: an existential variable takes
      the value of its Skolem term, so it does not matter which of its occurrences are replaced. */
  lemma {:induction false} SkolemRefutes<D(!new)>(m: Structure<D>, e: Env<D>, f: Formula, us: seq<VarId>, n: SymbolId)
    returns (e2: Env<D>)
    requires Hygienic(f, us, n) && !Holds(m, e, f)
    ensures Falsifies(m, e, e2, f, us, n)
    decreases Size(f), 0
  {
    match f
    case Forall(v, b) =>
      HygienicBody(f, us, n);
      var d :| !Holds(m, Upd(e, v, d), b);
      e2 := SkolemRefutes(m, Upd(e, v, d), b, us + [v], n);
    case Exists(v, b) => e2 := ExistsRefutes(m, e, f, us, n);
    case And(fs) => e2 := ConjunctRefutes(m, e, f, us, n);
    case Or(fs) =>
      HygienicParts(f, us, n);
      e2 := SkolemRefutesAll(m, e, f, us, n, |fs|);
      StripMk(m, e2, SkolemAll(fs, us, n).0);
    case Neg(g) =>
      e2 := e;
      assert Strip(g) == g && Skolem(g, us, n).0 == g;
    case _ => e2 := e;
  }

  lemma {:induction false} ExistsRefutes<D(!new)>(m: Structure<D>, e: Env<D>, f: Formula, us: seq<VarId>, n: SymbolId)
    returns (e2: Env<D>)
    requires Hygienic(f, us, n) && f.Exists? && !Holds(m, e, f)
    ensures Falsifies(m, e, e2, f, us, n)
    decreases Size(f.body), 2
  {
    var v, b := f.bound, f.body;
    var s, g := HygienicStep(f, us, n);
    var e1 := Upd(e, v, Val(m, e, s));
    ValAgree(m, m, e1, e, s, 0);
    AtomwiseSame(m, e1, v, s, b);
    e2 := SkolemRefutes(m, e1, g, us, n + 1);
  }

  lemma {:induction false} ConjunctRefutes<D(!new)>(m: Structure<D>, e: Env<D>, f: Formula, us: seq<VarId>, n: SymbolId)
    returns (e2: Env<D>)
    requires Hygienic(f, us, n) && f.And? && !Holds(m, e, f)
    ensures Falsifies(m, e, e2, f, us, n)
    decreases Sizes(f.parts), 2
  {
    var fs := f.parts;
    var i :| 0 <= i < |fs| && !Holds(m, e, fs[i]);
    HygienicParts(f, us, n);
    var k := SkolemPart(fs, us, n, i);
    SymsMono(fs[i], n, k);
    e2 := SkolemRefutes(m, e, fs[i], us, k);
    StripMk(m, e2, SkolemAll(fs, us, n).0);
    assert BoundVars(fs[i]) <= BoundVars(f);
  }

  /** Sibling disjuncts get their choices independently: none binds what another one mentions,
      a variable left free by the nesting cut-off included. */
  lemma {:induction false} SkolemRefutesAll<D(!new)>(m: Structure<D>, e: Env<D>, f: Formula, us: seq<VarId>,
                                                     n: SymbolId, k: nat)
    returns (e2: Env<D>)
    requires Hygienic(f, us, n) && f.Or? && AllHygienic(f.parts, us, n) && k <= |f.parts| && !Holds(m, e, f)
    ensures forall x :: (forall j :: 0 <= j < k ==> x !in BoundVars(f.parts[j])) ==> e2(x) == e(x)
    ensures forall j :: 0 <= j < k ==> !Holds(m, e2, Strip(SkolemAll(f.parts, us, n).0[j]))
    decreases Sizes(f.parts), 1, k
  {
    var fs := f.parts;
    if k == 0 { return e; }
    var last := fs[k - 1];
    var e1 := SkolemRefutesAll(m, e, f, us, n, k - 1);
    var n1 := SkolemPart(fs, us, n, k - 1);
    SymsMono(last, n, n1);
    var ek := SkolemRefutes(m, e, last, us, n1);
    e2 := (x: VarId) => if x in BoundVars(last) then ek(x) else e1(x);
    forall j | 0 <= j < k ensures !Holds(m, e2, Strip(SkolemAll(fs, us, n).0[j])) {
      var nj := SkolemPart(fs, us, n, j);
      DisjunctMentions(f, us, n, nj, j);
      HoldsAgree(m, m, if j < k - 1 then e1 else ek, e2, Strip(SkolemAll(fs, us, n).0[j]), 0);
    }
  }

  /** What is left of a disjunct mentions no binder of another one. */
  lemma DisjunctMentions(f: Formula, us: seq<VarId>, n: SymbolId, nj: SymbolId, j: nat)
    requires Hygienic(f, us, n) && f.Or? && j < |f.parts| && n <= nj
    ensures var vars := FreeVars(Strip(Skolem(f.parts[j], us, nj).0));
      forall i :: 0 <= i < |f.parts| && i != j ==> vars !! BoundVars(f.parts[i])
  {
    var g := f.parts[j];
    HygienicParts(f, us, n);
    SymsMono(g, n, nj);
    SkolemShape(g, us, nj);
    StripShape(Skolem(g, us, nj).0, 0);
    forall i | 0 <= i < |f.parts| && i != j
      ensures BoundVars(f.parts[i]) !! BoundVars(g) && BoundVars(f.parts[i]) !! Elems(us) + FreeVars(g)
    {
      assert BoundVars(f.parts[i]) <= BoundVars(f) && FreeVars(g) <= FreeVars(f);
    }
  }
}
