/** First-order syntax as the prover stores it, and Tarskian truth over an arbitrary
    non-empty domain. Every meaning-preservation theorem of the project is stated
    against `Holds`. */
module Fol {

  type VarId = nat
  type SymbolId = nat

  datatype Term = Var(v: VarId) | App(sym: SymbolId, args: seq<Term>)

  datatype Atom = Pred(sym: SymbolId, args: seq<Term>) | Eq(left: Term, right: Term)

  datatype Formula =
    | AtomF(atom: Atom)
    | Neg(inner: Formula)
    | And(parts: seq<Formula>)
    | Or(parts: seq<Formula>)
    | Implies(lhs: Formula, rhs: Formula)
    | Iff(lhs: Formula, rhs: Formula)
    | Forall(bound: VarId, body: Formula)
    | Exists(bound: VarId, body: Formula)
    | True
    | False

  /** `Formula::and` and `Formula::or` unwrap a single element and keep everything else. */
  function MkAnd(fs: seq<Formula>): Formula {
    if |fs| == 1 then fs[0] else And(fs)
  }

  function MkOr(fs: seq<Formula>): Formula {
    if |fs| == 1 then fs[0] else Or(fs)
  }

  // ----- variables and symbols

  function TermVars(t: Term): set<VarId> {
    match t
    case Var(v) => {v}
    case App(_, args) => set i, x | 0 <= i < |args| && x in TermVars(args[i]) :: x
  }

  function AtomVars(a: Atom): set<VarId> {
    match a
    case Pred(_, args) => set i, x | 0 <= i < |args| && x in TermVars(args[i]) :: x
    case Eq(l, r) => TermVars(l) + TermVars(r)
  }

  function FreeVars(f: Formula): set<VarId> {
    match f
    case AtomF(a) => AtomVars(a)
    case Neg(g) => FreeVars(g)
    case And(fs) => set i, x | 0 <= i < |fs| && x in FreeVars(fs[i]) :: x
    case Or(fs) => set i, x | 0 <= i < |fs| && x in FreeVars(fs[i]) :: x
    case Implies(a, b) => FreeVars(a) + FreeVars(b)
    case Iff(a, b) => FreeVars(a) + FreeVars(b)
    case Forall(v, b) => FreeVars(b) - {v}
    case Exists(v, b) => FreeVars(b) - {v}
    case True => {}
    case False => {}
  }

  function BoundVars(f: Formula): set<VarId> {
    match f
    case Neg(g) => BoundVars(g)
    case And(fs) => set i, x | 0 <= i < |fs| && x in BoundVars(fs[i]) :: x
    case Or(fs) => set i, x | 0 <= i < |fs| && x in BoundVars(fs[i]) :: x
    case Implies(a, b) => BoundVars(a) + BoundVars(b)
    case Iff(a, b) => BoundVars(a) + BoundVars(b)
    case Forall(v, b) => {v} + BoundVars(b)
    case Exists(v, b) => {v} + BoundVars(b)
    case _ => {}
  }

  predicate Closed(f: Formula) { FreeVars(f) == {} }

  predicate TermSymsBelow(t: Term, n: SymbolId) {
    match t
    case Var(_) => true
    case App(s, args) => s < n && forall i :: 0 <= i < |args| ==> TermSymsBelow(args[i], n)
  }

  predicate AtomSymsBelow(a: Atom, n: SymbolId) {
    match a
    case Pred(s, args) => s < n && forall i :: 0 <= i < |args| ==> TermSymsBelow(args[i], n)
    case Eq(l, r) => TermSymsBelow(l, n) && TermSymsBelow(r, n)
  }

  /** Every symbol of `f` has an id below `n`: it was interned before `n`. */
  predicate SymsBelow(f: Formula, n: SymbolId) {
    match f
    case AtomF(a) => AtomSymsBelow(a, n)
    case Neg(g) => SymsBelow(g, n)
    case And(fs) => forall i :: 0 <= i < |fs| ==> SymsBelow(fs[i], n)
    case Or(fs) => forall i :: 0 <= i < |fs| ==> SymsBelow(fs[i], n)
    case Implies(a, b) => SymsBelow(a, n) && SymsBelow(b, n)
    case Iff(a, b) => SymsBelow(a, n) && SymsBelow(b, n)
    case Forall(_, b) => SymsBelow(b, n)
    case Exists(_, b) => SymsBelow(b, n)
    case _ => true
  }

  // ----- semantics

  /** A structure over the domain `D`; `D(00)` in the theorems makes the domain non-empty. */
  datatype Structure<!D> = Structure(fun: (SymbolId, seq<D>) -> D, pred: (SymbolId, seq<D>) -> bool)

  type Env<!D> = VarId -> D

  ghost function Val<D>(m: Structure<D>, e: Env<D>, t: Term): D
    decreases t
  {
    match t
    case Var(v) => e(v)
    case App(s, args) => m.fun(s, Vals(m, e, args))
  }

  ghost function Vals<D>(m: Structure<D>, e: Env<D>, ts: seq<Term>): seq<D>
    decreases ts
  {
    seq(|ts|, i requires 0 <= i < |ts| => Val(m, e, ts[i]))
  }

  ghost predicate AtomHolds<D>(m: Structure<D>, e: Env<D>, a: Atom) {
    match a
    case Pred(s, args) => m.pred(s, Vals(m, e, args))
    case Eq(l, r) => Val(m, e, l) == Val(m, e, r)
  }

  ghost function Upd<D>(e: Env<D>, v: VarId, d: D): Env<D> {
    (x: VarId) => if x == v then d else e(x)
  }

  ghost predicate Holds<D(!new)>(m: Structure<D>, e: Env<D>, f: Formula) {
    match f
    case AtomF(a) => AtomHolds(m, e, a)
    case Neg(g) => !Holds(m, e, g)
    case And(fs) => forall i :: 0 <= i < |fs| ==> Holds(m, e, fs[i])
    case Or(fs) => exists i :: 0 <= i < |fs| && Holds(m, e, fs[i])
    case Implies(a, b) => Holds(m, e, a) ==> Holds(m, e, b)
    case Iff(a, b) => Holds(m, e, a) <==> Holds(m, e, b)
    case Forall(v, b) => forall d :: Holds(m, Upd(e, v, d), b)
    case Exists(v, b) => exists d :: Holds(m, Upd(e, v, d), b)
    case True => true
    case False => false
  }

  /** `f` holds under every assignment: its universal closure is true in `m`. */
  ghost predicate Valid<D(!new)>(m: Structure<D>, f: Formula) {
    forall e: Env<D> :: Holds(m, e, f)
  }

  ghost predicate AgreeOn<D(!new)>(e1: Env<D>, e2: Env<D>, vars: set<VarId>) {
    forall x :: x in vars ==> e1(x) == e2(x)
  }

  /** `m2` interprets every symbol interned before `n` as `m1` does. */
  ghost predicate AgreeBelow<D(!new)>(m1: Structure<D>, m2: Structure<D>, n: SymbolId) {
    && (forall s: SymbolId, ds: seq<D> :: s < n ==> m1.fun(s, ds) == m2.fun(s, ds))
    && (forall s: SymbolId, ds: seq<D> :: s < n ==> m1.pred(s, ds) == m2.pred(s, ds))
  }

  lemma {:induction false} ValAgree<D(!new)>(m1: Structure<D>, m2: Structure<D>, e1: Env<D>, e2: Env<D>, t: Term,
                                      n: SymbolId)
    requires m1 == m2 || (TermSymsBelow(t, n) && AgreeBelow(m1, m2, n))
    requires AgreeOn(e1, e2, TermVars(t))
    ensures Val(m1, e1, t) == Val(m2, e2, t)
  {
    match t
    case Var(_) =>
    case App(_, args) =>
      forall i | 0 <= i < |args| ensures Val(m1, e1, args[i]) == Val(m2, e2, args[i]) {
        ValAgree(m1, m2, e1, e2, args[i], n);
      }
      assert Vals(m1, e1, args) == Vals(m2, e2, args);
  }

  lemma {:induction false} AtomAgree<D(!new)>(m1: Structure<D>, m2: Structure<D>, e1: Env<D>, e2: Env<D>, a: Atom,
                                       n: SymbolId)
    requires m1 == m2 || (AtomSymsBelow(a, n) && AgreeBelow(m1, m2, n))
    requires AgreeOn(e1, e2, AtomVars(a))
    ensures AtomHolds(m1, e1, a) == AtomHolds(m2, e2, a)
  {
    match a
    case Pred(_, args) =>
      forall i | 0 <= i < |args| ensures Val(m1, e1, args[i]) == Val(m2, e2, args[i]) {
        ValAgree(m1, m2, e1, e2, args[i], n);
      }
      assert Vals(m1, e1, args) == Vals(m2, e2, args);
    case Eq(l, r) =>
      ValAgree(m1, m2, e1, e2, l, n);
      ValAgree(m1, m2, e1, e2, r, n);
  }

  /** Truth depends only on the free variables and on the symbols that occur. */
  lemma {:induction false} HoldsAgree<D(!new)>(m1: Structure<D>, m2: Structure<D>, e1: Env<D>, e2: Env<D>, f: Formula,
                                        n: SymbolId)
    requires m1 == m2 || (SymsBelow(f, n) && AgreeBelow(m1, m2, n))
    requires AgreeOn(e1, e2, FreeVars(f))
    ensures Holds(m1, e1, f) == Holds(m2, e2, f)
    decreases f
  {
    match f
    case AtomF(a) => AtomAgree(m1, m2, e1, e2, a, n);
    case Neg(g) => HoldsAgree(m1, m2, e1, e2, g, n);
    case And(fs) =>
      forall i | 0 <= i < |fs| ensures Holds(m1, e1, fs[i]) == Holds(m2, e2, fs[i]) {
        HoldsAgree(m1, m2, e1, e2, fs[i], n);
      }
    case Or(fs) =>
      forall i | 0 <= i < |fs| ensures Holds(m1, e1, fs[i]) == Holds(m2, e2, fs[i]) {
        HoldsAgree(m1, m2, e1, e2, fs[i], n);
      }
    case Implies(a, b) => HoldsAgree(m1, m2, e1, e2, a, n); HoldsAgree(m1, m2, e1, e2, b, n);
    case Iff(a, b) => HoldsAgree(m1, m2, e1, e2, a, n); HoldsAgree(m1, m2, e1, e2, b, n);
    case Forall(v, b) =>
      forall d: D ensures Holds(m1, Upd(e1, v, d), b) == Holds(m2, Upd(e2, v, d), b) {
        HoldsAgree(m1, m2, Upd(e1, v, d), Upd(e2, v, d), b, n);
      }
    case Exists(v, b) =>
      forall d: D ensures Holds(m1, Upd(e1, v, d), b) == Holds(m2, Upd(e2, v, d), b) {
        HoldsAgree(m1, m2, Upd(e1, v, d), Upd(e2, v, d), b, n);
      }
    case True =>
    case False =>
  }

  lemma {:induction false} TermSymsMono(t: Term, n: SymbolId, k: SymbolId)
    requires TermSymsBelow(t, n) && n <= k
    ensures TermSymsBelow(t, k)
  {
    match t
    case Var(_) =>
    case App(_, args) =>
      forall i | 0 <= i < |args| ensures TermSymsBelow(args[i], k) { TermSymsMono(args[i], n, k); }
  }

  lemma {:induction false} SymsMono(f: Formula, n: SymbolId, k: SymbolId)
    requires SymsBelow(f, n) && n <= k
    ensures SymsBelow(f, k)
  {
    match f
    case AtomF(Pred(_, args)) =>
      forall i | 0 <= i < |args| ensures TermSymsBelow(args[i], k) { TermSymsMono(args[i], n, k); }
    case AtomF(Eq(l, r)) => TermSymsMono(l, n, k); TermSymsMono(r, n, k);
    case Neg(g) => SymsMono(g, n, k);
    case And(fs) => forall i | 0 <= i < |fs| ensures SymsBelow(fs[i], k) { SymsMono(fs[i], n, k); }
    case Or(fs) => forall i | 0 <= i < |fs| ensures SymsBelow(fs[i], k) { SymsMono(fs[i], n, k); }
    case Implies(a, b) => SymsMono(a, n, k); SymsMono(b, n, k);
    case Iff(a, b) => SymsMono(a, n, k); SymsMono(b, n, k);
    case Forall(_, b) => SymsMono(b, n, k);
    case Exists(_, b) => SymsMono(b, n, k);
    case _ =>
  }

  // ----- size: the number of nodes, literals counted by their atoms and negation signs

  function Size(f: Formula): (n: nat)
    ensures n >= 1
  {
    match f
    case Neg(g) => 1 + Size(g)
    case And(fs) => 1 + Sizes(fs)
    case Or(fs) => 1 + Sizes(fs)
    case Implies(a, b) => 1 + Size(a) + Size(b)
    case Iff(a, b) => 1 + Size(a) + Size(b)
    case Forall(_, b) => 1 + Size(b)
    case Exists(_, b) => 1 + Size(b)
    case _ => 1
  }

  function Sizes(fs: seq<Formula>): nat {
    if fs == [] then 0 else Size(fs[0]) + Sizes(fs[1..])
  }

  lemma {:induction false} SizesAt(fs: seq<Formula>, i: nat)
    requires i < |fs|
    ensures Size(fs[i]) <= Sizes(fs)
  {
    if i > 0 { SizesAt(fs[1..], i - 1); }
  }

  lemma MkSize(fs: seq<Formula>)
    ensures Size(MkAnd(fs)) <= 1 + Sizes(fs) && Size(MkOr(fs)) <= 1 + Sizes(fs)
  {
    if |fs| == 1 { SizesAt(fs, 0); }
  }

  lemma PairSize(x: Formula, y: Formula)
    ensures Size(MkAnd([x, y])) == Size(MkOr([x, y])) == 1 + Size(x) + Size(y)
  {
    assert [y][1..] == [] && Sizes([y]) == Size(y);
    assert [x, y][1..] == [y] && Sizes([x, y]) == Size(x) + Sizes([y]);
  }

  // ----- argument tuples: how fresh symbols applied to variables read an assignment

  function VarTerms(xs: seq<VarId>): seq<Term> {
    seq(|xs|, i requires 0 <= i < |xs| => Var(xs[i]))
  }

  /** Some element of the domain, which is never empty. */
  ghost function Anything<D(00)>(): D {
    var d: D :| true; d
  }

  /** The assignment that sends `xs[i]` to `ds[i]` and every other variable to `other`. */
  ghost function ArgEnv<D>(xs: seq<VarId>, ds: seq<D>, other: D): Env<D> {
    (x: VarId) => Lookup(xs, ds, x, other)
  }

  ghost function Lookup<D>(xs: seq<VarId>, ds: seq<D>, x: VarId, other: D): D {
    if xs == [] || ds == [] then other
    else if xs[0] == x then ds[0]
    else Lookup(xs[1..], ds[1..], x, other)
  }

  lemma {:induction false} LookupReads<D(!new)>(e: Env<D>, xs: seq<VarId>, ds: seq<D>, x: VarId, other: D)
    requires |ds| == |xs| && (forall i :: 0 <= i < |xs| ==> ds[i] == e(xs[i])) && x in xs
    ensures Lookup(xs, ds, x, other) == e(x)
  {
    if xs[0] != x { LookupReads(e, xs[1..], ds[1..], x, other); }
  }

  lemma ArgEnvAgrees<D(!new)>(m: Structure<D>, e: Env<D>, xs: seq<VarId>, other: D, vars: set<VarId>)
    requires forall x :: x in vars ==> x in xs
    ensures AgreeOn(ArgEnv(xs, Vals(m, e, VarTerms(xs)), other), e, vars)
  {
    forall x | x in vars ensures ArgEnv(xs, Vals(m, e, VarTerms(xs)), other)(x) == e(x) {
      var ds := Vals(m, e, VarTerms(xs));
      forall i | 0 <= i < |xs| ensures ds[i] == e(xs[i]) {
        assert ds[i] == Val(m, e, VarTerms(xs)[i]) == Val(m, e, Var(xs[i]));
      }
      LookupReads(e, xs, ds, x, other);
    }
  }
}
