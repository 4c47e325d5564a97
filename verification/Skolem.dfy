/** Skolemization with free-variable filtering, and its correctness over every domain. */
module Skolemization {
  import opened Wrappers
  import opened Fol
  import opened Substitution
  import opened NormalForm

  /** The in-scope universals that occur free in the body, first occurrences only. */
  function Filtered(us: seq<VarId>, fvs: set<VarId>, seen: set<VarId>): (r: seq<VarId>)
    ensures forall x :: x in r <==> x in us && x in fvs && x !in seen
    ensures forall i, j :: 0 <= i < j < |r| ==> r[i] != r[j]
  {
    if us == [] then []
    else if us[0] in fvs && us[0] !in seen then [us[0]] + Filtered(us[1..], fvs, seen + {us[0]})
    else Filtered(us[1..], fvs, seen)
  }

  function SkolemTerm(us: seq<VarId>, body: Formula, sym: SymbolId): Term {
    App(sym, VarTerms(Filtered(us, FreeVars(body), {})))
  }

  /** `SkolemCtx::skolemize`. A fresh symbol is always the next id of the symbol table, so the
      table is its length `n`; `us` is the stack of universals in scope. */
  function Skolem(f: Formula, us: seq<VarId>, n: SymbolId): (r: (Formula, SymbolId))
    ensures n <= r.1
    decreases Size(f), 0
  {
    match f
    case Forall(v, b) => var r := Skolem(b, us + [v], n); (Forall(v, r.0), r.1)
    case Exists(v, b) => Skolem(ApplySingleton(v, SkolemTerm(us, b, n), b), us, n + 1)
    case Neg(g) => var r := Skolem(g, us, n); (Neg(r.0), r.1)
    case And(fs) => var r := SkolemAll(fs, us, n); (MkAnd(r.0), r.1)
    case Or(fs) => var r := SkolemAll(fs, us, n); (MkOr(r.0), r.1)
    case Implies(a, b) =>
      var x := Skolem(a, us, n); var y := Skolem(b, us, x.1); (Implies(x.0, y.0), y.1)
    case Iff(a, b) =>
      var x := Skolem(a, us, n); var y := Skolem(b, us, x.1); (Iff(x.0, y.0), y.1)
    case _ => (f, n)
  }

  function SkolemAll(fs: seq<Formula>, us: seq<VarId>, n: SymbolId): (r: (seq<Formula>, SymbolId))
    ensures n <= r.1 && |r.0| == |fs|
    decreases Sizes(fs), 1
  {
    if fs == [] then ([], n) else
    var x := Skolem(fs[0], us, n);
    var y := SkolemAll(fs[1..], us, x.1);
    ([x.0] + y.0, y.1)
  }

  function Elems(xs: seq<VarId>): set<VarId> { set x | x in xs }

  /** What holds of every formula the pass meets when it starts from a closed NNF formula. */
  ghost predicate Hygienic(f: Formula, us: seq<VarId>, n: SymbolId) {
    && IsNnf(f) && OrApart(f) && SymsBelow(f, n)
    && BoundVars(f) !! Elems(us) + FreeVars(f)
  }

  /** Besides, all variables are in scope and no existential one lies below the nesting cut-off. */
  ghost predicate Ready(f: Formula, us: seq<VarId>, n: SymbolId) {
    && IsNnf(f) && OrApart(f) && SymsBelow(f, n)
    && FreeVars(f) <= Elems(us)
    && BoundVars(f) !! Elems(us)
    && Shallow(f, false)
  }

  ghost predicate AllReady(fs: seq<Formula>, us: seq<VarId>, n: SymbolId) {
    forall i :: 0 <= i < |fs| ==> Ready(fs[i], us, n)
  }

  predicate ExistsFree(f: Formula) {
    match f
    case Neg(g) => ExistsFree(g)
    case And(fs) => forall i :: 0 <= i < |fs| ==> ExistsFree(fs[i])
    case Or(fs) => forall i :: 0 <= i < |fs| ==> ExistsFree(fs[i])
    case Implies(a, b) => ExistsFree(a) && ExistsFree(b)
    case Iff(a, b) => ExistsFree(a) && ExistsFree(b)
    case Forall(_, b) => ExistsFree(b)
    case Exists(_, _) => false
    case _ => true
  }

  // ----- substituting a Skolem term keeps the shape

  /** What `Apply` does when no binder meets `v` or `s`: every atom is replaced on its own. */
  function Atomwise(v: VarId, s: Term, f: Formula): Formula {
    match f
    case AtomF(a) => AtomF(ApplyAtom(v, s, a))
    case Neg(g) => Neg(Atomwise(v, s, g))
    case And(fs) => And(seq(|fs|, i requires 0 <= i < |fs| => Atomwise(v, s, fs[i])))
    case Or(fs) => Or(seq(|fs|, i requires 0 <= i < |fs| => Atomwise(v, s, fs[i])))
    case Implies(a, b) => Implies(Atomwise(v, s, a), Atomwise(v, s, b))
    case Iff(a, b) => Iff(Atomwise(v, s, a), Atomwise(v, s, b))
    case Forall(w, b) => Forall(w, Atomwise(v, s, b))
    case Exists(w, b) => Exists(w, Atomwise(v, s, b))
    case True => True
    case False => False
  }

  lemma {:induction false} ApplyAtomwise(v: VarId, s: Term, f: Formula, next: VarId)
    requires BoundVars(f) !! {v} + TermVars(s)
    ensures Apply(v, s, f, next) == (Atomwise(v, s, f), next)
    decreases Size(f), 0
  {
    match f
    case Neg(g) => ApplyAtomwise(v, s, g, next);
    case And(fs) => ApplyAllAtomwise(v, s, fs, next); assert Apply(v, s, f, next).0.parts == Atomwise(v, s, f).parts;
    case Or(fs) => ApplyAllAtomwise(v, s, fs, next); assert Apply(v, s, f, next).0.parts == Atomwise(v, s, f).parts;
    case Implies(a, b) => ApplyAtomwise(v, s, a, next); ApplyAtomwise(v, s, b, next);
    case Iff(a, b) => ApplyAtomwise(v, s, a, next); ApplyAtomwise(v, s, b, next);
    case Forall(w, b) => assert w in BoundVars(f); ApplyAtomwise(v, s, b, next);
    case Exists(w, b) => assert w in BoundVars(f); ApplyAtomwise(v, s, b, next);
    case _ =>
  }

  lemma {:induction false} ApplyAllAtomwise(v: VarId, s: Term, fs: seq<Formula>, next: VarId)
    requires forall i :: 0 <= i < |fs| ==> BoundVars(fs[i]) !! {v} + TermVars(s)
    ensures ApplyAll(v, s, fs, next).1 == next
    ensures forall i :: 0 <= i < |fs| ==> ApplyAll(v, s, fs, next).0[i] == Atomwise(v, s, fs[i])
    decreases Sizes(fs), 1
  {
    if fs != [] {
      ApplyAtomwise(v, s, fs[0], next);
      ApplyAllAtomwise(v, s, fs[1..], next);
    }
  }

  /** Replacing `v` by a term over `vars` removes `v` unless it is deep, and adds only `vars`. */
  ghost predicate VarsReplaced(free1: set<VarId>, deep1: set<VarId>, free: set<VarId>, deep: set<VarId>,
                               v: VarId, vars: set<VarId>)
  {
    && free - {v} <= free1 <= free + vars
    && deep - {v} <= deep1 <= deep + vars
    && (v in free1 <==> v in deep)
  }

  lemma {:induction false} ApplyTermShape(v: VarId, s: Term, t: Term, depth: nat, n: SymbolId)
    requires v !in TermVars(s)
    ensures var r := ApplyTerm(v, s, t, depth);
      VarsReplaced(TermVars(r), DeepVars(r, depth), TermVars(t), DeepVars(t, depth), v, TermVars(s))
    ensures TermSymsBelow(t, n) && TermSymsBelow(s, n) ==> TermSymsBelow(ApplyTerm(v, s, t, depth), n)
    decreases t
  {
    if depth > MAX_DEPTH {
      DeepAreFree(t, depth);
    } else {
      match t
      case Var(w) =>
        DeepAreFree(s, depth);
        if w == v && s.App? { SubstAbsent(v, s, s, depth + 1); }
      case App(f, args) =>
        var r := ApplyTerm(v, s, t, depth);
        forall i | 0 <= i < |args|
          ensures VarsReplaced(TermVars(r.args[i]), DeepVars(r.args[i], depth + 1),
                               TermVars(args[i]), DeepVars(args[i], depth + 1), v, TermVars(s))
          ensures TermSymsBelow(args[i], n) && TermSymsBelow(s, n) ==> TermSymsBelow(r.args[i], n)
        {
          ApplyTermShape(v, s, args[i], depth + 1, n);
        }
        TermsReplaced(r.args, args, depth + 1, v, TermVars(s));
    }
  }

  lemma DeepAreFree(t: Term, depth: nat)
    ensures DeepVars(t, depth) <= TermVars(t)
    ensures depth > MAX_DEPTH ==> DeepVars(t, depth) == TermVars(t)
  {
    forall x ensures x in DeepVars(t, depth) ==> x in TermVars(t) { DeepIsFree(x, t, depth); }
    if depth > MAX_DEPTH {
      forall x ensures x in DeepVars(t, depth) <==> x in TermVars(t) { DeepIsFree(x, t, depth); }
    }
  }

  lemma TermsReplaced(rs: seq<Term>, ts: seq<Term>, depth: nat, v: VarId, vars: set<VarId>)
    requires |rs| == |ts|
    requires forall i :: 0 <= i < |ts| ==>
      VarsReplaced(TermVars(rs[i]), DeepVars(rs[i], depth), TermVars(ts[i]), DeepVars(ts[i], depth), v, vars)
    ensures VarsReplaced(AtomVars(Pred(0, rs)), DeepVarsAll(rs, depth), AtomVars(Pred(0, ts)), DeepVarsAll(ts, depth),
      v, vars)
  {
    forall x | x in AtomVars(Pred(0, ts)) - {v} ensures x in AtomVars(Pred(0, rs)) {
      var i :| 0 <= i < |ts| && x in TermVars(ts[i]);
      assert x in TermVars(rs[i]);
    }
    forall x | x in AtomVars(Pred(0, rs)) ensures x in AtomVars(Pred(0, ts)) + vars {
      var i :| 0 <= i < |rs| && x in TermVars(rs[i]);
      assert x in TermVars(ts[i]) + vars;
    }
    forall x | x in DeepVarsAll(ts, depth) - {v} ensures x in DeepVarsAll(rs, depth) {
      var i :| 0 <= i < |ts| && x in DeepVars(ts[i], depth);
      assert x in DeepVars(rs[i], depth);
    }
    forall x | x in DeepVarsAll(rs, depth) ensures x in DeepVarsAll(ts, depth) + vars {
      var i :| 0 <= i < |rs| && x in DeepVars(rs[i], depth);
      assert x in DeepVars(ts[i], depth) + vars;
    }
  }

  /** The NNF formula `r` has the shape of `f` with `v` replaced by a term over `vars`. */
  ghost predicate SubstOf(r: Formula, f: Formula, v: VarId, vars: set<VarId>) {
    && BoundVars(r) == BoundVars(f)
    && IsNnf(r) && (OrApart(f) ==> OrApart(r))
    && VarsReplaced(FreeVars(r), DeepVarsOf(r), FreeVars(f), DeepVarsOf(f), v, vars)
    && Shallow(r, false) == Shallow(f, false)
  }

  lemma {:induction false} SubstShape(v: VarId, s: Term, f: Formula, n: SymbolId)
    requires IsNnf(f) && v !in TermVars(s) && BoundVars(f) !! {v} + TermVars(s)
    ensures SubstOf(Atomwise(v, s, f), f, v, TermVars(s))
    ensures SymsBelow(f, n) && TermSymsBelow(s, n) ==> SymsBelow(Atomwise(v, s, f), n)
    decreases f
  {
    match f
    case AtomF(a) => AtomShape(v, s, a, n);
    case Neg(g) => SubstShape(v, s, g, n); NegShape(v, s, g.atom, TermVars(s));
    case And(fs) =>
      forall i | 0 <= i < |fs| { SubstShape(v, s, fs[i], n); }
      PartsShape(Atomwise(v, s, f).parts, fs, v, TermVars(s));
    case Or(fs) =>
      forall i | 0 <= i < |fs| { SubstShape(v, s, fs[i], n); }
      PartsShape(Atomwise(v, s, f).parts, fs, v, TermVars(s));
    case Forall(w, b) => SubstShape(v, s, b, n); BinderShape(w, Atomwise(v, s, b), b, v, TermVars(s));
    case Exists(w, b) => SubstShape(v, s, b, n); BinderShape(w, Atomwise(v, s, b), b, v, TermVars(s));
    case True =>
    case False =>
  }

  lemma NegShape(v: VarId, s: Term, a: Atom, vars: set<VarId>)
    requires SubstOf(AtomF(ApplyAtom(v, s, a)), AtomF(a), v, vars)
    ensures SubstOf(Neg(AtomF(ApplyAtom(v, s, a))), Neg(AtomF(a)), v, vars)
  {
  }

  lemma AtomShape(v: VarId, s: Term, a: Atom, n: SymbolId)
    requires v !in TermVars(s)
    ensures SubstOf(AtomF(ApplyAtom(v, s, a)), AtomF(a), v, TermVars(s))
    ensures AtomSymsBelow(a, n) && TermSymsBelow(s, n) ==> AtomSymsBelow(ApplyAtom(v, s, a), n)
  {
    match a
    case Pred(p, args) =>
      forall i | 0 <= i < |args| { ApplyTermShape(v, s, args[i], 0, n); }
      TermsReplaced(ApplyAtom(v, s, a).args, args, 0, v, TermVars(s));
    case Eq(l, r) => ApplyTermShape(v, s, l, 0, n); ApplyTermShape(v, s, r, 0, n);
  }

  lemma PartsShape(gs: seq<Formula>, fs: seq<Formula>, v: VarId, vars: set<VarId>)
    requires |gs| == |fs| && forall i :: 0 <= i < |fs| ==> SubstOf(gs[i], fs[i], v, vars)
    ensures SubstOf(And(gs), And(fs), v, vars) && SubstOf(Or(gs), Or(fs), v, vars)
  {
    PartsVars(gs, fs, v, vars);
    assert BoundVars(And(gs)) == BoundVars(And(fs)) == BoundVars(Or(gs)) == BoundVars(Or(fs));
  }

  lemma PartsVars(gs: seq<Formula>, fs: seq<Formula>, v: VarId, vars: set<VarId>)
    requires |gs| == |fs| && forall i :: 0 <= i < |fs| ==>
      VarsReplaced(FreeVars(gs[i]), DeepVarsOf(gs[i]), FreeVars(fs[i]), DeepVarsOf(fs[i]), v, vars)
    ensures VarsReplaced(FreeVars(And(gs)), DeepVarsOf(And(gs)), FreeVars(And(fs)), DeepVarsOf(And(fs)), v, vars)
    ensures FreeVars(Or(gs)) == FreeVars(And(gs)) && DeepVarsOf(Or(gs)) == DeepVarsOf(And(gs))
    ensures FreeVars(Or(fs)) == FreeVars(And(fs)) && DeepVarsOf(Or(fs)) == DeepVarsOf(And(fs))
  {
    forall x | x in FreeVars(And(fs)) - {v} ensures x in FreeVars(And(gs)) {
      var i :| 0 <= i < |fs| && x in FreeVars(fs[i]);
      assert x in FreeVars(gs[i]);
    }
    forall x | x in FreeVars(And(gs)) ensures x in FreeVars(And(fs)) + vars {
      var i :| 0 <= i < |gs| && x in FreeVars(gs[i]);
      assert x in FreeVars(fs[i]) + vars;
    }
    forall x | x in DeepVarsOf(And(fs)) - {v} ensures x in DeepVarsOf(And(gs)) {
      var i :| 0 <= i < |fs| && x in DeepVarsOf(fs[i]);
      assert x in DeepVarsOf(gs[i]);
    }
    forall x | x in DeepVarsOf(And(gs)) ensures x in DeepVarsOf(And(fs)) + vars {
      var i :| 0 <= i < |gs| && x in DeepVarsOf(gs[i]);
      assert x in DeepVarsOf(fs[i]) + vars;
    }
  }

  lemma BinderShape(w: VarId, r: Formula, b: Formula, v: VarId, vars: set<VarId>)
    requires SubstOf(r, b, v, vars) && w != v && w !in vars
    ensures SubstOf(Forall(w, r), Forall(w, b), v, vars) && SubstOf(Exists(w, r), Exists(w, b), v, vars)
  {
  }

  // ----- one existential step

  lemma SkolemTermVars(us: seq<VarId>, b: Formula, n: SymbolId)
    ensures TermVars(SkolemTerm(us, b, n)) == Elems(us) * FreeVars(b)
    ensures TermSymsBelow(SkolemTerm(us, b, n), n + 1)
  {
    var xs := Filtered(us, FreeVars(b), {});
    forall x | x in Elems(us) * FreeVars(b) ensures x in TermVars(SkolemTerm(us, b, n)) {
      var i :| 0 <= i < |xs| && xs[i] == x;
      assert x in TermVars(VarTerms(xs)[i]);
    }
  }

  /** The replacement of an existential variable, whether or not the variable is deep. */
  lemma StepShape(f: Formula, us: seq<VarId>, n: SymbolId) returns (s: Term, g: Formula)
    requires f.Exists? && IsNnf(f) && OrApart(f) && BoundVars(f) !! Elems(us)
    ensures s == SkolemTerm(us, f.body, n) && g == ApplySingleton(f.bound, s, f.body) && Size(g) < Size(f)
    ensures g == Atomwise(f.bound, s, f.body)
    ensures IsNnf(g) && OrApart(g) && SubstOf(g, f.body, f.bound, TermVars(s))
    ensures TermVars(s) <= Elems(us) && f.bound !in TermVars(s)
    ensures BoundVars(g) == BoundVars(f.body) && BoundVars(f.body) !! {f.bound} + TermVars(s)
    ensures SymsBelow(f, n) ==> SymsBelow(g, n + 1)
  {
    var v, b := f.bound, f.body;
    s := SkolemTerm(us, b, n);
    g := ApplySingleton(v, s, b);
    SkolemTermVars(us, b, n);
    assert v in BoundVars(f) && v !in Elems(us);
    ApplyAtomwise(v, s, b, Max(Max(v, TermMaxVar(s)), MaxVar(b)) + 1);
    SubstShape(v, s, b, n + 1);
    if SymsBelow(f, n) { SymsMono(b, n, n + 1); }
  }

  /** What remains is ready for the next step, and is the replacement in every structure. */
  lemma StepReady(f: Formula, us: seq<VarId>, n: SymbolId) returns (s: Term, g: Formula)
    requires Ready(f, us, n) && f.Exists?
    ensures s == SkolemTerm(us, f.body, n) && g == ApplySingleton(f.bound, s, f.body)
    ensures Ready(g, us, n + 1) && Size(g) < Size(f)
    ensures f.bound !in TermVars(s) && f.bound !in DeepVarsOf(f.body)
    ensures BoundVars(g) == BoundVars(f.body)
  {
    s, g := StepShape(f, us, n);
  }

  lemma ReadyBody(f: Formula, us: seq<VarId>, n: SymbolId)
    requires Ready(f, us, n) && f.Forall?
    ensures Ready(f.body, us + [f.bound], n)
  {
    assert f.bound in BoundVars(f);
    assert Elems(us + [f.bound]) == Elems(us) + {f.bound};
  }

  lemma ReadyParts(f: Formula, us: seq<VarId>, n: SymbolId)
    requires Ready(f, us, n) && (f.And? || f.Or?)
    ensures AllReady(f.parts, us, n)
  {
    forall i | 0 <= i < |f.parts| ensures Ready(f.parts[i], us, n) {
      assert FreeVars(f.parts[i]) <= FreeVars(f) && BoundVars(f.parts[i]) <= BoundVars(f);
    }
  }

  // ----- every model of the output is a model of the input

  lemma {:induction false} SkolemSound<D(!new)>(m: Structure<D>, e: Env<D>, f: Formula, us: seq<VarId>, n: SymbolId)
    requires Ready(f, us, n) && Holds(m, e, Skolem(f, us, n).0)
    ensures Holds(m, e, f)
    decreases Size(f), 0
  {
    match f
    case Forall(v, b) =>
      ReadyBody(f, us, n);
      forall d: D ensures Holds(m, Upd(e, v, d), b) {
        assert Holds(m, Upd(e, v, d), Skolem(b, us + [v], n).0);
        SkolemSound(m, Upd(e, v, d), b, us + [v], n);
      }
    case Exists(v, b) =>
      var s, g := StepReady(f, us, n);
      SkolemSound(m, e, g, us, n + 1);
      ApplySingletonHolds(m, e, v, s, b);
    case And(fs) => ReadyParts(f, us, n); SkolemAllSound(m, e, fs, us, n);
    case Or(fs) => ReadyParts(f, us, n); SkolemAllSound(m, e, fs, us, n);
    case Neg(g) => assert Skolem(g, us, n).0 == g;
    case _ =>
  }

  lemma {:induction false} SkolemAllSound<D(!new)>(m: Structure<D>, e: Env<D>, fs: seq<Formula>, us: seq<VarId>,
                                            n: SymbolId)
    requires AllReady(fs, us, n)
    ensures forall i :: 0 <= i < |fs| && Holds(m, e, SkolemAll(fs, us, n).0[i]) ==> Holds(m, e, fs[i])
    decreases Sizes(fs), 1
  {
    if fs != [] {
      var x := Skolem(fs[0], us, n);
      if Holds(m, e, x.0) { SkolemSound(m, e, fs[0], us, n); }
      forall i | 0 <= i < |fs[1..]| ensures Ready(fs[1..][i], us, x.1) { SymsMono(fs[i + 1], n, x.1); }
      SkolemAllSound(m, e, fs[1..], us, x.1);
    }
  }

  // ----- shape of the output

  /** Nothing is asked about nesting: a deep existential variable merely stays free. */
  ghost predicate SkolemOut(r: Formula, f: Formula, us: seq<VarId>, k: SymbolId) {
    && IsNnf(r) && OrApart(r) && ExistsFree(r) && SymsBelow(r, k)
    && BoundVars(r) <= BoundVars(f) && FreeVars(r) <= Elems(us) + FreeVars(f) + BoundVars(f)
    && (FreeVars(f) <= Elems(us) && Shallow(f, false) ==> FreeVars(r) <= Elems(us))
  }

  lemma HygienicBody(f: Formula, us: seq<VarId>, n: SymbolId)
    requires Hygienic(f, us, n) && f.Forall?
    ensures Hygienic(f.body, us + [f.bound], n) && Elems(us + [f.bound]) == Elems(us) + {f.bound}
  {
    assert f.bound in BoundVars(f);
  }

  lemma HygienicStep(f: Formula, us: seq<VarId>, n: SymbolId) returns (s: Term, g: Formula)
    requires Hygienic(f, us, n) && f.Exists?
    ensures s == SkolemTerm(us, f.body, n) && g == ApplySingleton(f.bound, s, f.body)
    ensures Size(g) == Size(f.body) < Size(f)
    ensures Hygienic(g, us, n + 1) && g == Atomwise(f.bound, s, f.body)
    ensures SubstOf(g, f.body, f.bound, TermVars(s))
    ensures TermVars(s) <= Elems(us) && f.bound !in TermVars(s) && BoundVars(f.body) !! {f.bound} + TermVars(s)
  {
    assert f.bound in BoundVars(f);
    s, g := StepShape(f, us, n);
  }

  ghost predicate AllHygienic(fs: seq<Formula>, us: seq<VarId>, n: SymbolId) {
    forall i :: 0 <= i < |fs| ==> Hygienic(fs[i], us, n)
  }

  lemma HygienicParts(f: Formula, us: seq<VarId>, n: SymbolId)
    requires Hygienic(f, us, n) && (f.And? || f.Or?)
    ensures AllHygienic(f.parts, us, n)
  {
    forall i | 0 <= i < |f.parts| ensures Hygienic(f.parts[i], us, n) {
      assert FreeVars(f.parts[i]) <= FreeVars(f) && BoundVars(f.parts[i]) <= BoundVars(f);
    }
  }

  lemma {:induction false} SkolemShape(f: Formula, us: seq<VarId>, n: SymbolId)
    requires Hygienic(f, us, n)
    ensures SkolemOut(Skolem(f, us, n).0, f, us, Skolem(f, us, n).1)
    decreases Size(f), 0
  {
    match f
    case Forall(v, b) => HygienicBody(f, us, n); SkolemShape(b, us + [v], n);
    case Exists(v, b) =>
      var s, g := HygienicStep(f, us, n);
      SkolemShape(g, us, n + 1);
    case And(fs) =>
      HygienicParts(f, us, n);
      SkolemAllShape(fs, us, n);
      MkShape(SkolemAll(fs, us, n).0, fs, us, Skolem(f, us, n).1);
    case Or(fs) =>
      HygienicParts(f, us, n);
      SkolemAllShape(fs, us, n);
      MkShape(SkolemAll(fs, us, n).0, fs, us, Skolem(f, us, n).1);
    case _ =>
  }

  lemma MkShape(gs: seq<Formula>, fs: seq<Formula>, us: seq<VarId>, k: SymbolId)
    requires |gs| == |fs| && forall i :: 0 <= i < |fs| ==> SkolemOut(gs[i], fs[i], us, k)
    ensures SkolemOut(MkAnd(gs), And(fs), us, k)
    ensures (forall i, j :: 0 <= i < j < |fs| ==> BoundVars(fs[i]) !! BoundVars(fs[j])) ==>
      SkolemOut(MkOr(gs), Or(fs), us, k)
  {
    JunctionOut(gs, fs, us, k);
    if |gs| == 1 { SingleOut(gs, And(fs), us, k); SingleOut(gs, Or(fs), us, k); }
  }

  lemma JunctionOut(gs: seq<Formula>, fs: seq<Formula>, us: seq<VarId>, k: SymbolId)
    requires |gs| == |fs| && forall i :: 0 <= i < |fs| ==> SkolemOut(gs[i], fs[i], us, k)
    ensures SkolemOut(And(gs), And(fs), us, k) && SkolemOut(And(gs), Or(fs), us, k)
    ensures (forall i, j :: 0 <= i < j < |fs| ==> BoundVars(fs[i]) !! BoundVars(fs[j])) ==>
      SkolemOut(Or(gs), Or(fs), us, k)
  {
    PartsOut(gs, fs, us, k);
    SameVars(gs);
    SameVars(fs);
  }

  lemma SameVars(gs: seq<Formula>)
    ensures FreeVars(And(gs)) == FreeVars(Or(gs)) && BoundVars(And(gs)) == BoundVars(Or(gs))
  {
  }

  lemma SingleOut(gs: seq<Formula>, f: Formula, us: seq<VarId>, k: SymbolId)
    requires |gs| == 1 && SkolemOut(And(gs), f, us, k)
    ensures SkolemOut(gs[0], f, us, k)
  {
    assert FreeVars(And(gs)) == FreeVars(gs[0]) && BoundVars(And(gs)) == BoundVars(gs[0]);
  }

  lemma PartsOut(gs: seq<Formula>, fs: seq<Formula>, us: seq<VarId>, k: SymbolId)
    requires |gs| == |fs| && forall i :: 0 <= i < |fs| ==> SkolemOut(gs[i], fs[i], us, k)
    ensures BoundVars(And(gs)) <= BoundVars(And(fs))
    ensures FreeVars(And(gs)) <= Elems(us) + FreeVars(And(fs)) + BoundVars(And(fs))
    ensures FreeVars(And(fs)) <= Elems(us) && Shallow(And(fs), false) ==> FreeVars(And(gs)) <= Elems(us)
  {
    forall i | 0 <= i < |fs|
      ensures FreeVars(fs[i]) <= FreeVars(And(fs)) && BoundVars(fs[i]) <= BoundVars(And(fs))
    {
    }
  }

  lemma {:induction false} SkolemAllShape(fs: seq<Formula>, us: seq<VarId>, n: SymbolId)
    requires AllHygienic(fs, us, n)
    ensures forall i :: 0 <= i < |fs| ==> SkolemOut(SkolemAll(fs, us, n).0[i], fs[i], us, SkolemAll(fs, us, n).1)
    decreases Sizes(fs), 1
  {
    if fs != [] {
      var x := Skolem(fs[0], us, n);
      SkolemShape(fs[0], us, n);
      forall i | 0 <= i < |fs[1..]| ensures Hygienic(fs[1..][i], us, x.1) { SymsMono(fs[i + 1], n, x.1); }
      SkolemAllShape(fs[1..], us, x.1);
      SymsMono(x.0, x.1, SkolemAll(fs, us, n).1);
    }
  }

  // ----- every model of the input extends to the fresh symbols

  ghost function Witness<D(!new, 00)>(m: Structure<D>, v: VarId, b: Formula, xs: seq<VarId>, ds: seq<D>): D {
    var e := ArgEnv(xs, ds, Anything());
    if exists d :: Holds(m, Upd(e, v, d), b) then var d :| Holds(m, Upd(e, v, d), b); d else Anything()
  }

  /** `m` with the fresh symbol `n` read as a witness function for `exists v. b`. */
  ghost function WithWitness<D(!new, 00)>(m: Structure<D>, n: SymbolId, v: VarId, b: Formula,
                               xs: seq<VarId>): Structure<D> {
    Structure((s: SymbolId, ds: seq<D>) => if s == n then Witness(m, v, b, xs, ds) else m.fun(s, ds), m.pred)
  }

  lemma WitnessHolds<D(!new, 00)>(m: Structure<D>, e: Env<D>, v: VarId, b: Formula, xs: seq<VarId>)
    requires Holds(m, e, Exists(v, b)) && forall x :: x in FreeVars(b) - {v} ==> x in xs
    ensures Holds(m, Upd(e, v, Witness(m, v, b, xs, Vals(m, e, VarTerms(xs)))), b)
  {
    var ds := Vals(m, e, VarTerms(xs));
    ArgEnvAgrees(m, e, xs, Anything(), FreeVars(b) - {v});
    var e0 := ArgEnv(xs, ds, Anything());
    HoldsAgree(m, m, e, e0, Exists(v, b), 0);
    var d := Witness(m, v, b, xs, ds);
    assert Holds(m, Upd(e0, v, d), b);
    HoldsAgree(m, m, Upd(e0, v, d), Upd(e, v, d), b, 0);
  }

  lemma {:induction false} WitnessWorks<D(!new, 00)>(m: Structure<D>, e: Env<D>, f: Formula, us: seq<VarId>,
                                          n: SymbolId)
    requires Ready(f, us, n) && f.Exists? && Holds(m, e, f)
    ensures var s := SkolemTerm(us, f.body, n); var xs := Filtered(us, FreeVars(f.body), {});
      Holds(WithWitness(m, n, f.bound, f.body, xs), e, ApplySingleton(f.bound, s, f.body))
  {
    var v, b := f.bound, f.body;
    var s, g := StepReady(f, us, n);
    var xs := Filtered(us, FreeVars(b), {});
    var m1 := WithWitness(m, n, v, b, xs);
    WitnessHolds(m, e, v, b, xs);
    forall i | 0 <= i < |xs| ensures Val(m1, e, VarTerms(xs)[i]) == Val(m, e, VarTerms(xs)[i]) {}
    assert Vals(m1, e, VarTerms(xs)) == Vals(m, e, VarTerms(xs));
    var d := Witness(m, v, b, xs, Vals(m, e, VarTerms(xs)));
    assert Val(m1, e, s) == d;
    HoldsAgree(m, m1, Upd(e, v, d), Upd(e, v, d), b, n);
    ApplySingletonHolds(m1, e, v, s, b);
  }

  /** `m2` extends `m` to the fresh symbols so that `g` holds wherever `f` did. */
  ghost predicate Expands<D(!new)>(m: Structure<D>, m2: Structure<D>, n: SymbolId, f: Formula, g: Formula) {
    && AgreeBelow(m, m2, n)
    && forall e: Env<D> :: Holds(m, e, f) ==> Holds(m2, e, g)
  }

  ghost predicate Expandable<D(!new)>(m: Structure<D>, n: SymbolId, f: Formula, g: Formula) {
    exists m2: Structure<D> :: Expands(m, m2, n, f, g)
  }

  lemma {:induction false} SkolemComplete<D(!new, 00)>(m: Structure<D>, f: Formula, us: seq<VarId>, n: SymbolId)
    returns (m2: Structure<D>)
    requires Ready(f, us, n)
    ensures Expands(m, m2, n, f, Skolem(f, us, n).0)
    decreases Size(f), 0
  {
    match f
    case Forall(v, b) =>
      ReadyBody(f, us, n);
      m2 := SkolemComplete(m, b, us + [v], n);
    case Exists(v, b) =>
      var s, g := StepReady(f, us, n);
      var m1 := WithWitness(m, n, v, b, Filtered(us, FreeVars(b), {}));
      m2 := SkolemComplete(m1, g, us, n + 1);
      forall e: Env<D> | Holds(m, e, f) ensures Holds(m2, e, Skolem(f, us, n).0) { WitnessWorks(m, e, f, us, n); }
    case And(fs) => ReadyParts(f, us, n); m2 := SkolemAllComplete(m, fs, us, n);
    case Or(fs) => ReadyParts(f, us, n); m2 := SkolemAllComplete(m, fs, us, n);
    case _ => m2 := m;
  }

  lemma {:induction false} SkolemAllComplete<D(!new, 00)>(m: Structure<D>, fs: seq<Formula>, us: seq<VarId>,
                                               n: SymbolId)
    returns (m2: Structure<D>)
    requires AllReady(fs, us, n)
    ensures AgreeBelow(m, m2, n)
    ensures forall i, e: Env<D> :: 0 <= i < |fs| && Holds(m, e, fs[i]) ==> Holds(m2, e, SkolemAll(fs, us, n).0[i])
    decreases Sizes(fs), 1
  {
    if fs == [] { return m; }
    var x := Skolem(fs[0], us, n);
    var m1 := SkolemComplete(m, fs[0], us, n);
    forall i | 0 <= i < |fs[1..]| ensures Ready(fs[1..][i], us, x.1) { SymsMono(fs[i + 1], n, x.1); }
    m2 := SkolemAllComplete(m1, fs[1..], us, x.1);
    forall i, e: Env<D> | 0 <= i < |fs| && Holds(m, e, fs[i]) ensures Holds(m2, e, SkolemAll(fs, us, n).0[i]) {
      if i == 0 {
        SkolemShape(fs[0], us, n);
        HoldsAgree(m1, m2, e, e, x.0, x.1);
      } else {
        HoldsAgree(m, m1, e, e, fs[i], n);
        assert fs[1..][i - 1] == fs[i];
      }
    }
  }

  // ----- exactly when the pass closes its input

  /** The pass keeps free variables, and a deep existential variable stays behind as one. */
  lemma {:induction false} SkolemKeeps(f: Formula, us: seq<VarId>, n: SymbolId)
    requires IsNnf(f) && OrApart(f) && BoundVars(f) !! Elems(us) + FreeVars(f)
    ensures FreeVars(f) <= FreeVars(Skolem(f, us, n).0)
    ensures !Shallow(f, false) ==> !(FreeVars(Skolem(f, us, n).0) <= Elems(us))
    decreases Size(f), 0
  {
    match f
    case Forall(v, b) =>
      assert v in BoundVars(f) && Elems(us + [v]) == Elems(us) + {v};
      SkolemKeeps(b, us + [v], n);
      if !Shallow(f, false) {
        var x :| x in FreeVars(Skolem(b, us + [v], n).0) && x !in Elems(us + [v]);
        assert x in FreeVars(Skolem(f, us, n).0);
      }
    case Exists(v, b) =>
      assert v in BoundVars(f);
      var s, g := StepShape(f, us, n);
      SkolemKeeps(g, us, n + 1);
      if v in DeepVarsOf(b) { assert v in FreeVars(g) && v !in Elems(us); }
    case And(fs) => SkolemAllKeeps(fs, f, us, n); MkKeeps(SkolemAll(fs, us, n).0, fs, us);
    case Or(fs) => SkolemAllKeeps(fs, f, us, n); MkKeeps(SkolemAll(fs, us, n).0, fs, us);
    case Neg(g) => assert Shallow(g, true);
    case _ =>
  }

  ghost predicate Keeps(r: Formula, f: Formula, us: seq<VarId>) {
    FreeVars(f) <= FreeVars(r) && (!Shallow(f, false) ==> !(FreeVars(r) <= Elems(us)))
  }

  lemma MkKeeps(gs: seq<Formula>, fs: seq<Formula>, us: seq<VarId>)
    requires |gs| == |fs| && forall i :: 0 <= i < |fs| ==> Keeps(gs[i], fs[i], us)
    ensures Keeps(MkAnd(gs), And(fs), us) && Keeps(MkOr(gs), Or(fs), us)
  {
    forall i | 0 <= i < |gs| ensures FreeVars(gs[i]) <= FreeVars(MkAnd(gs)) && FreeVars(gs[i]) <= FreeVars(MkOr(gs)) {}
  }

  lemma {:induction false} SkolemAllKeeps(fs: seq<Formula>, f: Formula, us: seq<VarId>, n: SymbolId)
    requires forall i :: 0 <= i < |fs| ==> IsNnf(fs[i]) && OrApart(fs[i])
    requires forall i :: 0 <= i < |fs| ==> BoundVars(fs[i]) <= BoundVars(f) && FreeVars(fs[i]) <= FreeVars(f)
    requires BoundVars(f) !! Elems(us) + FreeVars(f)
    ensures forall i :: 0 <= i < |fs| ==> Keeps(SkolemAll(fs, us, n).0[i], fs[i], us)
    decreases Sizes(fs), 1
  {
    if fs != [] {
      SkolemKeeps(fs[0], us, n);
      SkolemAllKeeps(fs[1..], f, us, Skolem(fs[0], us, n).1);
    }
  }

  /** The output of the pass is closed exactly when no existential variable of the closed
      input lies below the nesting cut-off. */
  lemma SkolemClosedExact(f: Formula, n: SymbolId)
    requires IsNnf(f) && OrApart(f) && SymsBelow(f, n) && Closed(f)
    ensures Closed(Skolem(f, [], n).0) <==> Shallow(f, false)
  {
    if Shallow(f, false) { SkolemShape(f, [], n); } else { SkolemKeeps(f, [], n); }
  }

  // ----- main results

  /** Skolemization over one domain: the output entails the input, and every model of the
      input can be changed on the fresh symbols alone to satisfy the output. */
  lemma SkolemizationCorrect<D(!new, 00)>(f: Formula, n: SymbolId)
    requires Ready(f, [], n)
    ensures forall m: Structure<D>, e: Env<D> :: Holds(m, e, Skolem(f, [], n).0) ==> Holds(m, e, f)
    ensures forall m: Structure<D> :: Expandable(m, n, f, Skolem(f, [], n).0)
  {
    forall m: Structure<D>, e: Env<D> | Holds(m, e, Skolem(f, [], n).0) ensures Holds(m, e, f) {
      SkolemSound(m, e, f, [], n);
    }
    forall m: Structure<D> ensures Expandable(m, n, f, Skolem(f, [], n).0) {
      var m2 := SkolemComplete(m, f, [], n);
    }
  }

  /** The mutable context of the pass: the symbol table, as its length, and the scope stack. */
  class SkolemCtx {
    var symbols: SymbolId
    var universalVars: seq<VarId>

    constructor (symbols: SymbolId)
      ensures this.symbols == symbols && universalVars == []
    {
      this.symbols := symbols;
      universalVars := [];
    }

    method FreshSkolem() returns (sym: SymbolId)
      modifies this`symbols
      ensures sym == old(symbols) && symbols == old(symbols) + 1
    {
      sym := symbols;
      symbols := symbols + 1;
    }

    method Skolemize(f: Formula) returns (r: Formula)
      modifies this
      ensures (r, symbols) == Skolem(f, old(universalVars), old(symbols))
      ensures universalVars == old(universalVars)
      decreases Size(f), 0
    {
      match f {
        case Forall(v, b) =>
          universalVars := universalVars + [v];
          var g := Skolemize(b);
          universalVars := universalVars[..|universalVars| - 1];
          r := Forall(v, g);
        case Exists(v, b) =>
          var sym := FreshSkolem();
          var term := SkolemTerm(universalVars, b, sym);
          r := Skolemize(ApplySingleton(v, term, b));
        case Neg(g) => var x := Skolemize(g); r := Neg(x);
        case And(fs) => var gs := SkolemizeAll(fs); r := MkAnd(gs);
        case Or(fs) => var gs := SkolemizeAll(fs); r := MkOr(gs);
        case Implies(a, b) => var x := Skolemize(a); var y := Skolemize(b); r := Implies(x, y);
        case Iff(a, b) => var x := Skolemize(a); var y := Skolemize(b); r := Iff(x, y);
        case AtomF(_) => r := f;
        case True => r := f;
        case False => r := f;
      }
    }

    method SkolemizeAll(fs: seq<Formula>) returns (gs: seq<Formula>)
      modifies this
      ensures (gs, symbols) == SkolemAll(fs, old(universalVars), old(symbols))
      ensures universalVars == old(universalVars)
      decreases Sizes(fs), 1
    {
      gs := [];
      ghost var all := SkolemAll(fs, universalVars, symbols);
      assert fs[0..] == fs;
      for i := 0 to |fs|
        invariant universalVars == old(universalVars)
        invariant all.0 == gs + SkolemAll(fs[i..], universalVars, symbols).0
        invariant all.1 == SkolemAll(fs[i..], universalVars, symbols).1
      {
        SizesAt(fs, i);
        assert fs[i..][1..] == fs[i + 1..];
        var g := Skolemize(fs[i]);
        gs := gs + [g];
      }
      assert fs[|fs|..] == [] && gs + [] == gs;
    }
  }
}
